/** The table of recent sales: seven columns of the rows, newest first, cut
    to the first hundred. */
module RecentSales {
  import opened Dataset
  import opened Order

  /** One line of the table: the columns the table keeps, in its order. */
  datatype TableRow = TableRow(
    date: int,
    gender: string,
    location: Option<string>,
    category: string,
    quantity: int,
    avgPrice: real,
    discountPct: real)

  /** The number of rows the table shows (`head(100)`). */
  const RecentLimit: nat := 100

  function Project(t: Transaction): TableRow {
    TableRow(t.date, t.gender, t.location, t.category, t.quantity, t.avgPrice, t.discountPct)
  }

  /** The column selection, row by row. */
  function ProjectAll(rows: seq<Transaction>): seq<TableRow> {
    seq(|rows|, i requires 0 <= i < |rows| => Project(rows[i]))
  }

  /** A line is in the column selection exactly when some row gives it. */
  lemma ProjectAllMembers(rows: seq<Transaction>, x: TableRow)
    ensures x in ProjectAll(rows) <==> exists t :: t in rows && Project(t) == x
  {
    var all := ProjectAll(rows);
    if x in all {
      var i :| 0 <= i < |all| && all[i] == x;
      assert rows[i] in rows;
    }
    if exists t :: t in rows && Project(t) == x {
      var t :| t in rows && Project(t) == x;
      var i :| 0 <= i < |rows| && rows[i] == t;
      assert all[i] == x;
    }
  }

  function DateOf(r: TableRow): int {
    r.date
  }

  predicate NewestFirst(s: seq<TableRow>) {
    forall i, j :: 0 <= i < j < |s| ==> s[i].date >= s[j].date
  }

  /** `sort_values(by='Transaction_Date', ascending=False).head(limit)`. */
  function MostRecent(rows: seq<Transaction>, limit: nat): seq<TableRow> {
    Take(SortByKey(ProjectAll(rows), DateOf, false), limit)
  }

  function RecentTable(rows: seq<Transaction>): seq<TableRow> {
    MostRecent(rows, RecentLimit)
  }

  /** The table holds `limit` lines, or every row when there are fewer; the
      lines are rows of the selection, newest first; and no row left out is
      newer than a row shown. */
  lemma MostRecentSpec(rows: seq<Transaction>, limit: nat)
    ensures var r := MostRecent(rows, limit);
      && |r| == (if |rows| < limit then |rows| else limit)
      && NewestFirst(r)
      && multiset(r) <= multiset(ProjectAll(rows))
      && forall x :: multiset(r)[x] < multiset(ProjectAll(rows))[x] ==>
           forall k :: 0 <= k < |r| ==> r[k].date >= x.date
  {
    var all := ProjectAll(rows);
    var sorted := SortByKey(all, DateOf, false);
    var r := Take(sorted, limit);
    assert |sorted| == |all| by {
      assert |sorted| == |multiset(sorted)| == |multiset(all)| == |all|;
    }
    TakeSorted(sorted, DateOf, false, limit);
    forall x | multiset(r)[x] < multiset(all)[x]
      ensures forall k :: 0 <= k < |r| ==> r[k].date >= x.date
    {
      TakeSortedSplit(sorted, DateOf, false, limit, x);
      forall k | 0 <= k < |r| ensures r[k].date >= x.date {
        assert r[k] in r;
      }
    }
  }

  /** With at most `limit` rows the table shows all of them. */
  lemma MostRecentKeepsAllWhenFew(rows: seq<Transaction>, limit: nat)
    requires |rows| <= limit
    ensures multiset(MostRecent(rows, limit)) == multiset(ProjectAll(rows))
  {
    var all := ProjectAll(rows);
    var sorted := SortByKey(all, DateOf, false);
    assert |sorted| == |multiset(sorted)| == |multiset(all)| == |rows|;
    assert Take(sorted, limit) == sorted;
  }

  /** Every line of the table is the projection of one of the rows. */
  lemma MostRecentFrom(rows: seq<Transaction>, limit: nat, x: TableRow)
    requires x in MostRecent(rows, limit)
    ensures exists t :: t in rows && Project(t) == x
  {
    MostRecentSpec(rows, limit);
    assert x in multiset(ProjectAll(rows));
    ProjectAllMembers(rows, x);
  }
}
