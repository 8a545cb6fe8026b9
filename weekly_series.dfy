/** The weekly revenue curve: the rows grouped by the Sunday that ends their
    week, the revenue of each week in ascending week order, the last week
    removed (`[:-1]`). */
module WeeklySeries {
  import opened Dataset
  import opened Order
  import opened Selection
  import opened Revenue

  /** One point of the curve: a week, labelled by its closing Sunday, and its revenue. */
  datatype WeekPoint = WeekPoint(weekEnd: int, revenue: real)

  function WeeksOf(rows: seq<Transaction>): seq<int> {
    seq(|rows|, i requires 0 <= i < |rows| => WeekEnd(rows[i].date))
  }

  /** The weeks holding at least one row, ascending: the index of the grouping. */
  function Buckets(rows: seq<Transaction>): seq<int> {
    SortedDistinctInts(WeeksOf(rows))
  }

  /** The revenue of each week of ks. */
  function Points(rows: seq<Transaction>, ks: seq<int>): seq<WeekPoint> {
    if ks == [] then []
    else [WeekPoint(ks[0], TotalRevenue(Where(rows, InWeek(ks[0]))))] + Points(rows, ks[1..])
  }

  /** `groupby(pd.Grouper(key='Transaction_Date', freq='W')).apply(calculer_chiffre_affaire)`. */
  function WeeklyRevenue(rows: seq<Transaction>): seq<WeekPoint> {
    Points(rows, Buckets(rows))
  }

  /** The curve drawn: the weekly revenue without its last week. */
  function WeeklyChart(rows: seq<Transaction>): seq<WeekPoint> {
    DropLast(WeeklyRevenue(rows))
  }

  function SeriesTotal(ps: seq<WeekPoint>): real {
    if ps == [] then 0.0 else ps[0].revenue + SeriesTotal(ps[1..])
  }

  // ----- Shape of the curve -----

  lemma {:induction false} PointsSpec(rows: seq<Transaction>, ks: seq<int>)
    ensures |Points(rows, ks)| == |ks|
    ensures forall i :: 0 <= i < |ks| ==>
      Points(rows, ks)[i] == WeekPoint(ks[i], TotalRevenue(Where(rows, InWeek(ks[i]))))
  {
    if ks != [] {
      PointsSpec(rows, ks[1..]);
    }
  }

  /** A week is a bucket exactly when some row falls in it. */
  lemma BucketsSpec(rows: seq<Transaction>)
    ensures Increasing(Buckets(rows))
    ensures forall w :: w in Buckets(rows) <==> exists t :: t in rows && WeekEnd(t.date) == w
    ensures rows == [] <==> Buckets(rows) == []
  {
    var ws := WeeksOf(rows);
    forall w ensures w in ws <==> exists t :: t in rows && WeekEnd(t.date) == w {
      if w in ws {
        var i :| 0 <= i < |ws| && ws[i] == w;
        assert rows[i] in rows;
      }
      if exists t :: t in rows && WeekEnd(t.date) == w {
        var t :| t in rows && WeekEnd(t.date) == w;
        var i :| 0 <= i < |rows| && rows[i] == t;
        assert ws[i] == w;
      }
    }
    if rows != [] {
      assert rows[0] in rows;
      assert WeekEnd(rows[0].date) in Buckets(rows);
    }
  }

  /** The curve has one point per week holding rows except the last, in
      ascending week order, each carrying exactly the revenue of its week's rows. */
  lemma WeeklyChartSpec(rows: seq<Transaction>)
    ensures var s, ks := WeeklyChart(rows), Buckets(rows);
      && |s| == (if ks == [] then 0 else |ks| - 1)
      && (forall i :: 0 <= i < |s| ==>
            s[i].weekEnd == ks[i] && s[i].revenue == TotalRevenue(Where(rows, InWeek(ks[i]))))
      && (forall i, j :: 0 <= i < j < |s| ==> s[i].weekEnd < s[j].weekEnd)
      && (forall i :: 0 <= i < |s| ==> exists t :: t in rows && WeekEnd(t.date) == s[i].weekEnd)
  {
    var ks := Buckets(rows);
    PointsSpec(rows, ks);
    BucketsSpec(rows);
    var s := WeeklyChart(rows);
    forall i | 0 <= i < |s| ensures exists t :: t in rows && WeekEnd(t.date) == s[i].weekEnd {
      assert ks[i] in ks;
    }
  }

  /** The dropped week is the latest week of the rows, and no point of the curve has it. */
  lemma LastWeekDropped(rows: seq<Transaction>)
    requires rows != []
    ensures var ks := Buckets(rows);
      && |ks| > 0
      && (exists t :: t in rows && WeekEnd(t.date) == ks[|ks| - 1])
      && (forall t :: t in rows ==> WeekEnd(t.date) <= ks[|ks| - 1])
      && (forall p :: p in WeeklyChart(rows) ==> p.weekEnd < ks[|ks| - 1])
  {
    var ks := Buckets(rows);
    BucketsSpec(rows);
    PointsSpec(rows, ks);
    assert ks[|ks| - 1] in ks;
    forall t | t in rows ensures WeekEnd(t.date) <= ks[|ks| - 1] {
      assert WeekEnd(t.date) in ks;
    }
    var s := WeeklyChart(rows);
    forall p | p in s ensures p.weekEnd < ks[|ks| - 1] {
      var i :| 0 <= i < |s| && s[i] == p;
    }
  }

  // ----- Revenue of the curve -----

  lemma {:induction false} SeriesTotalAppend(a: seq<WeekPoint>, b: seq<WeekPoint>)
    ensures SeriesTotal(a + b) == SeriesTotal(a) + SeriesTotal(b)
  {
    if a == [] {
      assert a + b == b;
    } else {
      SeriesTotalAppend(a[1..], b);
      assert (a + b)[1..] == a[1..] + b;
    }
  }

  lemma {:induction false} PointsOfNothing(ks: seq<int>)
    ensures SeriesTotal(Points([], ks)) == 0.0
  {
    if ks != [] {
      PointsOfNothing(ks[1..]);
    }
  }

  /** Adding one row to the rows adds its price to the week holding it, if that week is listed. */
  lemma {:induction false} PointsCons(t: Transaction, rest: seq<Transaction>, ks: seq<int>)
    requires Increasing(ks)
    ensures SeriesTotal(Points([t] + rest, ks)) ==
      (if WeekEnd(t.date) in ks then TotalPrice(t) else 0.0) + SeriesTotal(Points(rest, ks))
  {
    if ks != [] {
      var rows := [t] + rest;
      assert rows[0] == t && rows[1..] == rest;
      var k := ks[0];
      var w := Where(rest, InWeek(k));
      if WeekEnd(t.date) == k {
        assert Where(rows, InWeek(k)) == [t] + w;
        assert ([t] + w)[0] == t && ([t] + w)[1..] == w;
        assert TotalRevenue(Where(rows, InWeek(k))) == TotalPrice(t) + TotalRevenue(w);
      } else {
        assert Where(rows, InWeek(k)) == w;
      }
      assert Increasing(ks[1..]);
      PointsCons(t, rest, ks[1..]);
      assert WeekEnd(t.date) in ks <==> WeekEnd(t.date) == k || WeekEnd(t.date) in ks[1..];
      assert WeekEnd(t.date) == k ==> WeekEnd(t.date) !in ks[1..];
    }
  }

  /** Summing the revenue of weeks that cover every row gives the revenue of all rows. */
  lemma {:induction false} PointsPartition(rows: seq<Transaction>, ks: seq<int>)
    requires Increasing(ks)
    requires forall t :: t in rows ==> WeekEnd(t.date) in ks
    ensures SeriesTotal(Points(rows, ks)) == TotalRevenue(rows)
  {
    if rows == [] {
      PointsOfNothing(ks);
    } else {
      assert rows == [rows[0]] + rows[1..];
      assert rows[0] in rows;
      PointsCons(rows[0], rows[1..], ks);
      PointsPartition(rows[1..], ks);
    }
  }

  /** The weekly revenue adds up to the revenue of the rows. */
  lemma WeeklyRevenueTotal(rows: seq<Transaction>)
    ensures SeriesTotal(WeeklyRevenue(rows)) == TotalRevenue(rows)
  {
    BucketsSpec(rows);
    PointsPartition(rows, Buckets(rows));
  }

  /** Cutting the last point of a series removes exactly its revenue. */
  lemma SeriesTotalDropLast(ps: seq<WeekPoint>)
    requires ps != []
    ensures SeriesTotal(DropLast(ps)) + ps[|ps| - 1].revenue == SeriesTotal(ps)
  {
    var last := ps[|ps| - 1];
    assert ps == DropLast(ps) + [last];
    SeriesTotalAppend(DropLast(ps), [last]);
    assert SeriesTotal([last]) == last.revenue + SeriesTotal([]);
  }

  lemma PointsLast(rows: seq<Transaction>, ks: seq<int>)
    requires ks != []
    ensures |Points(rows, ks)| == |ks|
    ensures Points(rows, ks)[|ks| - 1].revenue == TotalRevenue(Where(rows, InWeek(ks[|ks| - 1])))
  {
    PointsSpec(rows, ks);
  }

  /** The curve shows all the revenue but that of the last week. */
  lemma WeeklyChartTotal(rows: seq<Transaction>)
    ensures rows == [] ==> WeeklyChart(rows) == []
    ensures rows != [] ==> var ks := Buckets(rows);
      |ks| > 0 &&
      SeriesTotal(WeeklyChart(rows)) + TotalRevenue(Where(rows, InWeek(ks[|ks| - 1]))) == TotalRevenue(rows)
  {
    var ks := Buckets(rows);
    WeeklyRevenueTotal(rows);
    if rows != [] {
      assert WeeksOf(rows)[0] in ks;
      PointsLast(rows, ks);
      SeriesTotalDropLast(WeeklyRevenue(rows));
    }
  }
}
