/** The dashboard callback `update_charts`: the figures and the table drawn
    from the rows at the selected locations, and the location dropdown. */
module Dashboard {
  import opened Dataset
  import opened Order
  import opened Selection
  import opened Revenue
  import opened Ranking
  import opened MonthIndicator
  import opened WeeklySeries
  import opened RecentSales

  /** What the callback returns: the revenue and sales figures of the month,
      the weekly revenue curve, the top-sales chart and the recent-sales table. */
  datatype View = View(
    revenueFigure: IndicatorFigure<real>,
    salesFigure: IndicatorFigure<nat>,
    weekly: seq<WeekPoint>,
    topSales: seq<Entry>,
    table: seq<TableRow>)

  /** Every chart of a row set, or None when the month figures cannot be
      drawn: they read positions 1 and 0 of a series that may be shorter.
      The same figures are computed from the whole dataset at start-up. */
  function Render(rows: seq<Transaction>): Option<View> {
    var revenue := RevenueIndicator(rows, DefaultMonth, false);
    var sales := CountIndicator(rows, DefaultMonth, false);
    if |revenue| < 2 || |sales| < 2 then None
    else Some(View(IndicatorOf(revenue), IndicatorOf(sales), WeeklyChart(rows),
                   TopTenChartAsWritten(rows), RecentTable(rows)))
  }

  /** `update_charts(selected_locations)`; without a selection it gives the
      charts of the whole dataset. */
  function UpdateCharts(rows: seq<Transaction>, selection: Option<seq<string>>): (v: Option<View>)
    ensures NoSelection(selection) ==> v == Render(rows)
  {
    Render(FilterByLocation(rows, selection))
  }

  /** The charts exist exactly when the selected rows hold both December and
      November; the figures then show December against November. */
  lemma UpdateChartsSpec(rows: seq<Transaction>, selection: Option<seq<string>>)
    ensures var f := FilterByLocation(rows, selection); var v := UpdateCharts(rows, selection);
      && (v.Some? <==> CountMonth(f, 12) > 0 && CountMonth(f, 11) > 0)
      && (v.Some? ==>
            && v.value.revenueFigure == IndicatorFigure(MonthRevenue(f, 12), MonthRevenue(f, 11), "December")
            && v.value.salesFigure == IndicatorFigure(CountMonth(f, 12), CountMonth(f, 11), "December")
            && v.value.weekly == WeeklyChart(f)
            && v.value.topSales == TopTenChartAsWritten(f)
            && v.value.table == RecentTable(f))
  {
    var f := FilterByLocation(rows, selection);
    IndicatorNeedsBothMonths(f, 12);
    MonthCountsSize(f, 12);
    if CountMonth(f, 12) > 0 && CountMonth(f, 11) > 0 {
      IndicatorShowsCurrentMonth(f, 12, false);
    }
  }

  /** A selection matching no row makes the callback fail. */
  lemma EmptySelectionFails(rows: seq<Transaction>, selection: Option<seq<string>>)
    requires forall t :: t in rows ==> !Selected(t, selection)
    ensures UpdateCharts(rows, selection) == None
  {
    var f := FilterByLocation(rows, selection);
    FilterByLocationSpec(rows, selection);
    forall t ensures multiset(f)[t] == 0 {
      if t !in rows {
        assert multiset(rows)[t] == 0;
      }
    }
    assert multiset(f) == multiset{};
    assert |f| == |multiset(f)| == 0;
    UpdateChartsSpec(rows, selection);
  }

  /** Every line of the table comes from a row at a selected location. */
  lemma TableFromSelection(rows: seq<Transaction>, selection: Option<seq<string>>, x: TableRow)
    ensures x in RecentTable(FilterByLocation(rows, selection)) ==>
      exists t :: t in rows && Selected(t, selection) && Project(t) == x
  {
    var f := FilterByLocation(rows, selection);
    if x in RecentTable(f) {
      MostRecentFrom(f, RecentLimit, x);
      var t :| t in f && Project(t) == x;
      FilterByLocationSpec(rows, selection);
      assert multiset(f)[t] > 0;
    }
  }

  // ----- The location dropdown -----

  /** The known locations of the rows, in row order (`dropna()`). */
  function PresentLocations(rows: seq<Transaction>): (r: seq<string>)
    ensures forall l :: l in r <==> exists t :: t in rows && t.location == Some(l)
  {
    if rows == [] then []
    else
      var rest := PresentLocations(rows[1..]);
      assert forall t :: t in rows <==> t == rows[0] || t in rows[1..];
      if rows[0].location.Some? then [rows[0].location.value] + rest else rest
  }

  lemma {:induction false} PresentLocationsAppend(a: seq<Transaction>, b: seq<Transaction>)
    ensures PresentLocations(a + b) == PresentLocations(a) + PresentLocations(b)
  {
    if a == [] {
      assert a + b == b;
    } else {
      var ab := a + b;
      assert ab[0] == a[0];
      assert ab[1..] == a[1..] + b;
      PresentLocationsAppend(a[1..], b);
    }
  }

  /** `dropna()` keeps row order: a row's known location comes after those of
      the rows before it and before those of the rows after it. */
  lemma PresentLocationsOrder(before: seq<Transaction>, t: Transaction, after: seq<Transaction>)
    ensures PresentLocations(before + [t] + after) ==
      PresentLocations(before) + (if t.location.Some? then [t.location.value] else []) + PresentLocations(after)
  {
    PresentLocationsAppend(before + [t], after);
    PresentLocationsAppend(before, [t]);
    assert [t][1..] == [];
  }

  /** The dropdown's options: each known location once, in order of first appearance. */
  function LocationOptions(rows: seq<Transaction>): seq<string> {
    Unique(PresentLocations(rows))
  }

  lemma LocationOptionsSpec(rows: seq<Transaction>)
    ensures var o := LocationOptions(rows);
      && (forall l :: l in o <==> exists t :: t in rows && t.location == Some(l))
      && (forall i, j :: 0 <= i < j < |o| ==> o[i] != o[j])
      && (forall i, j :: 0 <= i < j < |o| ==> SeenBefore(PresentLocations(rows), o[i], o[j]))
  {
    UniqueOrder(PresentLocations(rows));
  }
}
