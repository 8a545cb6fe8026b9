/** The month indicator `indicateur_du_mois`: the rows of the current and
    the previous month, counted (or their revenue summed) per month, keyed
    by ascending month number and then relabelled with month names; and the
    indicator figures that read position 1 as the shown value and position
    0 as the reference. */
module MonthIndicator {
  import opened Dataset
  import opened Order
  import opened Selection
  import opened Revenue

  /** One value of the indicator series, keyed by month number. */
  datatype MonthValue<V> = MonthValue(month: int, value: V)

  /** One value after the index has been relabelled with the month's name. */
  datatype Labelled<V> = Labelled(name: string, value: V)

  /** What a `go.Indicator` shows: the value, the reference of its delta and the title. */
  datatype IndicatorFigure<V> = IndicatorFigure(value: V, reference: V, title: string)

  const DefaultMonth: int := 12

  /** The month before `current`; January wraps to December. */
  function PreviousMonth(current: int): (p: int)
    ensures p != current
    ensures 1 <= current <= 12 ==> 1 <= p <= 12 && p % 12 + 1 == current
  {
    if current > 1 then current - 1 else 12
  }

  function CountMonth(rows: seq<Transaction>, m: int): nat {
    |Where(rows, InMonth(m))|
  }

  function MonthRevenue(rows: seq<Transaction>, m: int): real {
    TotalRevenue(Where(rows, InMonth(m)))
  }

  function MonthsOf(rows: seq<Transaction>): seq<int> {
    seq(|rows|, i requires 0 <= i < |rows| => rows[i].month)
  }

  /** The rows of the current or the previous month. */
  function Window(rows: seq<Transaction>, current: int): seq<Transaction> {
    Where(rows, InEitherMonth(current, PreviousMonth(current)))
  }

  /** The months present in the window, ascending: the index left by
      `value_counts().sort_index()` and by `groupby('Month')`. */
  function WindowMonths(rows: seq<Transaction>, current: int): seq<int> {
    SortedDistinctInts(MonthsOf(Window(rows, current)))
  }

  /** Count mode (`freq=True`), before relabelling. */
  function MonthCounts(rows: seq<Transaction>, current: int): seq<MonthValue<nat>> {
    var sel := Window(rows, current);
    var ms := WindowMonths(rows, current);
    seq(|ms|, i requires 0 <= i < |ms| => MonthValue(ms[i], |Where(sel, InMonth(ms[i]))|))
  }

  /** Revenue mode (`freq=False`), before relabelling. */
  function MonthRevenues(rows: seq<Transaction>, current: int): seq<MonthValue<real>> {
    var sel := Window(rows, current);
    var ms := WindowMonths(rows, current);
    seq(|ms|, i requires 0 <= i < |ms| => MonthValue(ms[i], TotalRevenue(Where(sel, InMonth(ms[i])))))
  }

  const MonthNames: seq<string> := ["", "January", "February", "March", "April", "May", "June",
    "July", "August", "September", "October", "November", "December"]

  const MonthAbbrs: seq<string> := ["", "Jan", "Feb", "Mar", "Apr", "May", "Jun",
    "Jul", "Aug", "Sep", "Oct", "Nov", "Dec"]

  function MonthLabel(m: int, abbr: bool): string
    requires 1 <= m <= 12
  {
    if abbr then MonthAbbrs[m] else MonthNames[m]
  }

  function Relabel<V>(s: seq<MonthValue<V>>, abbr: bool): seq<Labelled<V>>
    requires forall i :: 0 <= i < |s| ==> 1 <= s[i].month <= 12
  {
    seq(|s|, i requires 0 <= i < |s| => Labelled(MonthLabel(s[i].month, abbr), s[i].value))
  }

  /** `indicateur_du_mois(data, current, freq=True, abbr)`. */
  function CountIndicator(rows: seq<Transaction>, current: int, abbr: bool): seq<Labelled<nat>>
    requires 1 <= current <= 12
  {
    MonthCountsSpec(rows, current);
    Relabel(MonthCounts(rows, current), abbr)
  }

  /** `indicateur_du_mois(data, current, freq=False, abbr)`. */
  function RevenueIndicator(rows: seq<Transaction>, current: int, abbr: bool): seq<Labelled<real>>
    requires 1 <= current <= 12
  {
    MonthRevenuesSpec(rows, current);
    Relabel(MonthRevenues(rows, current), abbr)
  }

  /** The figure of `plot_vente_mois` / `plot_chiffre_affaire_mois`: it
      reads positions 1 and 0, so it needs two months in the series. */
  function IndicatorOf<V>(s: seq<Labelled<V>>): IndicatorFigure<V>
    requires |s| >= 2
  {
    IndicatorFigure(s[1].value, s[0].value, s[1].name)
  }

  // ----- Properties -----

  /** The window's months are, in ascending order, exactly those of the
      current and previous month that have rows: at most two. */
  lemma WindowMonthsSpec(rows: seq<Transaction>, current: int)
    ensures var ms := WindowMonths(rows, current);
      && Increasing(ms)
      && |ms| <= 2
      && (forall m :: m in ms <==> (m == current || m == PreviousMonth(current)) && CountMonth(rows, m) > 0)
  {
    var p := PreviousMonth(current);

    var sel := Window(rows, current);
    var ms := WindowMonths(rows, current);
    WhereCount(rows, InEitherMonth(current, p));
    forall m ensures m in ms <==> (m == current || m == p) && CountMonth(rows, m) > 0 {
      WhereEmpty(rows, InMonth(m));
      if m in ms {
        var i :| 0 <= i < |sel| && MonthsOf(sel)[i] == m;
        assert sel[i] in rows;
      }
      if (m == current || m == p) && CountMonth(rows, m) > 0 {
        var t := Where(rows, InMonth(m))[0];
        assert t in rows && t.month == m;
        assert multiset(sel)[t] > 0;
        var i :| 0 <= i < |sel| && sel[i] == t;
        assert MonthsOf(sel)[i] == m;
      }
    }
    IncreasingWithinTwo(ms, current, p);
  }

  /** Count mode: ascending months of the window that have rows, each with
      the number of rows of that month. */
  lemma MonthCountsSpec(rows: seq<Transaction>, current: int)
    ensures var r := MonthCounts(rows, current);
      && |r| <= 2
      && (forall i, j :: 0 <= i < j < |r| ==> r[i].month < r[j].month)
      && (forall i :: 0 <= i < |r| ==> r[i].month == current || r[i].month == PreviousMonth(current))
      && (forall i :: 0 <= i < |r| ==> r[i].value == CountMonth(rows, r[i].month) && r[i].value > 0)
      && (forall m :: (exists i :: 0 <= i < |r| && r[i].month == m) <==>
            (m == current || m == PreviousMonth(current)) && CountMonth(rows, m) > 0)
  {
    var r := MonthCounts(rows, current);
    var ms := WindowMonths(rows, current);
    WindowMonthsSpec(rows, current);
    forall i | 0 <= i < |r|
      ensures r[i].month == current || r[i].month == PreviousMonth(current)
      ensures r[i].value == CountMonth(rows, r[i].month)
    {
      assert ms[i] in ms;
      WhereMonthOfWindow(rows, current, PreviousMonth(current), ms[i]);
    }
    forall m | m in ms ensures exists i :: 0 <= i < |r| && r[i].month == m {
      var i :| 0 <= i < |ms| && ms[i] == m;
      assert r[i].month == m;
    }
  }

  /** Revenue mode: the same months, each with the revenue of that month's rows. */
  lemma MonthRevenuesSpec(rows: seq<Transaction>, current: int)
    ensures var r := MonthRevenues(rows, current);
      && |r| <= 2
      && (forall i, j :: 0 <= i < j < |r| ==> r[i].month < r[j].month)
      && (forall i :: 0 <= i < |r| ==> r[i].month == current || r[i].month == PreviousMonth(current))
      && (forall i :: 0 <= i < |r| ==> r[i].value == MonthRevenue(rows, r[i].month))
      && (forall m :: (exists i :: 0 <= i < |r| && r[i].month == m) <==>
            (m == current || m == PreviousMonth(current)) && CountMonth(rows, m) > 0)
  {
    var r := MonthRevenues(rows, current);
    var ms := WindowMonths(rows, current);
    WindowMonthsSpec(rows, current);
    forall i | 0 <= i < |r|
      ensures r[i].month == current || r[i].month == PreviousMonth(current)
      ensures r[i].value == MonthRevenue(rows, r[i].month)
    {
      assert ms[i] in ms;
      WhereMonthOfWindow(rows, current, PreviousMonth(current), ms[i]);
    }
    forall m | m in ms ensures exists i :: 0 <= i < |r| && r[i].month == m {
      var i :| 0 <= i < |ms| && ms[i] == m;
      assert r[i].month == m;
    }
  }

  /** The series has one entry per month of the window that has rows. */
  lemma MonthCountsSize(rows: seq<Transaction>, current: int)
    ensures |MonthCounts(rows, current)| == |MonthRevenues(rows, current)| ==
      (if CountMonth(rows, PreviousMonth(current)) > 0 then 1 else 0) + (if CountMonth(rows, current) > 0 then 1 else 0)
  {
    var p := PreviousMonth(current);
    var ms := WindowMonths(rows, current);
    WindowMonthsSpec(rows, current);
    IncreasingSetSize(ms);
    var present := (if CountMonth(rows, p) > 0 then {p} else {}) + (if CountMonth(rows, current) > 0 then {current} else {});
    assert (set m | m in ms) == present;
  }

  /** A figure can be drawn exactly when both months have rows. */
  lemma IndicatorNeedsBothMonths(rows: seq<Transaction>, current: int)
    ensures |MonthCounts(rows, current)| >= 2 <==>
      CountMonth(rows, current) > 0 && CountMonth(rows, PreviousMonth(current)) > 0
    ensures |MonthRevenues(rows, current)| >= 2 <==>
      CountMonth(rows, current) > 0 && CountMonth(rows, PreviousMonth(current)) > 0
  {
    MonthCountsSize(rows, current);
  }

  /** For February to December, with rows in both months, the figure shows
      the current month against the previous one. */
  lemma IndicatorShowsCurrentMonth(rows: seq<Transaction>, current: int, abbr: bool)
    requires 2 <= current <= 12
    requires CountMonth(rows, current) > 0 && CountMonth(rows, current - 1) > 0
    ensures |CountIndicator(rows, current, abbr)| == 2 &&
      IndicatorOf(CountIndicator(rows, current, abbr)) ==
        IndicatorFigure(CountMonth(rows, current), CountMonth(rows, current - 1), MonthLabel(current, abbr))
    ensures |RevenueIndicator(rows, current, abbr)| == 2 &&
      IndicatorOf(RevenueIndicator(rows, current, abbr)) ==
        IndicatorFigure(MonthRevenue(rows, current), MonthRevenue(rows, current - 1), MonthLabel(current, abbr))
  {
    IndicatorNeedsBothMonths(rows, current);
    MonthCountsSpec(rows, current);
    MonthRevenuesSpec(rows, current);
  }

  /** For January the ascending order puts January first, so the figure
      shows December as the current value with January as its reference. */
  lemma JanuaryShowsDecember(rows: seq<Transaction>, abbr: bool)
    requires CountMonth(rows, 1) > 0 && CountMonth(rows, 12) > 0
    ensures var r := MonthCounts(rows, 1); |r| == 2 && r[0].month == 1 && r[1].month == 12
    ensures |CountIndicator(rows, 1, abbr)| == 2 &&
      IndicatorOf(CountIndicator(rows, 1, abbr)) ==
        IndicatorFigure(CountMonth(rows, 12), CountMonth(rows, 1), MonthLabel(12, abbr))
    ensures |RevenueIndicator(rows, 1, abbr)| == 2 &&
      IndicatorOf(RevenueIndicator(rows, 1, abbr)) ==
        IndicatorFigure(MonthRevenue(rows, 12), MonthRevenue(rows, 1), MonthLabel(12, abbr))
  {
    IndicatorNeedsBothMonths(rows, 1);
    MonthCountsSpec(rows, 1);
    MonthRevenuesSpec(rows, 1);
  }

  // ----- The indicator in calendar order -----

  /** The window in calendar order: the previous month, then the current one. */
  function CalendarMonths(rows: seq<Transaction>, current: int): seq<int> {
    var p := PreviousMonth(current);
    (if CountMonth(rows, p) > 0 then [p] else []) + (if CountMonth(rows, current) > 0 then [current] else [])
  }

  /** Count mode with the previous month always first. */
  function MonthCountsInCalendarOrder(rows: seq<Transaction>, current: int): seq<MonthValue<nat>> {
    var ms := CalendarMonths(rows, current);
    seq(|ms|, i requires 0 <= i < |ms| => MonthValue(ms[i], CountMonth(rows, ms[i])))
  }

  /** In calendar order, the figure shows the current month against the
      previous one for every month, January included. */
  lemma CalendarOrderShowsCurrentMonth(rows: seq<Transaction>, current: int, abbr: bool)
    requires 1 <= current <= 12
    requires CountMonth(rows, current) > 0 && CountMonth(rows, PreviousMonth(current)) > 0
    ensures var s := Relabel(MonthCountsInCalendarOrder(rows, current), abbr);
      |s| == 2 &&
      IndicatorOf(s) == IndicatorFigure(CountMonth(rows, current),
                                        CountMonth(rows, PreviousMonth(current)), MonthLabel(current, abbr))
  {
  }

  /** Calendar order and ascending order agree from February to December. */
  lemma CalendarOrderAgreesAfterJanuary(rows: seq<Transaction>, current: int)
    requires 2 <= current <= 12
    ensures MonthCountsInCalendarOrder(rows, current) == MonthCounts(rows, current)
  {
    var p := current - 1;
    MonthCountsSpec(rows, current);
    MonthCountsSize(rows, current);
    var r := MonthCounts(rows, current);
    if CountMonth(rows, p) > 0 && CountMonth(rows, current) > 0 {
      assert r[0].month == p && r[1].month == current;
    } else if CountMonth(rows, p) > 0 {
      assert r[0].month == p;
    } else if CountMonth(rows, current) > 0 {
      assert CalendarMonths(rows, current) == [current];
      assert r[0] == MonthValue(current, CountMonth(rows, current));
      assert MonthCountsInCalendarOrder(rows, current)[0] == r[0];
    }
  }
}
