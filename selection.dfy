/** Selecting rows of the dataset: the boolean masks the aggregations apply,
    and the location filter of the dashboard callback. */
module Selection {
  import opened Dataset
  import opened Order

  /** The row masks used by the aggregations. */
  datatype Criterion =
    | AtLocations(locations: set<string>)      // df["Location"].isin(...)
    | InMonth(month: int)                      // one group of groupby('Month')
    | InEitherMonth(first: int, second: int)   // (Month == a) | (Month == b)
    | InWeek(weekEnd: int)                     // one bucket of the weekly grouper
    | OfGender(gender: string)                 // one group of groupby('Sexe')
    | OfPair(gender: string, category: string) // one cell of the crosstab

  predicate Matches(t: Transaction, c: Criterion) {
    match c
    case AtLocations(locs) => t.location.Some? && t.location.value in locs
    case InMonth(m) => t.month == m
    case InEitherMonth(a, b) => t.month == a || t.month == b
    case InWeek(w) => WeekEnd(t.date) == w
    case OfGender(g) => t.gender == g
    case OfPair(g, cat) => t.gender == g && t.category == cat
  }

  /** The rows satisfying the mask, in their original order (`df[mask]`). */
  function Where(rows: seq<Transaction>, c: Criterion): (r: seq<Transaction>)
    ensures |r| <= |rows|
    ensures forall t :: t in r ==> t in rows && Matches(t, c)
  {
    if rows == [] then []
    else if Matches(rows[0], c) then [rows[0]] + Where(rows[1..], c)
    else Where(rows[1..], c)
  }

  /** The mask keeps every copy of a matching row and no other row. */
  lemma {:induction false} WhereCount(rows: seq<Transaction>, c: Criterion)
    ensures forall t :: multiset(Where(rows, c))[t] == if Matches(t, c) then multiset(rows)[t] else 0
  {
    if rows != [] {
      WhereCount(rows[1..], c);
      assert rows == [rows[0]] + rows[1..];
    }
  }

  /** The mask keeps the order of the rows it keeps. */
  lemma {:induction false} WhereIsSubsequence(rows: seq<Transaction>, c: Criterion)
    ensures IsSubsequence(Where(rows, c), rows)
  {
    if rows != [] {
      WhereIsSubsequence(rows[1..], c);
    }
  }

  /** The mask selects nothing exactly when no row matches it. */
  lemma WhereEmpty(rows: seq<Transaction>, c: Criterion)
    ensures Where(rows, c) == [] <==> forall t :: t in rows ==> !Matches(t, c)
  {
    WhereCount(rows, c);
    if Where(rows, c) == [] {
      forall t | t in rows ensures !Matches(t, c) {
        assert multiset(rows)[t] > 0;
      }
    } else {
      var t := Where(rows, c)[0];
      assert t in rows && Matches(t, c);
    }
  }

  /** Masking the rows of one of two months by that month alone loses nothing. */
  lemma {:induction false} WhereMonthOfWindow(rows: seq<Transaction>, a: int, b: int, m: int)
    requires m == a || m == b
    ensures Where(Where(rows, InEitherMonth(a, b)), InMonth(m)) == Where(rows, InMonth(m))
  {
    if rows != [] {
      WhereMonthOfWindow(rows[1..], a, b, m);
    }
  }

  // ----- The location filter of the dashboard callback -----

  /** `not selected_locations`: no selection, or an empty one. */
  predicate NoSelection(selection: Option<seq<string>>) {
    selection.None? || selection.value == []
  }

  /** The row set every chart of the callback is computed from. A row with
      no Location never matches a non-empty selection. */
  function FilterByLocation(rows: seq<Transaction>, selection: Option<seq<string>>): (r: seq<Transaction>)
    ensures NoSelection(selection) ==> r == rows
    ensures !NoSelection(selection) ==>
      forall t :: t in r ==> t in rows && t.location.Some? && t.location.value in selection.value
  {
    if NoSelection(selection) then rows
    else Where(rows, AtLocations(set l | l in selection.value))
  }

  predicate Selected(t: Transaction, selection: Option<seq<string>>) {
    NoSelection(selection) || (t.location.Some? && t.location.value in selection.value)
  }

  /** The filter keeps, in order, every copy of each selected row and nothing else. */
  lemma FilterByLocationSpec(rows: seq<Transaction>, selection: Option<seq<string>>)
    ensures IsSubsequence(FilterByLocation(rows, selection), rows)
    ensures forall t ::
      multiset(FilterByLocation(rows, selection))[t] == if Selected(t, selection) then multiset(rows)[t] else 0
  {
    if NoSelection(selection) {
      SubsequenceRefl(rows);
    } else {
      var c := AtLocations(set l | l in selection.value);
      WhereIsSubsequence(rows, c);
      WhereCount(rows, c);
    }
  }

  lemma {:induction false} SubsequenceRefl(s: seq<Transaction>)
    ensures IsSubsequence(s, s)
  {
    if s != [] {
      SubsequenceRefl(s[1..]);
    }
  }
}
