/** The frequency ranker `frequence_meilleure_vente`: a crosstab counting the
    rows of each (Gender, Product_Category) pair, then, gender by gender in
    ascending order, the pairs sorted by count and cut to the first `top`. */
module Ranking {
  import opened Dataset
  import opened Order
  import opened Selection

  /** One row of the result: (Sexe, Categorie du produit) -> Total vente. */
  datatype Entry = Entry(gender: string, category: string, count: nat)

  /** The number of rows of a pair: the crosstab cell, `len` of its group. */
  function CountPair(rows: seq<Transaction>, g: string, c: string): nat {
    |Where(rows, OfPair(g, c))|
  }

  function GendersOf(rows: seq<Transaction>): seq<string> {
    seq(|rows|, i requires 0 <= i < |rows| => rows[i].gender)
  }

  function CategoriesOf(rows: seq<Transaction>): seq<string> {
    seq(|rows|, i requires 0 <= i < |rows| => rows[i].category)
  }

  /** The distinct genders in ascending order (the groups of groupby('Sexe')). */
  function Genders(rows: seq<Transaction>): seq<string> {
    SortedDistinctStrs(GendersOf(rows))
  }

  /** The distinct categories bought by gender g, ascending (the crosstab index). */
  function Categories(rows: seq<Transaction>, g: string): seq<string> {
    SortedDistinctStrs(CategoriesOf(Where(rows, OfGender(g))))
  }

  /** The crosstab rows of gender g, one per category of cats. */
  function Tally(rows: seq<Transaction>, g: string, cats: seq<string>): seq<Entry> {
    seq(|cats|, i requires 0 <= i < |cats| => Entry(g, cats[i], CountPair(rows, g, cats[i])))
  }

  function CountOf(e: Entry): int {
    e.count
  }

  /** a may come before b in `sort_values('Total vente', ascending=...)`. */
  predicate Ranked(a: Entry, b: Entry, ascending: bool) {
    InOrder(a.count, b.count, ascending)
  }

  /** Ordered by count: non-increasing by default, non-decreasing with `ascending`. */
  predicate SortedByCount(s: seq<Entry>, ascending: bool) {
    forall i, j :: 0 <= i < j < |s| ==> Ranked(s[i], s[j], ascending)
  }

  /** What the `apply` keeps of gender g: its pairs sorted, cut to `top`. */
  function Block(rows: seq<Transaction>, g: string, top: nat, ascending: bool): seq<Entry> {
    Take(SortByKey(Tally(rows, g, Categories(rows, g)), CountOf, ascending), top)
  }

  function RankGenders(rows: seq<Transaction>, gs: seq<string>, top: nat, ascending: bool): seq<Entry> {
    if gs == [] then []
    else Block(rows, gs[0], top, ascending) + RankGenders(rows, gs[1..], top, ascending)
  }

  const DefaultTop: nat := 10

  /** `frequence_meilleure_vente(data, top, ascending)`. */
  function FrequencyRanking(rows: seq<Transaction>, top: nat, ascending: bool): seq<Entry> {
    RankGenders(rows, Genders(rows), top, ascending)
  }

  /** The entries of gender g, in their order. */
  function EntriesOf(s: seq<Entry>, g: string): seq<Entry> {
    if s == [] then []
    else (if s[0].gender == g then [s[0]] else []) + EntriesOf(s[1..], g)
  }

  // ----- Facts about the crosstab -----

  /** A category is listed for a gender exactly when some row has that pair. */
  lemma CategoriesSpec(rows: seq<Transaction>, g: string, c: string)
    ensures c in Categories(rows, g) <==> CountPair(rows, g, c) > 0
  {
    var sub := Where(rows, OfGender(g));
    WhereCount(rows, OfGender(g));
    WhereEmpty(rows, OfPair(g, c));
    if c in Categories(rows, g) {
      var i :| 0 <= i < |sub| && CategoriesOf(sub)[i] == c;
      assert sub[i] in rows && Matches(sub[i], OfPair(g, c));
    }
    if CountPair(rows, g, c) > 0 {
      var t := Where(rows, OfPair(g, c))[0];
      assert t in rows && t.gender == g && t.category == c;
      assert multiset(sub)[t] > 0;
      var i :| 0 <= i < |sub| && sub[i] == t;
      assert CategoriesOf(sub)[i] == c;
    }
  }

  /** A gender is ranked exactly when it has rows; without rows it has no categories. */
  lemma GendersSpec(rows: seq<Transaction>, g: string)
    ensures g in Genders(rows) <==> exists t :: t in rows && t.gender == g
    ensures g !in Genders(rows) ==> Categories(rows, g) == []
  {
    if g in Genders(rows) {
      var i :| 0 <= i < |rows| && GendersOf(rows)[i] == g;
      assert rows[i] in rows;
    } else {
      forall t | t in rows ensures t.gender != g {
        var i :| 0 <= i < |rows| && rows[i] == t;
        assert GendersOf(rows)[i] == t.gender;
      }
      WhereEmpty(rows, OfGender(g));
    }
  }

  // ----- One gender's block -----

  /** The block of a gender: at most `top` pairs of that gender, each with
      its row count, ordered by count. */
  lemma BlockShape(rows: seq<Transaction>, g: string, top: nat, ascending: bool)
    ensures var b := Block(rows, g, top, ascending);
      && |b| == (if top <= |Categories(rows, g)| then top else |Categories(rows, g)|)
      && SortedByCount(b, ascending)
      && (forall e :: e in b ==>
            e.gender == g && e.category in Categories(rows, g) && e.count == CountPair(rows, g, e.category))
      && (forall i, j :: 0 <= i < j < |b| ==> b[i].category != b[j].category)
  {
    var cats := Categories(rows, g);
    var tally := Tally(rows, g, cats);
    var sorted := SortByKey(tally, CountOf, ascending);
    var b := Take(sorted, top);
    assert |sorted| == |multiset(sorted)| == |multiset(tally)| == |cats|;
    forall e | e in b
      ensures e.gender == g && e.category in cats && e.count == CountPair(rows, g, e.category)
    {
      assert e in multiset(tally);
    }
    TallyDistinct(rows, g);
    TakeSorted(sorted, CountOf, ascending, top);
    SubMultisetDistinct(b, tally);
    forall i, j | 0 <= i < j < |b| ensures b[i].category != b[j].category {
      assert b[i] in b && b[j] in b;
    }
  }

  /** The crosstab holds one row per category of a gender. */
  lemma TallyDistinct(rows: seq<Transaction>, g: string)
    ensures Distinct(Tally(rows, g, Categories(rows, g)))
  {
    var cats := Categories(rows, g);
    var tally := Tally(rows, g, cats);
    forall i, j | 0 <= i < j < |tally| ensures tally[i] != tally[j] {
      StrIncreasingDistinct(cats, i, j);
    }
  }

  /** A gender with no more categories than `top` keeps every one of them. */
  lemma BlockKeepsAllWhenFew(rows: seq<Transaction>, g: string, top: nat, ascending: bool, c: string)
    requires |Categories(rows, g)| <= top
    requires c in Categories(rows, g)
    ensures Entry(g, c, CountPair(rows, g, c)) in Block(rows, g, top, ascending)
  {
    var cats := Categories(rows, g);
    var tally := Tally(rows, g, cats);
    var sorted := SortByKey(tally, CountOf, ascending);
    assert |sorted| == |multiset(sorted)| == |multiset(tally)| == |cats|;
    var i :| 0 <= i < |cats| && cats[i] == c;
    assert tally[i] == Entry(g, c, CountPair(rows, g, c));
    assert tally[i] in multiset(sorted);
  }

  /** Every dropped pair of a gender ranks after every kept pair of it:
      its count is at most (with `ascending`, at least) each kept count. */
  lemma BlockDropped(rows: seq<Transaction>, g: string, top: nat, ascending: bool, c: string)
    requires c in Categories(rows, g)
    requires Entry(g, c, CountPair(rows, g, c)) !in Block(rows, g, top, ascending)
    ensures forall e :: e in Block(rows, g, top, ascending) ==>
      Ranked(e, Entry(g, c, CountPair(rows, g, c)), ascending)
  {
    var cats := Categories(rows, g);
    var tally := Tally(rows, g, cats);
    var sorted := SortByKey(tally, CountOf, ascending);
    var b := Take(sorted, top);
    var d := Entry(g, c, CountPair(rows, g, c));
    var i :| 0 <= i < |cats| && cats[i] == c;
    assert tally[i] == d;
    assert multiset(b)[d] == 0 < multiset(sorted)[d];
    TakeSortedSplit(sorted, CountOf, ascending, top, d);
  }

  // ----- The whole ranking -----

  lemma {:induction false} EntriesOfAppend(a: seq<Entry>, b: seq<Entry>, g: string)
    ensures EntriesOf(a + b, g) == EntriesOf(a, g) + EntriesOf(b, g)
  {
    if a == [] {
      assert a + b == b;
    } else {
      var head := if a[0].gender == g then [a[0]] else [];
      calc {
        EntriesOf(a + b, g);
        { assert (a + b)[0] == a[0] && (a + b)[1..] == a[1..] + b; }
        head + EntriesOf(a[1..] + b, g);
        { EntriesOfAppend(a[1..], b, g); }
        head + (EntriesOf(a[1..], g) + EntriesOf(b, g));
        (head + EntriesOf(a[1..], g)) + EntriesOf(b, g);
      }
    }
  }

  lemma {:induction false} EntriesOfUniform(s: seq<Entry>, h: string, g: string)
    requires forall e :: e in s ==> e.gender == h
    ensures EntriesOf(s, g) == if g == h then s else []
  {
    if s != [] {
      EntriesOfUniform(s[1..], h, g);
      assert s == [s[0]] + s[1..];
    }
  }

  lemma {:induction false} RankGendersGroups(rows: seq<Transaction>, gs: seq<string>, top: nat, ascending: bool, g: string)
    requires StrIncreasing(gs)
    ensures EntriesOf(RankGenders(rows, gs, top, ascending), g) ==
      if g in gs then Block(rows, g, top, ascending) else []
  {
    if gs != [] {
      var b := Block(rows, gs[0], top, ascending);
      var rest := RankGenders(rows, gs[1..], top, ascending);
      assert StrIncreasing(gs[1..]);
      RankGendersGroups(rows, gs[1..], top, ascending, g);
      EntriesOfAppend(b, rest, g);
      BlockShape(rows, gs[0], top, ascending);
      EntriesOfUniform(b, gs[0], g);
      if g == gs[0] {
        assert g !in gs[1..] by {
          if g in gs[1..] {
            var j :| 0 <= j < |gs[1..]| && gs[1..][j] == g;
            StrIncreasingDistinct(gs, 0, j + 1);
          }
        }
      }
    }
  }

  /** The ranking, read gender by gender: a gender's entries are exactly
      its block, and a gender without rows has no entry. */
  lemma RankingGroups(rows: seq<Transaction>, top: nat, ascending: bool, g: string)
    ensures EntriesOf(FrequencyRanking(rows, top, ascending), g) ==
      if exists t :: t in rows && t.gender == g then Block(rows, g, top, ascending) else []
  {
    GendersSpec(rows, g);
    RankGendersGroups(rows, Genders(rows), top, ascending, g);
  }

  /** Per gender: at most `top` entries and exactly min(top, number of
      categories); each is an observed pair with its exact row count;
      ordered by count; all pairs kept when there are at most `top`; and
      every dropped pair ranks after every kept one. */
  lemma RankingPerGender(rows: seq<Transaction>, top: nat, ascending: bool, g: string)
    ensures var b := EntriesOf(FrequencyRanking(rows, top, ascending), g);
      var n := |Categories(rows, g)|;
      && |b| == (if top <= n then top else n)
      && SortedByCount(b, ascending)
      && (forall e :: e in b ==> e.gender == g && e.count == CountPair(rows, g, e.category) && e.count > 0)
      && (forall i, j :: 0 <= i < j < |b| ==> b[i].category != b[j].category)
      && (n <= top ==> forall c :: CountPair(rows, g, c) > 0 ==> Entry(g, c, CountPair(rows, g, c)) in b)
      && (forall c :: CountPair(rows, g, c) > 0 && Entry(g, c, CountPair(rows, g, c)) !in b ==>
            forall e :: e in b ==> Ranked(e, Entry(g, c, CountPair(rows, g, c)), ascending))
  {
    var b := EntriesOf(FrequencyRanking(rows, top, ascending), g);
    RankingGroups(rows, top, ascending, g);
    GendersSpec(rows, g);
    if exists t :: t in rows && t.gender == g {
      assert b == Block(rows, g, top, ascending);
      BlockShape(rows, g, top, ascending);
      forall e | e in b ensures e.count > 0 {
        CategoriesSpec(rows, g, e.category);
      }
      forall c | CountPair(rows, g, c) > 0
        ensures |Categories(rows, g)| <= top ==> Entry(g, c, CountPair(rows, g, c)) in b
        ensures Entry(g, c, CountPair(rows, g, c)) !in b ==>
          forall e :: e in b ==> Ranked(e, Entry(g, c, CountPair(rows, g, c)), ascending)
      {
        CategoriesSpec(rows, g, c);
        if |Categories(rows, g)| <= top {
          BlockKeepsAllWhenFew(rows, g, top, ascending, c);
        }
        if Entry(g, c, CountPair(rows, g, c)) !in b {
          BlockDropped(rows, g, top, ascending, c);
        }
      }
    } else {
      forall c ensures CountPair(rows, g, c) == 0 {
        CategoriesSpec(rows, g, c);
      }
    }
  }

  lemma GenderOrderedAppend(b: seq<Entry>, rest: seq<Entry>, h: string)
    requires forall e :: e in b ==> e.gender == h
    requires forall e :: e in rest ==> StrLt(h, e.gender)
    requires GenderOrdered(rest)
    ensures GenderOrdered(b + rest)
  {
    var r := b + rest;
    forall i, j | 0 <= i < j < |r|
      ensures r[i].gender == r[j].gender || StrLt(r[i].gender, r[j].gender)
    {
      if j < |b| {
        assert r[i] == b[i] && r[j] == b[j];
      } else if i < |b| {
        assert r[i] == b[i] && r[j] == rest[j - |b|];
      } else {
        assert r[i] == rest[i - |b|] && r[j] == rest[j - |b|];
      }
    }
  }

  predicate GenderOrdered(r: seq<Entry>) {
    forall i, j :: 0 <= i < j < |r| ==> r[i].gender == r[j].gender || StrLt(r[i].gender, r[j].gender)
  }

  lemma {:induction false} RankGendersOrder(rows: seq<Transaction>, gs: seq<string>, top: nat, ascending: bool)
    requires StrIncreasing(gs)
    ensures forall e :: e in RankGenders(rows, gs, top, ascending) ==> e.gender in gs
    ensures GenderOrdered(RankGenders(rows, gs, top, ascending))
  {
    if gs != [] {
      var b := Block(rows, gs[0], top, ascending);
      var rest := RankGenders(rows, gs[1..], top, ascending);
      assert StrIncreasing(gs[1..]);
      RankGendersOrder(rows, gs[1..], top, ascending);
      BlockShape(rows, gs[0], top, ascending);
      forall e | e in rest ensures StrLt(gs[0], e.gender) {
        var k :| 0 <= k < |gs[1..]| && gs[1..][k] == e.gender;
        assert gs[k + 1] == e.gender;
      }
      GenderOrderedAppend(b, rest, gs[0]);
    }
  }

  lemma {:induction false} RankGendersCounts(rows: seq<Transaction>, gs: seq<string>, top: nat, ascending: bool)
    ensures forall e :: e in RankGenders(rows, gs, top, ascending) ==>
      e.count == CountPair(rows, e.gender, e.category) && e.count > 0
  {
    if gs != [] {
      RankGendersCounts(rows, gs[1..], top, ascending);
      BlockShape(rows, gs[0], top, ascending);
      forall e | e in Block(rows, gs[0], top, ascending) ensures e.count > 0 {
        CategoriesSpec(rows, gs[0], e.category);
      }
    }
  }

  /** Genders come in ascending order, each entry carrying the row count of its pair. */
  lemma RankingOrder(rows: seq<Transaction>, top: nat, ascending: bool)
    ensures var r := FrequencyRanking(rows, top, ascending);
      && (forall e :: e in r ==> e.count == CountPair(rows, e.gender, e.category) && e.count > 0)
      && (forall i, j :: 0 <= i < j < |r| ==> r[i].gender == r[j].gender || StrLt(r[i].gender, r[j].gender))
  {
    RankGendersOrder(rows, Genders(rows), top, ascending);
    RankGendersCounts(rows, Genders(rows), top, ascending);
  }

  lemma {:induction false} EntriesOfMember(s: seq<Entry>, g: string, e: Entry)
    ensures e in EntriesOf(s, g) <==> e in s && e.gender == g
  {
    if s != [] {
      EntriesOfMember(s[1..], g, e);
      assert s == [s[0]] + s[1..];
    }
  }

  // ----- The "top 10" bar chart -----

  /** The data of the chart titled as the 10 best sales, as written: it
      asks for `ascending=True`, so each gender keeps its 10 LEAST frequent
      categories. */
  function TopTenChartAsWritten(rows: seq<Transaction>): seq<Entry> {
    FrequencyRanking(rows, DefaultTop, true)
  }

  /** The same chart with the default descending order its title calls for. */
  function TopTenChart(rows: seq<Transaction>): seq<Entry> {
    FrequencyRanking(rows, DefaultTop, false)
  }

  function CategoriesOfEntries(s: seq<Entry>): seq<string> {
    seq(|s|, i requires 0 <= i < |s| => s[i].category)
  }

  /** When a gender has more than 10 categories and one of them sells
      strictly more often than every other, the chart as written leaves that
      best seller out. */
  lemma BestSellerMissingFromChartAsWritten(rows: seq<Transaction>, g: string, c: string)
    requires |Categories(rows, g)| > DefaultTop
    requires CountPair(rows, g, c) > 0
    requires forall d :: d != c && CountPair(rows, g, d) > 0 ==> CountPair(rows, g, d) < CountPair(rows, g, c)
    ensures Entry(g, c, CountPair(rows, g, c)) !in TopTenChartAsWritten(rows)
  {
    var r := TopTenChartAsWritten(rows);
    var x := Entry(g, c, CountPair(rows, g, c));
    if x in r {
      var b := EntriesOf(r, g);
      EntriesOfMember(r, g, x);
      RankingPerGender(rows, DefaultTop, true, g);
      var cats := Categories(rows, g);
      var names := CategoriesOfEntries(b);
      if forall d :: d in cats ==> d in names {
        assert (set d | d in cats) <= (set d | d in names);
        SetSizeAtMostLength(names);
        StrIncreasingSetSize(cats);
        SubsetSize(set d | d in cats, set d | d in names);
        assert false;
      }
      var d :| d in cats && d !in names;
      CategoriesSpec(rows, g, d);
      forall i | 0 <= i < |b| ensures b[i].category != d {
        assert names[i] == b[i].category;
      }
      assert false;
    }
  }

  /** The descending chart always keeps a gender's strict best seller. */
  lemma BestSellerInTopTenChart(rows: seq<Transaction>, g: string, c: string)
    requires CountPair(rows, g, c) > 0
    requires forall d :: d != c && CountPair(rows, g, d) > 0 ==> CountPair(rows, g, d) < CountPair(rows, g, c)
    ensures Entry(g, c, CountPair(rows, g, c)) in TopTenChart(rows)
  {
    var r := TopTenChart(rows);
    var x := Entry(g, c, CountPair(rows, g, c));
    var b := EntriesOf(r, g);
    RankingPerGender(rows, DefaultTop, false, g);
    CategoriesSpec(rows, g, c);
    assert |Categories(rows, g)| > 0;
    assert b[0] in b;
    EntriesOfMember(r, g, x);
  }
}
