/** Sequence helpers shared by the aggregations: prefixes, subsequences, the
    ordering of strings and the sorted list of distinct keys that pandas'
    grouping produces. */
module Order {

  /** The first n elements, or all of them when there are fewer
      (`head(n)`, `iloc[:n]`). */
  function Take<T>(s: seq<T>, n: nat): (r: seq<T>)
    ensures |r| == if n <= |s| then n else |s|
    ensures r == s[..|r|]
  {
    if n <= |s| then s[..n] else s
  }

  /** Everything but the last element; the empty sequence stays empty (`[:-1]`). */
  function DropLast<T>(s: seq<T>): (r: seq<T>)
    ensures |r| == if s == [] then 0 else |s| - 1
    ensures r == s[..|r|]
  {
    if s == [] then [] else s[..|s| - 1]
  }

  /** a is obtained from b by deleting elements, keeping the order of the rest. */
  predicate IsSubsequence<T(==)>(a: seq<T>, b: seq<T>)
    decreases |b|
  {
    if b == [] then a == []
    else (a != [] && a[0] == b[0] && IsSubsequence(a[1..], b[1..])) || IsSubsequence(a, b[1..])
  }

  // ----- String order (Python's comparison of str: code point by code point) -----

  predicate StrLt(a: string, b: string)
    decreases |a|
  {
    if a == [] then b != []
    else if b == [] then false
    else if a[0] != b[0] then a[0] < b[0]
    else StrLt(a[1..], b[1..])
  }

  lemma {:induction false} StrLtIrreflexive(a: string)
    ensures !StrLt(a, a)
    decreases |a|
  {
    if a != [] {
      StrLtIrreflexive(a[1..]);
    }
  }

  lemma {:induction false} StrLtTransitive(a: string, b: string, c: string)
    requires StrLt(a, b) && StrLt(b, c)
    ensures StrLt(a, c)
    decreases |a|
  {
    if a != [] && a[0] == b[0] && b[0] == c[0] {
      StrLtTransitive(a[1..], b[1..], c[1..]);
    }
  }

  lemma {:induction false} StrLtTotal(a: string, b: string)
    requires a != b
    ensures StrLt(a, b) || StrLt(b, a)
    decreases |a|
  {
    if a != [] && b != [] && a[0] == b[0] {
      StrLtTotal(a[1..], b[1..]);
    }
  }

  // ----- Sorted distinct keys -----

  predicate Increasing(s: seq<int>) {
    forall i, j :: 0 <= i < j < |s| ==> s[i] < s[j]
  }

  predicate StrIncreasing(s: seq<string>) {
    forall i, j :: 0 <= i < j < |s| ==> StrLt(s[i], s[j])
  }

  /** Adds x to a strictly increasing sequence, keeping it strictly increasing. */
  function InsertInt(x: int, s: seq<int>): (r: seq<int>)
    requires Increasing(s)
    ensures Increasing(r)
    ensures forall y :: y in r <==> y == x || y in s
  {
    if s == [] then [x]
    else if x < s[0] then [x] + s
    else if x == s[0] then s
    else
      var rest := InsertInt(x, s[1..]);
      assert forall y :: y in rest ==> s[0] < y;
      IncreasingCons(s[0], rest);
      [s[0]] + rest
  }

  lemma IncreasingCons(x: int, s: seq<int>)
    requires Increasing(s)
    requires forall y :: y in s ==> x < y
    ensures Increasing([x] + s)
  {
    var r := [x] + s;
    forall i, j | 0 <= i < j < |r| ensures r[i] < r[j] {
      assert r[j] == s[j - 1] && s[j - 1] in s;
      if i > 0 {
        assert r[i] == s[i - 1];
      }
    }
  }

  /** The distinct values of xs in ascending order (the index of a grouping). */
  function SortedDistinctInts(xs: seq<int>): (r: seq<int>)
    ensures Increasing(r)
    ensures forall y :: y in r <==> y in xs
  {
    if xs == [] then [] else InsertInt(xs[0], SortedDistinctInts(xs[1..]))
  }

  function InsertStr(x: string, s: seq<string>): (r: seq<string>)
    requires StrIncreasing(s)
    ensures StrIncreasing(r)
    ensures forall y :: y in r <==> y == x || y in s
  {
    if s == [] then [x]
    else if StrLt(x, s[0]) then
      assert forall j :: 0 <= j < |s| ==> StrLt(x, s[j]) by {
        forall j | 0 <= j < |s| ensures StrLt(x, s[j]) {
          if j > 0 { StrLtTransitive(x, s[0], s[j]); }
        }
      }
      [x] + s
    else if x == s[0] then s
    else
      StrLtTotal(x, s[0]);
      var rest := InsertStr(x, s[1..]);
      assert forall y :: y in rest ==> StrLt(s[0], y);
      [s[0]] + rest
  }

  /** The distinct strings of xs in ascending order. */
  function SortedDistinctStrs(xs: seq<string>): (r: seq<string>)
    ensures StrIncreasing(r)
    ensures forall y :: y in r <==> y in xs
  {
    if xs == [] then [] else InsertStr(xs[0], SortedDistinctStrs(xs[1..]))
  }

  /** A strictly increasing sequence has no repeated element. */
  lemma StrIncreasingDistinct(s: seq<string>, i: int, j: int)
    requires StrIncreasing(s)
    requires 0 <= i < |s| && 0 <= j < |s| && i != j
    ensures s[i] != s[j]
  {
    if i < j {
      if s[i] == s[j] { StrLtIrreflexive(s[i]); }
    } else {
      if s[i] == s[j] { StrLtIrreflexive(s[j]); }
    }
  }

  lemma {:induction false} SetSizeAtMostLength<T>(s: seq<T>)
    ensures |set x | x in s| <= |s|
  {
    if s != [] {
      SetSizeAtMostLength(s[1..]);
      assert (set x | x in s) == (set x | x in s[1..]) + {s[0]};
    }
  }

  lemma {:induction false} StrIncreasingSetSize(s: seq<string>)
    requires StrIncreasing(s)
    ensures |set x | x in s| == |s|
  {
    if s != [] {
      assert StrIncreasing(s[1..]);
      StrIncreasingSetSize(s[1..]);
      assert s[0] !in s[1..] by {
        if s[0] in s[1..] {
          var j :| 0 <= j < |s[1..]| && s[1..][j] == s[0];
          StrIncreasingDistinct(s, 0, j + 1);
        }
      }
      assert (set x | x in s) == (set x | x in s[1..]) + {s[0]};
    }
  }

  lemma SubsetSize<T>(a: set<T>, b: set<T>)
    requires a <= b
    ensures |a| <= |b|
  {
    assert b == a + (b - a);
  }

  /** A strictly increasing sequence drawn from two values has at most two elements. */
  lemma IncreasingWithinTwo(s: seq<int>, a: int, b: int)
    requires Increasing(s)
    requires forall x :: x in s ==> x == a || x == b
    ensures |s| <= 2
  {
    IncreasingSetSize(s);
    SubsetSize(set x | x in s, {a, b});
  }

  lemma {:induction false} IncreasingSetSize(s: seq<int>)
    requires Increasing(s)
    ensures |set x | x in s| == |s|
  {
    if s != [] {
      assert Increasing(s[1..]);
      IncreasingSetSize(s[1..]);
      assert s[0] !in s[1..];
      assert (set x | x in s) == (set x | x in s[1..]) + {s[0]};
    }
  }

  // ----- Sorting by an integer key (`sort_values`) -----

  /** x may come before y: ascending, or descending when `ascending` is false. */
  predicate InOrder(x: int, y: int, ascending: bool) {
    if ascending then x <= y else x >= y
  }

  predicate SortedByKey<T>(s: seq<T>, key: T -> int, ascending: bool) {
    forall i, j :: 0 <= i < j < |s| ==> InOrder(key(s[i]), key(s[j]), ascending)
  }

  lemma SortedCons<T>(x: T, s: seq<T>, key: T -> int, ascending: bool)
    requires SortedByKey(s, key, ascending)
    requires forall y :: y in s ==> InOrder(key(x), key(y), ascending)
    ensures SortedByKey([x] + s, key, ascending)
  {
    var r := [x] + s;
    forall i, j | 0 <= i < j < |r| ensures InOrder(key(r[i]), key(r[j]), ascending) {
      if i == 0 {
        assert r[j] == s[j - 1];
      } else {
        assert r[i] == s[i - 1] && r[j] == s[j - 1];
      }
    }
  }

  function InsertByKey<T>(x: T, s: seq<T>, key: T -> int, ascending: bool): (r: seq<T>)
    requires SortedByKey(s, key, ascending)
    ensures SortedByKey(r, key, ascending)
    ensures multiset(r) == multiset(s) + multiset{x}
  {
    if s == [] then [x]
    else if InOrder(key(x), key(s[0]), ascending) then [x] + s
    else
      var rest := InsertByKey(x, s[1..], key, ascending);
      assert s == [s[0]] + s[1..];
      forall y | y in rest ensures InOrder(key(s[0]), key(y), ascending) {
        assert y in multiset(s[1..]) + multiset{x};
      }
      SortedCons(s[0], rest, key, ascending);
      [s[0]] + rest
  }

  /** A permutation of s ordered by key. Nothing is promised about the order
      of elements with equal keys: pandas' default sort is not stable. */
  function SortByKey<T>(s: seq<T>, key: T -> int, ascending: bool): (r: seq<T>)
    ensures SortedByKey(r, key, ascending)
    ensures multiset(r) == multiset(s)
  {
    if s == [] then []
    else
      assert s == [s[0]] + s[1..];
      InsertByKey(s[0], SortByKey(s[1..], key, ascending), key, ascending)
  }

  /** A prefix of a sorted sequence is sorted and drawn from it. */
  lemma TakeSorted<T>(s: seq<T>, key: T -> int, ascending: bool, n: nat)
    requires SortedByKey(s, key, ascending)
    ensures SortedByKey(Take(s, n), key, ascending)
    ensures multiset(Take(s, n)) <= multiset(s)
  {
    var kept := Take(s, n);
    assert s == kept + s[|kept|..];
    assert multiset(s) == multiset(kept) + multiset(s[|kept|..]);
  }

  // ----- Distinct elements -----

  predicate Distinct<T(==)>(s: seq<T>) {
    forall i, j :: 0 <= i < j < |s| ==> s[i] != s[j]
  }

  /** A sequence of distinct elements holds each value at most once. */
  lemma {:induction false} DistinctAtMostOnce<T>(s: seq<T>, x: T)
    requires Distinct(s)
    ensures multiset(s)[x] <= 1
  {
    if s != [] {
      var rest := s[1..];
      assert s == [s[0]] + rest;
      forall i, j | 0 <= i < j < |rest| ensures rest[i] != rest[j] {
        assert rest[i] == s[i + 1] && rest[j] == s[j + 1];
      }
      DistinctAtMostOnce(rest, x);
      forall k | 0 <= k < |rest| ensures rest[k] != s[0] {
        assert rest[k] == s[k + 1];
      }
      assert s[0] !in rest;
    }
  }

  /** Two equal elements at different places count twice. */
  lemma TwoCopies<T>(s: seq<T>, i: int, j: int)
    requires 0 <= i < j < |s|
    ensures s[i] == s[j] ==> multiset(s)[s[i]] >= 2
  {
    var front, back := s[..j], s[j..];
    assert s == front + back;
    assert front[i] == s[i] && back[0] == s[j];
    assert s[i] in front && s[j] in back;
  }

  /** Elements drawn from a sequence of distinct elements are distinct. */
  lemma SubMultisetDistinct<T>(a: seq<T>, b: seq<T>)
    requires multiset(a) <= multiset(b)
    requires Distinct(b)
    ensures Distinct(a)
  {
    forall i, j | 0 <= i < j < |a| ensures a[i] != a[j] {
      DistinctAtMostOnce(b, a[i]);
      TwoCopies(a, i, j);
    }
  }

  /** Cutting a sorted sequence: everything left out ranks after everything kept. */
  lemma TakeSortedSplit<T>(s: seq<T>, key: T -> int, ascending: bool, n: nat, x: T)
    requires SortedByKey(s, key, ascending)
    requires multiset(Take(s, n))[x] < multiset(s)[x]
    ensures forall y :: y in Take(s, n) ==> InOrder(key(y), key(x), ascending)
  {
    var kept := Take(s, n);
    var rest := s[|kept|..];
    assert s == kept + rest;
    assert multiset(s) == multiset(kept) + multiset(rest);
    assert x in rest;
    var k :| 0 <= k < |rest| && rest[k] == x;
    assert s[|kept| + k] == x;
    forall y | y in kept ensures InOrder(key(y), key(x), ascending) {
      var j :| 0 <= j < |kept| && kept[j] == y;
      assert s[j] == y;
    }
  }

  // ----- Distinct values in order of appearance (`unique()`) -----

  /** The distinct elements of xs, each where it first appears. */
  function Unique<T(==,!new)>(xs: seq<T>): (r: seq<T>)
    ensures forall x :: x in r <==> x in xs
    ensures forall i, j :: 0 <= i < j < |r| ==> r[i] != r[j]
    decreases |xs|
  {
    if xs == [] then []
    else
      var r := Unique(xs[..|xs| - 1]);
      var x := xs[|xs| - 1];
      assert xs == xs[..|xs| - 1] + [x];
      if x in r then r else r + [x]
  }

  /** a occurs in xs before the first occurrence of b. */
  predicate SeenBefore<T(==)>(xs: seq<T>, a: T, b: T) {
    exists k :: 0 <= k < |xs| && xs[k] == a && b !in xs[..k]
  }

  /** `unique()` lists the values in the order they are first met. */
  lemma {:induction false} UniqueOrder<T(!new)>(xs: seq<T>)
    ensures forall i, j :: 0 <= i < j < |Unique(xs)| ==> SeenBefore(xs, Unique(xs)[i], Unique(xs)[j])
    decreases |xs|
  {
    if xs != [] {
      var front := xs[..|xs| - 1];
      var x := xs[|xs| - 1];
      var u := Unique(front);
      UniqueOrder(front);
      var r := Unique(xs);
      forall i, j | 0 <= i < j < |r| ensures SeenBefore(xs, r[i], r[j]) {
        if j < |u| {
          assert r[i] == u[i] && r[j] == u[j];
          var k :| 0 <= k < |front| && front[k] == u[i] && u[j] !in front[..k];
          assert xs[..k] == front[..k];
          assert xs[k] == front[k];
        } else {
          assert r[i] == u[i] && r[j] == x && x !in front;
          assert u[i] in front;
          var k :| 0 <= k < |front| && front[k] == u[i];
          assert xs[..k] == front[..k];
          assert xs[k] == front[k];
        }
      }
    }
  }
}
