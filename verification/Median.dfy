/** The even-count median shared by the near-tie seal and the paired score (bench-core, near_tie.rs and score.rs). */
module Median {
  import opened Wrappers
  import opened Floats
  import opened Sorting

  predicate RealAtMost(x: real, y: real) { x <= y }

  lemma RealOrderIsTotal()
    ensures TotalOrder(RealAtMost)
  {
  }

  /** The middle order statistic, or the mean of the two central ones; an empty list has none. */
  function MedianOf(values: seq<real>): (m: Option<real>)
    ensures m.None? <==> values == []
  {
    var n, sorted := |values|, Sort(values, RealAtMost);
    if n == 0 then None
    else
      SortPermutes(values, RealAtMost);
      if n % 2 == 1 then Some(sorted[n / 2]) else Some((sorted[n / 2 - 1] + sorted[n / 2]) / 2.0)
  }

  /** The median does not depend on the order the values come in. */
  lemma MedianForgetsOrder(values: seq<real>, values': seq<real>)
    requires multiset(values) == multiset(values')
    ensures MedianOf(values) == MedianOf(values')
  {
    RealOrderIsTotal();
    SortForgetsOrder(values, values', RealAtMost);
    assert |multiset(values)| == |values| && |multiset(values')| == |values'|;
  }

  lemma CountFromPrefix<T>(s: seq<T>, p: T -> bool, k: nat)
    requires k <= |s| && forall i :: 0 <= i < k ==> p(s[i])
    ensures k <= Count(s, p)
  {
    assert s == s[..k] + s[k..];
    CountConcat(s[..k], s[k..], p);
    CountAll(s[..k], p);
  }

  lemma CountFromSuffix<T>(s: seq<T>, p: T -> bool, k: nat)
    requires k <= |s| && forall i :: k <= i < |s| ==> p(s[i])
    ensures |s| - k <= Count(s, p)
  {
    assert s == s[..k] + s[k..];
    CountConcat(s[..k], s[k..], p);
    CountAll(s[k..], p);
  }

  /** At least half of the values lie on each side of the median. */
  lemma HalfOnEachSide(values: seq<real>)
    requires values != []
    ensures var m := MedianOf(values).value;
            |values| <= 2 * Count(values, x => x <= m) && |values| <= 2 * Count(values, x => m <= x)
  {
    hide Sort, IsSorted, Count;
    var n, sorted, m := |values|, Sort(values, RealAtMost), MedianOf(values).value;
    var below: real -> bool := x => x <= m;
    var above: real -> bool := x => m <= x;
    RealOrderIsTotal();
    SortSorts(values, RealAtMost);
    SortPermutes(values, RealAtMost);
    CentralBounds(sorted, m);
    CountFromPrefix(sorted, below, if n % 2 == 1 then n / 2 + 1 else n / 2);
    CountFromSuffix(sorted, above, n / 2);
    CountOfSort(values, RealAtMost, below);
    CountOfSort(values, RealAtMost, above);
  }

  lemma CentralBounds(sorted: seq<real>, m: real)
    requires sorted != [] && IsSorted(sorted, RealAtMost)
    requires var n := |sorted|;
             m == if n % 2 == 1 then sorted[n / 2] else (sorted[n / 2 - 1] + sorted[n / 2]) / 2.0
    ensures forall i :: 0 <= i < (if |sorted| % 2 == 1 then |sorted| / 2 + 1 else |sorted| / 2) ==> sorted[i] <= m
    ensures forall i :: |sorted| / 2 <= i < |sorted| ==> m <= sorted[i]
  {
    var n := |sorted|;
    forall i | 0 <= i <= n / 2 ensures RealAtMost(sorted[i], sorted[n / 2]) {
    }
    forall i | n / 2 <= i < n ensures RealAtMost(sorted[n / 2], sorted[i]) {
    }
    if n % 2 == 0 {
      assert RealAtMost(sorted[n / 2 - 1], sorted[n / 2]);
      forall i | 0 <= i < n / 2 ensures RealAtMost(sorted[i], sorted[n / 2 - 1]) {
      }
    }
  }

  /** The median stays inside any bounds the values keep. */
  lemma MedianWithinBounds(values: seq<real>, lo: real, hi: real)
    requires values != [] && forall i :: 0 <= i < |values| ==> lo <= values[i] <= hi
    ensures lo <= MedianOf(values).value <= hi
  {
    var n, sorted := |values|, Sort(values, RealAtMost);
    SortPermutes(values, RealAtMost);
    forall i | 0 <= i < n ensures lo <= sorted[i] <= hi {
      SortKeepsMembers(values, RealAtMost, sorted[i]);
    }
  }

  // ---- the median of floating-point values --------------------------------------------

  predicate HoldsNoNaN(s: seq<Float>) {
    NaN !in s
  }

  /**
   What the library sort may return: a permutation, and a sorted one unless a NaN takes part. The comparison
   answers "greater" for a NaN on either side, which no order does, so nothing is promised about where it ends up.
   */
  predicate IsLibrarySort(values: seq<Float>, sorted: seq<Float>) {
    multiset(sorted) == multiset(values) && (HoldsNoNaN(values) ==> IsSorted(sorted, TotalAtMost))
  }

  /** The middle of a sorted list, or the mean of its two central entries; NaN for an empty one. */
  function CentralOf(sorted: seq<Float>): Float {
    var n := |sorted|;
    if n == 0 then NaN
    else if n % 2 == 1 then sorted[n / 2]
    else Half(Plus(sorted[n / 2 - 1], sorted[n / 2]))
  }

  lemma FloatOrderIsTotal()
    ensures TotalOrder(TotalAtMost)
  {
  }

  /** Without a NaN the sort has one possible result. */
  lemma LibrarySortIsSort(values: seq<Float>, sorted: seq<Float>)
    requires IsLibrarySort(values, sorted) && HoldsNoNaN(values)
    ensures sorted == Sort(values, TotalAtMost)
  {
    FloatOrderIsTotal();
    SortSorts(values, TotalAtMost);
    SortPermutes(values, TotalAtMost);
    SortedIsUnique(sorted, Sort(values, TotalAtMost), TotalAtMost);
  }

  lemma {:induction false} ValuesOfInsert(x: Float, s: seq<Float>)
    requires x.Finite? && AreFinite(s)
    ensures AreFinite(Insert(x, s, TotalAtMost))
    ensures Values(Insert(x, s, TotalAtMost)) == Insert(x.value, Values(s), RealAtMost)
  {
    if s != [] {
      assert Values(s)[1..] == Values(s[1..]);
      if !TotalAtMost(x, s[0]) {
        ValuesOfInsert(x, s[1..]);
      }
    }
  }

  lemma {:induction false} ValuesOfSort(s: seq<Float>)
    requires AreFinite(s)
    ensures AreFinite(Sort(s, TotalAtMost)) && Values(Sort(s, TotalAtMost)) == Sort(Values(s), RealAtMost)
  {
    if s != [] {
      assert Values(s)[1..] == Values(s[1..]);
      ValuesOfSort(s[1..]);
      ValuesOfInsert(s[0], Sort(s[1..], TotalAtMost));
    }
  }

  /** On finite values the floating-point median is the median of the reals. */
  lemma FiniteMedian(values: seq<Float>, sorted: seq<Float>)
    requires IsLibrarySort(values, sorted) && AreFinite(values) && values != []
    ensures CentralOf(sorted) == Finite(MedianOf(Values(values)).value)
  {
    hide Sort, IsSorted;
    LibrarySortIsSort(values, sorted);
    ValuesOfSort(values);
    SortPermutes(values, TotalAtMost);
  }

  /** A finite median has both central entries finite, and lies between them. */
  lemma CentralEntries(sorted: seq<Float>, m: real)
    requires CentralOf(sorted) == Finite(m) && IsSorted(sorted, TotalAtMost)
    ensures sorted != []
    ensures forall i :: 0 <= i < (|sorted| + 1) / 2 ==> AtMost(sorted[i], Finite(m))
    ensures forall i :: |sorted| / 2 <= i < |sorted| ==> sorted[i].NaN? || AtMost(Finite(m), sorted[i])
  {
    var n := |sorted|;
    var l, h := sorted[(n - 1) / 2], sorted[n / 2];
    assert n % 2 == 0 ==> TotalAtMost(l, h);
    assert AtMost(l, Finite(m)) && AtMost(Finite(m), h);
    forall i | 0 <= i < (n + 1) / 2 ensures AtMost(sorted[i], Finite(m)) {
      assert i == (n - 1) / 2 || TotalAtMost(sorted[i], l);
    }
    forall i | n / 2 <= i < n ensures sorted[i].NaN? || AtMost(Finite(m), sorted[i]) {
      assert i == n / 2 || TotalAtMost(h, sorted[i]);
    }
  }

  /** Without a NaN, at least half of the values lie on each side of a finite median, infinite ones included. */
  lemma HalfOnEachFloatSide(values: seq<Float>, sorted: seq<Float>, m: real, below: Float -> bool, above: Float -> bool)
    requires IsLibrarySort(values, sorted) && HoldsNoNaN(values) && CentralOf(sorted) == Finite(m)
    requires forall x :: AtMost(x, Finite(m)) ==> below(x)
    requires forall x :: AtMost(Finite(m), x) ==> above(x)
    ensures |values| <= 2 * Count(values, below) && |values| <= 2 * Count(values, above)
  {
    hide Sort, IsSorted, Count, CentralOf, AtMost;
    LibrarySortIsSort(values, sorted);
    SortPermutes(values, TotalAtMost);
    CentralEntries(sorted, m);
    forall i | 0 <= i < |sorted| ensures !sorted[i].NaN? {
      assert sorted[i] in multiset(sorted);
    }
    CountFromPrefix(sorted, below, (|sorted| + 1) / 2);
    CountFromSuffix(sorted, above, |sorted| / 2);
    CountOfSort(values, TotalAtMost, below);
    CountOfSort(values, TotalAtMost, above);
  }

  // ---- where exactly the median lies ------------------------------------------------------

  /** `m` is a middle value, or the midpoint of two values with half of all on either side. */
  ghost predicate IsMidpoint(values: seq<real>, m: real) {
    exists i, j :: 0 <= i < |values| && 0 <= j < |values| && Midway(values, values[i], values[j], m)
  }

  ghost predicate Midway(values: seq<real>, lo: real, hi: real, m: real) {
    && lo <= hi && 2.0 * m == lo + hi && (|values| % 2 == 1 ==> lo == hi)
    && |values| <= 2 * Count(values, x => x <= lo) && |values| <= 2 * Count(values, x => hi <= x)
  }

  /** Of an odd count the median is a value, and of an even count the midpoint of the two central ones. */
  lemma MedianIsMidpoint(values: seq<real>)
    requires values != []
    ensures IsMidpoint(values, MedianOf(values).value)
  {
    hide Sort, IsSorted, Count, Midway;
    var n, sorted := |values|, Sort(values, RealAtMost);
    RealOrderIsTotal();
    SortSorts(values, RealAtMost);
    SortPermutes(values, RealAtMost);
    var lo, hi := sorted[(n - 1) / 2], sorted[n / 2];
    CentralMidway(values, sorted, lo, hi, MedianOf(values).value);
    SortKeepsMembers(values, RealAtMost, lo);
    SortKeepsMembers(values, RealAtMost, hi);
    var i :| 0 <= i < n && values[i] == lo;
    var j :| 0 <= j < n && values[j] == hi;
    assert Midway(values, values[i], values[j], MedianOf(values).value);
  }

  lemma CentralMidway(values: seq<real>, sorted: seq<real>, lo: real, hi: real, m: real)
    requires values != [] && sorted == Sort(values, RealAtMost) && |sorted| == |values| && IsSorted(sorted, RealAtMost)
    requires lo == sorted[(|values| - 1) / 2] && hi == sorted[|values| / 2] && 2.0 * m == lo + hi
    ensures Midway(values, lo, hi, m)
  {
    hide Sort, Count;
    var n := |values|;
    var below: real -> bool := x => x <= lo;
    var above: real -> bool := x => hi <= x;
    forall i | 0 <= i < (n + 1) / 2 ensures sorted[i] <= lo {
      assert i == (n - 1) / 2 || RealAtMost(sorted[i], sorted[(n - 1) / 2]);
    }
    forall i | n / 2 <= i < n ensures hi <= sorted[i] {
      assert i == n / 2 || RealAtMost(sorted[n / 2], sorted[i]);
    }
    assert (n - 1) / 2 == n / 2 || RealAtMost(lo, hi);
    CountFromPrefix(sorted, below, (n + 1) / 2);
    CountFromSuffix(sorted, above, n / 2);
    CountOfSort(values, RealAtMost, below);
    CountOfSort(values, RealAtMost, above);
  }
}
