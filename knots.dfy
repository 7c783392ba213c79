/**
 * Knot vectors shared by the curve, basis and surface code: sortedness, the sort the
 * constructors apply (`knots.sort_by(|a, b| a.partial_cmp(b).unwrap())`) and the
 * left-to-right float sum.
 */
module Knots {
  function Max(a: int, b: int): int {
    if a >= b then a else b
  }

  function Min(a: int, b: int): int {
    if a <= b then a else b
  }

  /** Non-decreasing order, the invariant every constructor establishes. */
  predicate Sorted(s: seq<real>) {
    forall i, j :: 0 <= i <= j < |s| ==> s[i] <= s[j]
  }

  /** Inserts `x` into a sorted sequence, after every element smaller than it. */
  function InsertSorted(s: seq<real>, x: real): (r: seq<real>)
    requires Sorted(s)
    ensures Sorted(r)
    ensures multiset(r) == multiset(s) + multiset{x}
    ensures |r| == |s| + 1
  {
    if |s| == 0 then
      [x]
    else if x <= s[0] then
      ConsSorted(x, s);
      [x] + s
    else
      Tail(s);
      var rest := InsertSorted(s[1..], x);
      InsertStep(s, x, rest);
      [s[0]] + rest
  }

  /** Appending an upper bound keeps a sequence sorted. */
  lemma SortedAppend(s: seq<real>, x: real)
    requires Sorted(s) && forall k :: 0 <= k < |s| ==> s[k] <= x
    ensures Sorted(s + [x])
  {
  }

  /** Prepending a lower bound keeps a sequence sorted. */
  lemma ConsSorted(x: real, s: seq<real>)
    requires Sorted(s) && forall k :: 0 <= k < |s| ==> x <= s[k]
    ensures Sorted([x] + s)
  {
  }

  /** The recursive case of `InsertSorted`: the head stays in front of the insertion into the tail. */
  lemma InsertStep(s: seq<real>, x: real, rest: seq<real>)
    requires Sorted(s) && |s| > 0 && s[0] < x && Sorted(rest)
    requires multiset(rest) == multiset(s[1..]) + multiset{x}
    ensures Sorted([s[0]] + rest)
    ensures multiset([s[0]] + rest) == multiset(s) + multiset{x}
  {
    HeadBelowInsert(s, x, rest);
    ConsSorted(s[0], rest);
    assert s == [s[0]] + s[1..];
  }

  /** Every element of a sorted sequence is at least its head. */
  lemma HeadIsMinimum(s: seq<real>, y: real)
    requires Sorted(s) && y in multiset(s)
    ensures s[0] <= y
  {
    assert y in s;
    var j :| 0 <= j < |s| && s[j] == y;
  }

  lemma HeadBelowInsert(s: seq<real>, x: real, rest: seq<real>)
    requires Sorted(s) && |s| > 0 && s[0] < x
    requires multiset(rest) == multiset(s[1..]) + multiset{x}
    ensures forall k :: 0 <= k < |rest| ==> s[0] <= rest[k]
  {
    assert s == [s[0]] + s[1..];
    forall k | 0 <= k < |rest|
      ensures s[0] <= rest[k]
    {
      var y := rest[k];
      assert y in multiset(rest);
      if y != x {
        assert y in multiset(s);
        HeadIsMinimum(s, y);
      }
    }
  }

  /**
   * The sorted knot vector. Rust's `sort_by` is a merge sort; since a sorted
   * rearrangement of a multiset is unique (`SortedUnique`), insertion sort yields the
   * same sequence.
   */
  function SortKnots(s: seq<real>): (r: seq<real>)
    ensures Sorted(r)
    ensures multiset(r) == multiset(s)
    ensures |r| == |s|
    decreases |s|
  {
    if |s| == 0 then
      []
    else
      var n := |s| - 1;
      assert s == s[..n] + [s[n]];
      InsertSorted(SortKnots(s[..n]), s[n])
  }

  /** Two sorted sequences with the same elements are equal. */
  lemma {:induction false} SortedUnique(a: seq<real>, b: seq<real>)
    requires Sorted(a) && Sorted(b) && multiset(a) == multiset(b)
    ensures a == b
    decreases |a|
  {
    SameHead(a, b);
    if |a| > 0 {
      Tail(a);
      Tail(b);
      SortedUnique(a[1..], b[1..]);
      HeadAndTail(a, b);
    }
  }

  /** Sorted sequences with the same elements have the same length and the same head. */
  lemma SameHead(a: seq<real>, b: seq<real>)
    requires Sorted(a) && Sorted(b) && multiset(a) == multiset(b)
    ensures |a| == |b|
    ensures |a| > 0 ==> a[0] == b[0]
  {
    assert |a| == |multiset(a)| == |multiset(b)| == |b|;
    if |a| > 0 {
      assert a[0] in multiset(a) && b[0] in multiset(b);
      HeadIsMinimum(a, b[0]);
      HeadIsMinimum(b, a[0]);
    }
  }

  lemma HeadAndTail(a: seq<real>, b: seq<real>)
    requires |a| > 0 && |b| > 0 && a[0] == b[0] && a[1..] == b[1..]
    ensures a == b
  {
    assert a == [a[0]] + a[1..];
    assert b == [b[0]] + b[1..];
  }

  /** Dropping the head of a sorted sequence keeps it sorted and removes one copy of the head. */
  lemma Tail(s: seq<real>)
    requires Sorted(s) && |s| > 0
    ensures Sorted(s[1..])
    ensures multiset(s[1..]) == multiset(s) - multiset{s[0]}
  {
    assert s == [s[0]] + s[1..];
  }

  /** Sorting an already sorted knot vector leaves it as it is. */
  lemma SortKnotsSorted(s: seq<real>)
    ensures Sorted(s) ==> SortKnots(s) == s
  {
    if Sorted(s) {
      SortedUnique(SortKnots(s), s);
    }
  }

  /** Sorting is idempotent. */
  lemma SortKnotsIdempotent(s: seq<real>)
    ensures SortKnots(SortKnots(s)) == SortKnots(s)
  {
    SortKnotsSorted(SortKnots(s));
  }

  /** The `fold(0.0, |acc, x| acc + x)` of a knot slice, added left to right. */
  function Sum(s: seq<real>): real
    decreases |s|
  {
    if |s| == 0 then 0.0 else Sum(s[..|s| - 1]) + s[|s| - 1]
  }

  /** Sums respect element-wise order. */
  lemma {:induction false} SumMonotone(a: seq<real>, b: seq<real>)
    requires |a| == |b|
    requires forall k :: 0 <= k < |a| ==> a[k] <= b[k]
    ensures Sum(a) <= Sum(b)
    decreases |a|
  {
    if |a| > 0 {
      var n := |a| - 1;
      SumMonotone(a[..n], b[..n]);
    }
  }

  /** A sum of `|s|` values in `[lo, hi]` lies in `[|s| * lo, |s| * hi]`. */
  lemma {:induction false} SumBounds(s: seq<real>, lo: real, hi: real)
    requires forall k :: 0 <= k < |s| ==> lo <= s[k] <= hi
    ensures (|s| as real) * lo <= Sum(s) <= (|s| as real) * hi
    decreases |s|
  {
    if |s| > 0 {
      var n := |s| - 1;
      SumBounds(s[..n], lo, hi);
      assert (|s| as real) * lo == (n as real) * lo + lo;
      assert (|s| as real) * hi == (n as real) * hi + hi;
    }
  }

  /** The mean of `d` values in `[lo, hi]` lies in `[lo, hi]`. */
  lemma MeanBounds(s: seq<real>, d: real, lo: real, hi: real)
    requires |s| > 0 && d == |s| as real
    requires forall k :: 0 <= k < |s| ==> lo <= s[k] <= hi
    ensures lo <= Sum(s) / d <= hi
  {
    SumBounds(s, lo, hi);
    var sum := Sum(s);
    assert d * lo <= sum <= d * hi;
    QuotientBounds(sum, d, lo, hi);
  }

  lemma QuotientBounds(sum: real, d: real, lo: real, hi: real)
    requires d > 0.0 && d * lo <= sum <= d * hi
    ensures lo <= sum / d <= hi
  {
    assert (sum / d) * d == sum;
  }
}
