/** Python's `bisect.bisect_right` over a list of timestamps, and the
    counting function that specifies it. */
module Bisect {

  /** Nondecreasing: the order `bisect_right` expects of its list. */
  predicate Sorted(a: seq<int>)
  {
    forall i, j :: 0 <= i < j < |a| ==> a[i] <= a[j]
  }

  /** The number of elements of `a` that are at most `x`. */
  function CountAtMost(a: seq<int>, x: int): (n: nat)
    ensures n <= |a|
  {
    if a == [] then 0
    else CountAtMost(a[..|a| - 1], x) + (if a[|a| - 1] <= x then 1 else 0)
  }

  /** `k` splits `a[lo..]` into the elements at most `x` and those above it:
      the insertion point `bisect_right` promises. */
  predicate SplitsAt(a: seq<int>, x: int, lo: nat, k: nat)
  {
    lo <= k <= |a| &&
    (forall j :: lo <= j < k ==> a[j] <= x) &&
    (forall j :: k <= j < |a| ==> x < a[j])
  }

  /** In a sorted list, the count of elements at most `x` is the split point. */
  lemma {:induction false} CountAtMostSplits(a: seq<int>, x: int)
    requires Sorted(a)
    ensures SplitsAt(a, x, 0, CountAtMost(a, x))
  {
    if a != [] {
      var init := a[..|a| - 1];
      CountAtMostSplits(init, x);
      if a[|a| - 1] <= x {
        assert CountAtMost(init, x) == |init|;
      }
    }
  }

  /** Counting distributes over concatenation. */
  lemma {:induction false} CountAtMostAppend(a: seq<int>, b: seq<int>, x: int)
    ensures CountAtMost(a + b, x) == CountAtMost(a, x) + CountAtMost(b, x)
  {
    if b != [] {
      assert (a + b)[..|a + b| - 1] == a + b[..|b| - 1];
      CountAtMostAppend(a, b[..|b| - 1], x);
    } else {
      assert a + b == a;
    }
  }

  /** A larger bound counts at least as many elements. */
  lemma {:induction false} CountAtMostMonotone(a: seq<int>, x: int, y: int)
    requires x <= y
    ensures CountAtMost(a, x) <= CountAtMost(a, y)
  {
    if a != [] {
      CountAtMostMonotone(a[..|a| - 1], x, y);
    }
  }

  /** A prefix whose elements are all at most `x` is counted in full. */
  lemma {:induction false} CountAtMostAll(a: seq<int>, x: int)
    requires forall j :: 0 <= j < |a| ==> a[j] <= x
    ensures CountAtMost(a, x) == |a|
  {
    if a != [] {
      CountAtMostAll(a[..|a| - 1], x);
    }
  }

  /** Resuming the search at `lo` gives the same index as a fresh search over
      the whole list, as long as nothing before `lo` exceeds `x`. */
  lemma ResumedSearch(a: seq<int>, x: int, lo: nat)
    requires lo <= |a|
    requires forall j :: 0 <= j < lo ==> a[j] <= x
    ensures lo + CountAtMost(a[lo..], x) == CountAtMost(a, x)
  {
    assert a == a[..lo] + a[lo..];
    CountAtMostAppend(a[..lo], a[lo..], x);
    CountAtMostAll(a[..lo], x);
  }

  /** `bisect_right(a, x, lo)`: binary search for the insertion point of `x`
      to the right of every element at most `x`, within `a[lo..]`. */
  method BisectRight(a: seq<int>, x: int, lo: nat) returns (k: nat)
    requires Sorted(a)
    requires lo <= |a|
    ensures SplitsAt(a, x, lo, k)
    ensures k == lo + CountAtMost(a[lo..], x)
  {
    k := lo;
    var hi := |a|;
    while k < hi
      invariant lo <= k <= hi <= |a|
      invariant forall j :: lo <= j < k ==> a[j] <= x
      invariant forall j :: hi <= j < |a| ==> x < a[j]
    {
      var mid := (k + hi) / 2;
      if x < a[mid] {
        hi := mid;
      } else {
        k := mid + 1;
      }
    }
    SplitCounts(a, x, lo, k);
  }

  /** The split point is determined by counting: it is `lo` plus the number of
      elements of `a[lo..]` at most `x`. */
  lemma SplitCounts(a: seq<int>, x: int, lo: nat, k: nat)
    requires SplitsAt(a, x, lo, k)
    ensures k == lo + CountAtMost(a[lo..], x)
  {
    assert a[lo..] == a[lo..k] + a[k..];
    CountAtMostAppend(a[lo..k], a[k..], x);
    CountAtMostAll(a[lo..k], x);
    CountAtMostNone(a[k..], x);
  }

  /** Nothing is counted when every element exceeds `x`. */
  lemma {:induction false} CountAtMostNone(a: seq<int>, x: int)
    requires forall j :: 0 <= j < |a| ==> x < a[j]
    ensures CountAtMost(a, x) == 0
  {
    if a != [] {
      CountAtMostNone(a[..|a| - 1], x);
    }
  }
}
