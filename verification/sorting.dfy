/** Ordering of result lists (`ORDER BY ... ASC/DESC`) as a functional
    insertion sort over an ordering predicate. */
module Sorting {

  /** Any two elements are comparable. */
  ghost predicate Total<T(!new)>(le: (T, T) -> bool) {
    forall a, b :: le(a, b) || le(b, a)
  }

  ghost predicate Transitive<T(!new)>(le: (T, T) -> bool) {
    forall a, b, c :: le(a, b) && le(b, c) ==> le(a, c)
  }

  /** Every element is ordered before its successor. */
  predicate Sorted<T>(xs: seq<T>, le: (T, T) -> bool) {
    forall i :: 0 < i < |xs| ==> le(xs[i - 1], xs[i])
  }

  /** Places `x` in front of the first element it is ordered before. */
  function Insert<T(!new)>(x: T, xs: seq<T>, le: (T, T) -> bool): (r: seq<T>)
    ensures multiset(r) == multiset(xs) + multiset{x}
    ensures |r| == |xs| + 1
    ensures r[0] == x || (|xs| > 0 && r[0] == xs[0])
    ensures Total(le) && Sorted(xs, le) ==> Sorted(r, le)
    decreases |xs|
  {
    if |xs| == 0 then [x]
    else if le(x, xs[0]) then [x] + xs
    else
      assert xs == [xs[0]] + xs[1..];
      [xs[0]] + Insert(x, xs[1..], le)
  }

  /** The same elements, arranged in order whenever the order is total. */
  function Sort<T(!new)>(xs: seq<T>, le: (T, T) -> bool): (r: seq<T>)
    ensures multiset(r) == multiset(xs)
    ensures Total(le) ==> Sorted(r, le)
    decreases |xs|
  {
    if |xs| == 0 then []
    else
      assert xs == [xs[0]] + xs[1..];
      Insert(xs[0], Sort(xs[1..], le), le)
  }

  /** With a transitive order, neighbour-wise order is order between any
      earlier and later element. */
  lemma {:induction false} SortedPairwise<T(!new)>(xs: seq<T>, le: (T, T) -> bool, i: int, j: int)
    requires Sorted(xs, le) && Transitive(le)
    requires 0 <= i < j < |xs|
    ensures le(xs[i], xs[j])
    decreases j - i
  {
    if i + 1 < j {
      SortedPairwise(xs, le, i, j - 1);
    }
  }

  /** A contiguous slice of a sorted list is sorted. */
  lemma SortedSlice<T>(xs: seq<T>, le: (T, T) -> bool, lo: int, hi: int)
    requires Sorted(xs, le)
    requires 0 <= lo <= hi <= |xs|
    ensures Sorted(xs[lo..hi], le)
  {
    var ys := xs[lo..hi];
    forall i | 0 < i < |ys|
      ensures le(ys[i - 1], ys[i])
    {
      assert ys[i - 1] == xs[lo + i - 1] && ys[i] == xs[lo + i];
    }
  }
}
