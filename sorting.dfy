/**
 * In-place sorting of a value array by a caller-supplied "are in increasing
 * order" predicate, as `Array.sort(by:)` is used in the query pipeline.
 */
module Sorting {

  /** `lt` never holds in both directions. */
  ghost predicate Asymmetric<T(!new)>(lt: (T, T) -> bool) {
    forall a, b :: lt(a, b) ==> !lt(b, a)
  }

  /** No element is strictly before its left neighbour under `lt`. */
  predicate AdjacentSorted<T>(s: seq<T>, lt: (T, T) -> bool) {
    forall k :: 0 < k < |s| ==> !lt(s[k], s[k - 1])
  }

  ghost predicate Transitive<T(!new)>(le: (T, T) -> bool) {
    forall a, b, c :: le(a, b) && le(b, c) ==> le(a, c)
  }

  /** A transitive relation that holds between neighbours holds between every ordered pair. */
  lemma {:induction false} AdjacentToPairwise<T(!new)>(s: seq<T>, le: (T, T) -> bool)
    requires Transitive(le)
    requires forall k :: 0 < k < |s| ==> le(s[k - 1], s[k])
    ensures forall i, j :: 0 <= i < j < |s| ==> le(s[i], s[j])
  {
    if |s| > 1 {
      var init := s[..|s| - 1];
      AdjacentToPairwise(init, le);
      forall i, j | 0 <= i < j < |s| ensures le(s[i], s[j]) {
        if j < |s| - 1 {
          assert le(init[i], init[j]);
        } else if i < j - 1 {
          assert le(init[i], init[j - 1]);
        }
      }
    }
  }

  /** `s` with the elements at `i` and `j` exchanged: the same elements, as often. */
  function Swap<T>(s: seq<T>, i: nat, j: nat): (r: seq<T>)
    requires i < |s| && j < |s|
    ensures |r| == |s| && multiset(r) == multiset(s)
    ensures r[i] == s[j] && r[j] == s[i]
    ensures forall k :: 0 <= k < |s| && k != i && k != j ==> r[k] == s[k]
  {
    s[i := s[j]][j := s[i]]
  }

  /** Neighbours up to position `n` are in order. */
  predicate SortedPrefix<T>(s: seq<T>, n: nat, lt: (T, T) -> bool) {
    forall k :: 0 < k < n && k < |s| ==> !lt(s[k], s[k - 1])
  }

  /**
   * While the element taken from position `i` sinks, it sits at `j`; every
   * other pair of neighbours up to `i` is in order, and so is the pair that
   * straddles it.
   */
  predicate Sinking<T>(r: seq<T>, i: nat, j: nat, lt: (T, T) -> bool) {
    && j <= i < |r|
    && (forall k :: 0 < k <= i && k != j ==> !lt(r[k], r[k - 1]))
    && (0 < j < i ==> !lt(r[j + 1], r[j - 1]))
  }

  /** Swapping the sinking element with a left neighbour it is strictly before keeps `Sinking`. */
  lemma SinkStep<T(!new)>(r: seq<T>, i: nat, j: nat, lt: (T, T) -> bool)
    requires Asymmetric(lt)
    requires Sinking(r, i, j, lt) && 0 < j && lt(r[j], r[j - 1])
    ensures Sinking(Swap(r, j - 1, j), i, j - 1, lt)
  {
  }

  /**
   * One step of insertion sort: the element at `i` moves left past every
   * element it is strictly before, so that the first `i + 1` are in order.
   */
  method SinkInto<T(!new)>(s: seq<T>, i: nat, lt: (T, T) -> bool) returns (r: seq<T>)
    requires Asymmetric(lt)
    requires i < |s| && SortedPrefix(s, i, lt)
    ensures |r| == |s| && multiset(r) == multiset(s)
    ensures SortedPrefix(r, i + 1, lt)
    ensures r[i + 1..] == s[i + 1..]
  {
    r := s;
    var j: nat := i;
    while j > 0 && lt(r[j], r[j - 1])
      invariant |r| == |s| && multiset(r) == multiset(s)
      invariant forall k :: i < k < |r| ==> r[k] == s[k]
      invariant Sinking(r, i, j, lt)
    {
      SinkStep(r, i, j, lt);
      r := Swap(r, j - 1, j);
      j := j - 1;
    }
    assert r[i + 1..] == s[i + 1..];
  }

  /**
   * Insertion sort. The result is a permutation of the input in which no
   * element is strictly before its left neighbour; for that it is enough that
   * `lt` never holds in both directions.
   */
  method SortBy<T(!new)>(s: seq<T>, lt: (T, T) -> bool) returns (r: seq<T>)
    requires Asymmetric(lt)
    ensures multiset(r) == multiset(s)
    ensures AdjacentSorted(r, lt)
  {
    r := s;
    var i := 0;
    while i < |r|
      invariant 0 <= i <= |r| == |s|
      invariant multiset(r) == multiset(s)
      invariant SortedPrefix(r, i, lt)
    {
      r := SinkInto(r, i, lt);
      i := i + 1;
    }
  }
}
