/**
 * Selecting a subsequence by a mask of flags: the common shape of the
 * category and search filters and of batch deletion.
 */
module Sequences {

  /** The elements of `s` whose flag in `live` is set, in their order in `s`. */
  function Keep<T>(s: seq<T>, live: seq<bool>): seq<T>
    requires |live| == |s|
  {
    if s == [] then []
    else Keep(s[..|s| - 1], live[..|s| - 1]) + (if live[|s| - 1] then [s[|s| - 1]] else [])
  }

  /** The positions whose flag in `live` is set, ascending. */
  function LiveIndices(live: seq<bool>): seq<nat> {
    if live == [] then []
    else LiveIndices(live[..|live| - 1]) + (if live[|live| - 1] then [|live| - 1] else [])
  }

  predicate StrictlyIncreasing(xs: seq<nat>) {
    forall i, j :: 0 <= i < j < |xs| ==> xs[i] < xs[j]
  }

  /** The live positions are strictly increasing, and they are exactly the set flags. */
  lemma {:induction false} LiveIndicesExact(live: seq<bool>)
    ensures StrictlyIncreasing(LiveIndices(live))
    ensures forall k :: 0 <= k < |LiveIndices(live)| ==> LiveIndices(live)[k] < |live|
    ensures forall i: nat :: i in LiveIndices(live) <==> i < |live| && live[i]
  {
    if live != [] {
      var n := |live| - 1;
      var init := live[..n];
      LiveIndicesExact(init);
      assert LiveIndices(live) == LiveIndices(init) + (if live[n] then [n] else []);
      forall i: nat ensures i in LiveIndices(live) <==> i < |live| && live[i] {
        if i < n {
          assert init[i] == live[i];
        }
      }
    }
  }

  /**
   * `Keep` lists, in order, exactly the elements at the live positions:
   * its k-th element is the element of `s` at the k-th live position.
   */
  lemma {:induction false} KeepAt<T>(s: seq<T>, live: seq<bool>)
    requires |live| == |s|
    ensures |Keep(s, live)| == |LiveIndices(live)|
    ensures forall k :: 0 <= k < |Keep(s, live)| ==>
              LiveIndices(live)[k] < |s| && Keep(s, live)[k] == s[LiveIndices(live)[k]]
  {
    LiveIndicesExact(live);
    if s != [] {
      var n := |s| - 1;
      KeepAt(s[..n], live[..n]);
      LiveIndicesExact(live[..n]);
    }
  }

  /** With every flag set, nothing is dropped. */
  lemma {:induction false} KeepAllLive<T>(s: seq<T>, live: seq<bool>)
    requires |live| == |s| && forall i :: 0 <= i < |live| ==> live[i]
    ensures Keep(s, live) == s
  {
    if s != [] {
      KeepAllLive(s[..|s| - 1], live[..|s| - 1]);
    }
  }

  /** The mask that clears exactly the positions in `gone`. */
  function Survivors(n: nat, gone: set<nat>): (live: seq<bool>)
    ensures |live| == n && forall i :: 0 <= i < n ==> (live[i] <==> i !in gone)
  {
    seq(n, i => i !in gone)
  }

  /** The mask for `n` positions, without its last flag, is the mask for `n - 1`. */
  lemma SurvivorsInit(n: nat, gone: set<nat>)
    requires n > 0
    ensures Survivors(n, gone)[..n - 1] == Survivors(n - 1, gone - {n - 1})
  {
    var a, b := Survivors(n, gone)[..n - 1], Survivors(n - 1, gone - {n - 1});
    forall i | 0 <= i < n - 1 ensures a[i] == b[i] {
    }
  }

  /** Clearing the positions of `gone` (all below `n`) leaves `n - |gone|` live positions. */
  lemma {:induction false} SurvivorsCount(n: nat, gone: set<nat>)
    requires forall i :: i in gone ==> i < n
    ensures |LiveIndices(Survivors(n, gone))| == n - |gone|
  {
    if n > 0 {
      var last := n - 1;
      var rest := gone - {last};
      var live := Survivors(n, gone);
      SurvivorsCount(last, rest);
      SurvivorsInit(n, gone);
      var before := LiveIndices(live[..last]);
      assert |before| == last - |rest|;
      assert LiveIndices(live) == before + (if live[last] then [last] else []);
      if last in gone {
        assert |gone| == |rest| + 1;
      } else {
        assert gone == rest;
      }
    }
  }

  /**
   * Dropping the positions in `gone` leaves `|s| - |gone|` elements: in order,
   * the elements of `s` at exactly the positions not in `gone`.
   */
  lemma KeepSurvivors<T>(s: seq<T>, gone: set<nat>)
    requires forall i :: i in gone ==> i < |s|
    ensures |Keep(s, Survivors(|s|, gone))| == |LiveIndices(Survivors(|s|, gone))| == |s| - |gone|
    ensures StrictlyIncreasing(LiveIndices(Survivors(|s|, gone)))
    ensures forall i: nat :: i in LiveIndices(Survivors(|s|, gone)) <==> i < |s| && i !in gone
    ensures forall k :: 0 <= k < |Keep(s, Survivors(|s|, gone))| ==>
              LiveIndices(Survivors(|s|, gone))[k] < |s| &&
              Keep(s, Survivors(|s|, gone))[k] == s[LiveIndices(Survivors(|s|, gone))[k]]
  {
    KeepAt(s, Survivors(|s|, gone));
    LiveIndicesExact(Survivors(|s|, gone));
    SurvivorsCount(|s|, gone);
  }
}
