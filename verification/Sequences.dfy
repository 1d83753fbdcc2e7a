/** Concatenation and subsequences. */
module Sequences {

  lemma Regroup<T>(a: seq<T>, b: seq<T>, c: seq<T>)
    ensures (a + b) + c == a + (b + c)
  {
  }

  /** `r` is what `s` holds at the positions `at`, which go up. */
  ghost predicate PicksOut<T>(at: seq<nat>, r: seq<T>, s: seq<T>) {
    && |at| == |r|
    && (forall k :: 0 <= k < |r| ==> at[k] < |s| && s[at[k]] == r[k])
    && (forall j, k :: 0 <= j < k < |r| ==> at[j] < at[k])
  }

  /** Some entries of `s`, in the order in which `s` has them. */
  ghost predicate IsSubsequence<T>(r: seq<T>, s: seq<T>) {
    exists at: seq<nat> :: PicksOut(at, r, s)
  }

  lemma EmptySubsequence<T>(s: seq<T>)
    ensures IsSubsequence([], s)
  {
    assert PicksOut([], [], s);
  }

  /** One more entry at the end, taken or left out. */
  lemma SubsequenceGrows<T>(r: seq<T>, s: seq<T>, x: T)
    requires IsSubsequence(r, s)
    ensures IsSubsequence(r, s + [x]) && IsSubsequence(r + [x], s + [x])
  {
    var at: seq<nat> :| PicksOut(at, r, s);
    assert forall k :: 0 <= k < |r| ==> (s + [x])[at[k]] == s[at[k]];
    assert PicksOut(at, r, s + [x]);
    assert PicksOut(at + [|s|], r + [x], s + [x]);
  }
}
