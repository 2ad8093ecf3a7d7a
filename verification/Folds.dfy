/**
 Every construction path of the multimap builder is a left-to-right fold of
 `put` over an ordered list of key/value pairs. This module states that fold
 once, for an arbitrary `put`, and proves the facts about it that do not
 depend on what `put` does.
 */
module Folds {

  /** `put` applied to `start` and then to each pair of `pairs`, first pair first. */
  function FoldPuts<S, K, V>(put: (S, K, V) -> S, start: S, pairs: seq<(K, V)>): S
    decreases |pairs|
  {
    if pairs == [] then start
    else
      var last := pairs[|pairs| - 1];
      put(FoldPuts(put, start, pairs[..|pairs| - 1]), last.0, last.1)
  }

  /** Folding over a concatenation is folding over the right part, starting from
      the fold over the left part. */
  lemma {:induction false} FoldPutsConcat<S, K, V>(put: (S, K, V) -> S, start: S, left: seq<(K, V)>, right: seq<(K, V)>)
    ensures FoldPuts(put, start, left + right) == FoldPuts(put, FoldPuts(put, start, left), right)
    decreases |right|
  {
    if right == [] {
      assert left + right == left;
    } else {
      var n := |right| - 1;
      assert (left + right)[..|left + right| - 1] == left + right[..n];
      assert (left + right)[|left + right| - 1] == right[n];
      FoldPutsConcat(put, start, left, right[..n]);
    }
  }

  /** Folding over one more pair is one more `put`. */
  lemma FoldPutsSnoc<S, K, V>(put: (S, K, V) -> S, start: S, pairs: seq<(K, V)>, key: K, value: V)
    ensures FoldPuts(put, start, pairs + [(key, value)]) == put(FoldPuts(put, start, pairs), key, value)
  {
    assert (pairs + [(key, value)])[..|pairs|] == pairs;
  }

  /** A property that every `put` keeps holds after the whole fold. */
  lemma {:induction false} FoldPutsPreserves<S, K, V>(put: (S, K, V) -> S, inv: S -> bool, start: S, pairs: seq<(K, V)>)
    requires forall s, k, v :: inv(s) ==> inv(put(s, k, v))
    requires inv(start)
    ensures inv(FoldPuts(put, start, pairs))
    decreases |pairs|
  {
    if pairs != [] {
      FoldPutsPreserves(put, inv, start, pairs[..|pairs| - 1]);
    }
  }
}
