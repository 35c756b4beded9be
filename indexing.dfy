/**
 * The index dictionaries of `create_reaction_dicts` and `create_compound_dicts`:
 * `enumerate` over a Python set numbers its elements 0, 1, 2, ... in the set's
 * iteration order, which the model leaves unspecified.
 */
module Indexing {

  /** toIdx and fromIdx are inverse bijections between keys and the positions 0 .. |keys| - 1. */
  ghost predicate Numbering<K>(keys: set<K>, toIdx: map<K, nat>, fromIdx: map<nat, K>)
  {
    && toIdx.Keys == keys
    && (forall i: nat :: i in fromIdx <==> i < |keys|)
    && (forall k :: k in toIdx ==> toIdx[k] < |keys| && toIdx[k] in fromIdx && fromIdx[toIdx[k]] == k)
    && (forall i :: i in fromIdx ==> fromIdx[i] in toIdx && toIdx[fromIdx[i]] == i)
  }

  /** `for v, k in enumerate(keys): to_idx[k] = v; from_idx[v] = k`. */
  method Enumerate<K>(keys: set<K>) returns (toIdx: map<K, nat>, fromIdx: map<nat, K>)
    ensures Numbering(keys, toIdx, fromIdx)
  {
    toIdx, fromIdx := map[], map[];
    var rest := keys;
    var v := 0;
    ghost var done: set<K> := {};
    while rest != {}
      invariant done + rest == keys && done !! rest
      invariant Numbering(done, toIdx, fromIdx) && v == |done|
      decreases rest
    {
      var k :| k in rest;
      NumberingExtend(done, toIdx, fromIdx, k);
      toIdx := toIdx[k := v];
      fromIdx := fromIdx[v := k];
      v := v + 1;
      rest, done := rest - {k}, done + {k};
    }
    assert done == keys;
  }

  /** Giving a new key the next position extends a numbering. */
  lemma NumberingExtend<K>(done: set<K>, toIdx: map<K, nat>, fromIdx: map<nat, K>, k: K)
    requires Numbering(done, toIdx, fromIdx) && k !in done
    ensures |done + {k}| == |done| + 1
    ensures Numbering(done + {k}, toIdx[k := |done|], fromIdx[|done| := k])
  {
  }

  /** Different keys get different positions. */
  lemma NumberingInjective<K>(keys: set<K>, toIdx: map<K, nat>, fromIdx: map<nat, K>, a: K, b: K)
    requires Numbering(keys, toIdx, fromIdx) && a in keys && b in keys
    ensures toIdx[a] == toIdx[b] ==> a == b
  {
  }
}
