/**
 * The `GlobalMetabolicNetwork` object: a network table that the pruning
 * operations rewrite in place, the index dictionaries and the matrix S that
 * `expand` stores, and `expand` itself.
 */
module Metabolism {
  import opened Wrappers
  import Text
  import opened Engine
  import opened Network
  import opened Indexing
  import opened Matrices

  /** Why `expand` fails. */
  datatype ExpandError =
    | NoSeedSet         // no seed set: there is no seed vector to expand
    | TraceUnbound      // "cr": `x_list` is only bound by the "naive" branch
    | UnknownAlgorithm  // the ValueError for any other algorithm name
    | ReactionsListKeyError  // "naive": a compound index of `x_list` looked up in `idx_to_rid` has no entry

  class GlobalMetabolicNetwork {
    var network: Net
    var ridToIdx: map<RxnKey, nat>
    var idxToRid: map<nat, RxnKey>
    var cidToIdx: map<string, nat>
    var idxToCid: map<nat, string>
    var S: Sparse

    /** A network over a loaded table, with no dictionaries or matrix yet. */
    constructor (network: Net)
      ensures this.network == network
      ensures ridToIdx == map[] && idxToRid == map[] && cidToIdx == map[] && idxToCid == map[] && S == map[]
    {
      this.network := network;
      ridToIdx, idxToRid := map[], map[];
      cidToIdx, idxToCid := map[], map[];
      S := map[];
    }

    /** `pruneInconsistentReactions`: keep the reactions that do not create or destroy elements. */
    method PruneInconsistentReactions(consistent: set<string>)
      modifies this`network
      ensures network == KeepReactions(old(network), consistent)
    {
      network := KeepReactions(network, consistent);
    }

    /** `pruneUnbalancedReactions`: keep the elementally balanced reactions. */
    method PruneUnbalancedReactions(balanced: set<string>)
      modifies this`network
      ensures network == KeepReactions(old(network), balanced)
    {
      network := KeepReactions(network, balanced);
    }

    /** `subnetwork`: keep the listed reactions. */
    method Subnetwork(rxns: set<string>)
      modifies this`network
      ensures network == KeepReactions(old(network), rxns)
    {
      network := KeepReactions(network, rxns);
    }

    /** `oxygen_indepentend`: keep the reactions without molecular oxygen. */
    method OxygenIndependent()
      modifies this`network
      ensures network == Network.OxygenIndependent(old(network))
    {
      network := Network.OxygenIndependent(network);
    }

    /** `convertToIrreversible`: forward and reverse copies of every row. */
    method ConvertToIrreversible()
      modifies this`network
      ensures network == Network.ConvertToIrreversible(old(network))
      ensures Directed(network)
    {
      network := Network.ConvertToIrreversible(network);
    }

    /** `setMetaboliteBounds`: the same bounds on every row. */
    method SetMetaboliteBounds(ub: real, lb: real)
      modifies this`network
      ensures network == Network.SetMetaboliteBounds(old(network), ub, lb)
    {
      network := Network.SetMetaboliteBounds(network, ub, lb);
    }

    /** `pruneThermodynamicallyInfeasibleReactions`, with the `keepnan` test as written: rows without a free energy always go. */
    method PruneThermodynamicallyInfeasibleReactions(effDG: EffectiveDeltaG, keepNaN: bool)
      requires Directed(network)
      modifies this`network
      ensures network == PruneThermodynamicallyInfeasible(old(network), effDG, keepNaN)
      ensures Directed(network)
    {
      network := PruneThermodynamicallyInfeasible(network, effDG, keepNaN);
      PruneRows(old(network), effDG, keepNaN);
      forall i | 0 <= i < |network|
        ensures network[i].dir.Some?
      {
        assert multiset(network)[network[i]] > 0;
      }
    }

    /** `create_reaction_dicts`: number the reaction-directions of the table. */
    method CreateReactionDicts() returns (toIdx: map<RxnKey, nat>, fromIdx: map<nat, RxnKey>)
      requires Directed(network)
      ensures Numbering(Keys(network), toIdx, fromIdx)
    {
      toIdx, fromIdx := Enumerate(Keys(network));
    }

    /** `create_compound_dicts`: number the compounds of the table. */
    method CreateCompoundDicts() returns (toIdx: map<string, nat>, fromIdx: map<nat, string>)
      ensures Numbering(Cids(network), toIdx, fromIdx)
    {
      toIdx, fromIdx := Enumerate(Cids(network));
    }

    /** `create_S_from_irreversible_network`: write every row's coefficient into S, in row order. */
    method CreateSFromIrreversibleNetwork() returns (s: Sparse)
      requires Indexed(network, cidToIdx, ridToIdx)
      ensures s == SFromRows(network, cidToIdx, ridToIdx)
    {
      s := map[];
      for i := 0 to |network|
        invariant Indexed(network[..i], cidToIdx, ridToIdx)
        invariant s == SFromRows(network[..i], cidToIdx, ridToIdx)
      {
        IndexedPrefix(network, cidToIdx, ridToIdx, i + 1);
        assert network[..i + 1][..i] == network[..i];
        var w := network[i];
        s := s[Entry(w, cidToIdx, ridToIdx) := w.s];
      }
      assert network[..|network|] == network;
    }

    /** `initialize_metabolite_vector`: a bit for every compound of the seed that has an index. */
    method InitializeMetaboliteVector(seed: Option<set<string>>) returns (x0: Option<Vec>)
      requires forall c :: c in cidToIdx ==> cidToIdx[c] < |cidToIdx|
      ensures seed.None? ==> x0.None?
      ensures seed.Some? ==> x0 == Some(SeedVector(seed.value, cidToIdx))
    {
      if seed.None? {
        return None;
      }
      var v := Zeros(|cidToIdx|);
      var todo := seed.value * cidToIdx.Keys;
      ghost var done: set<string> := {};
      while todo != {}
        invariant |v| == |cidToIdx|
        invariant todo + done == seed.value * cidToIdx.Keys && todo !! done
        invariant forall i :: 0 <= i < |v| ==> (v[i] <==> exists c :: c in done && cidToIdx[c] == i)
        decreases todo
      {
        var c :| c in todo;
        v := v[cidToIdx[c] := true];
        todo, done := todo - {c}, done + {c};
      }
      forall i | 0 <= i < |v|
        ensures v[i] == SeedVector(seed.value, cidToIdx)[i]
      {
        if v[i] {
          var c :| c in done && cidToIdx[c] == i;
          assert c in seed.value && c in cidToIdx;
        }
      }
      assert v == SeedVector(seed.value, cidToIdx);
      x0 := Some(v);
    }

    /** `expand(seedSet, algorithm)`: number the table, build S, R, P and b, expand, and translate back to ids. */
    method Expand(seed: Option<set<string>>, algorithm: string) returns (res: Result<Expanded, ExpandError>)
      requires Directed(network)
      modifies this`ridToIdx, this`idxToRid, this`cidToIdx, this`idxToCid, this`S
      ensures Dictionaries(network, cidToIdx, idxToCid, ridToIdx, idxToRid)
      ensures Indexed(network, cidToIdx, ridToIdx) && S == SFromRows(network, cidToIdx, ridToIdx)
      ensures seed.None? ==> res == Err(NoSeedSet)
      ensures seed.Some? && Text.Lower(algorithm) == "naive" ==>
        var o := OutcomeReturned(network, seed.value, cidToIdx, idxToCid, ridToIdx, idxToRid);
        res == if o.Some? then Ok(o.value) else Err(ReactionsListKeyError)
      ensures seed.Some? && Text.Lower(algorithm) == "cr" ==> res == Err(TraceUnbound)
      ensures seed.Some? && Text.Lower(algorithm) != "naive" && Text.Lower(algorithm) != "cr" ==>
        res == Err(UnknownAlgorithm)
    {
      ridToIdx, idxToRid := CreateReactionDicts();
      cidToIdx, idxToCid := CreateCompoundDicts();
      NumberingLookups(network, cidToIdx, idxToCid, ridToIdx, idxToRid);
      S := CreateSFromIrreversibleNetwork();
      assert Dictionaries(network, cidToIdx, idxToCid, ridToIdx, idxToRid);
      var x0 := InitializeMetaboliteVector(seed);
      if x0.None? {
        return Err(NoSeedSet);
      }
      var rpb := Inputs(network, cidToIdx, ridToIdx);
      var alg := Text.Lower(algorithm);
      if alg == "naive" {
        var e := ExpandNaive(rpb.0, rpb.1, rpb.2, x0.value, idxToCid, idxToRid);
        res := if e.Some? then Ok(e.value) else Err(ReactionsListKeyError);
      } else if alg == "cr" {
        var x, y := NetExpCr(rpb.0, rpb.1, x0.value, rpb.2);
        res := Err(TraceUnbound);
      } else {
        res := Err(UnknownAlgorithm);
      }
    }
  }

  /**
   * The "naive" branch of `expand`: run `netExp`, read its vectors back as ids, and build
   * `reactions_list` as written; None where that raises KeyError.
   */
  method ExpandNaive(R: Matrix, P: Matrix, b: seq<int>, x0: Vec, idxToCid: map<nat, string>, idxToRid: map<nat, RxnKey>)
    returns (e: Option<Expanded>)
    requires forall i :: 0 <= i < |x0| ==> i in idxToCid
    requires forall i :: 0 <= i < |b| ==> i in idxToRid
    ensures e == Returned(R, P, b, x0, idxToCid, idxToRid)
  {
    var x, y, xList, yList := NetExp(R, P, x0, b);
    ghost var t := NaiveTrace(R, P, b, x0);
    NaiveTraceIndexed(R, P, b, x0, idxToCid, idxToRid);
    assert xList == Xs(t);
    var compounds := NonzeroIds(x, idxToCid);
    var reactions := NonzeroIds(y, idxToRid);
    var compoundsList := CollectIds(xList, idxToCid);
    var reactionsList := CollectReactionsAsWritten(xList, idxToRid);
    if reactionsList.None? {
      return None;
    }
    e := Some(Expanded(Reported(compounds, reactions, compoundsList), reactionsList.value));
  }

  /**
   * The loop that builds `reactions_list` as written: for every presence vector, the
   * entries of `idx_to_rid` at its set positions; None at the first position without one.
   */
  method CollectReactionsAsWritten(xs: seq<Vec>, idxToRid: map<nat, RxnKey>) returns (r: Option<seq<seq<RxnKey>>>)
    ensures r == ReactionsListAsWritten(xs, idxToRid)
  {
    var acc: seq<seq<RxnKey>> := [];
    for j := 0 to |xs|
      invariant |acc| == j
      invariant forall k :: 0 <= k < j ==> Numbered(xs[k], idxToRid) && acc[k] == NonzeroIds(xs[k], idxToRid)
    {
      var ids := LookUpSetPositions(xs[j], idxToRid);
      if ids.None? {
        assert Unnumbered(xs, idxToRid);
        ReactionsListAsWrittenIff(xs, idxToRid);
        return None;
      }
      acc := acc + [ids.value];
    }
    AllNumbered(xs, idxToRid, acc);
    r := Some(acc);
  }

  /** When every set position has an id, the as-written list is the list of ids of every vector. */
  lemma AllNumbered(xs: seq<Vec>, idxToRid: map<nat, RxnKey>, acc: seq<seq<RxnKey>>)
    requires |acc| == |xs|
    requires forall k :: 0 <= k < |xs| ==> Numbered(xs[k], idxToRid) && acc[k] == NonzeroIds(xs[k], idxToRid)
    ensures ReactionsListAsWritten(xs, idxToRid) == Some(acc)
  {
    ReactionsListAsWrittenIff(xs, idxToRid);
    assert !Unnumbered(xs, idxToRid);
    var w := ReactionsListAsWritten(xs, idxToRid).value;
    assert |w| == |acc|;
    assert forall k :: 0 <= k < |xs| ==> w[k] == acc[k];
    assert w == acc;
  }

  /** `[idx_to_rid[i] for i in np.nonzero(v)]`: None at the first set position without an entry. */
  method LookUpSetPositions(v: Vec, idxToRid: map<nat, RxnKey>) returns (ids: Option<seq<RxnKey>>)
    ensures ids.None? <==> !Numbered(v, idxToRid)
    ensures ids.Some? ==> Numbered(v, idxToRid) && ids.value == NonzeroIds(v, idxToRid)
  {
    var acc: seq<RxnKey> := [];
    for i := 0 to |v|
      invariant forall i' :: 0 <= i' < i && v[i'] ==> i' in idxToRid
      invariant acc == NonzeroIds(v[..i], idxToRid)
    {
      if v[i] {
        if i !in idxToRid {
          return None;
        }
        acc := acc + [idxToRid[i]];
      }
      assert v[..i + 1][..i] == v[..i];
    }
    assert v[..|v|] == v;
    ids := Some(acc);
  }

  /** The loops that build `compounds_list` and `reactions_list`: the ids of every vector, in order. */
  method CollectIds<K>(vs: seq<Vec>, idxTo: map<nat, K>) returns (r: seq<seq<K>>)
    requires forall j, i :: 0 <= j < |vs| && 0 <= i < |vs[j]| && vs[j][i] ==> i in idxTo
    ensures r == IdsList(vs, idxTo)
  {
    r := [];
    for j := 0 to |vs|
      invariant |r| == j && forall k :: 0 <= k < j ==> r[k] == NonzeroIds(vs[k], idxTo)
    {
      r := r + [NonzeroIds(vs[j], idxTo)];
    }
  }
}
