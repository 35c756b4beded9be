/**
 * What `expand` computes, stated on compound ids and reaction-directions: the
 * compounds reached form the smallest set that contains the seed and is
 * closed under the reactions of the network, and a reaction-direction is
 * reported exactly when all its reactants were reached.
 */
module Closure {
  import opened Wrappers
  import opened Engine
  import opened Network
  import opened Indexing
  import opened Matrices

  /** c is a reactant of reaction-direction k: the last row for the pair has a negative coefficient. */
  predicate IsReactant(net: Net, c: string, k: RxnKey)
  {
    LastCoefficient(net, c, k).Some? && LastCoefficient(net, c, k).value < 0
  }

  /** c is a product of reaction-direction k: the last row for the pair has a positive coefficient. */
  predicate IsProduct(net: Net, c: string, k: RxnKey)
  {
    LastCoefficient(net, c, k).Some? && LastCoefficient(net, c, k).value > 0
  }

  /** The compounds of the network that k consumes. */
  ghost function ReactantsOf(net: Net, k: RxnKey): set<string>
  {
    set c | c in Cids(net) && IsReactant(net, c, k)
  }

  /** The compounds of the network that k produces. */
  ghost function ProductsOf(net: Net, k: RxnKey): set<string>
  {
    set c | c in Cids(net) && IsProduct(net, c, k)
  }

  /** Every reactant of k is in X. */
  ghost predicate Feeds(net: Net, X: set<string>, k: RxnKey)
  {
    ReactantsOf(net, k) <= X
  }

  /** X is closed under the network: a reaction-direction whose reactants are in X has its products in X. */
  ghost predicate ClosedSet(net: Net, X: set<string>)
    requires Directed(net)
  {
    forall k :: k in Keys(net) && Feeds(net, X, k) ==> ProductsOf(net, k) <= X
  }

  /** The compounds `expand` reports, as a set. */
  ghost function Reached(o: Reported): set<string>
  {
    set c | c in o.compounds
  }

  /** k is reported in o exactly when it is a reaction-direction of the network that the compounds of o feed. */
  ghost predicate ReportedIffFed(net: Net, o: Reported, k: RxnKey)
    requires Directed(net)
  {
    k in o.reactions <==> k in Keys(net) && Feeds(net, Reached(o), k)
  }

  /** z marks exactly the members of Z among the numbered compounds. */
  ghost predicate Marks(z: Vec, Z: set<string>, toIdx: map<string, nat>)
  {
    forall c :: c in toIdx ==> toIdx[c] < |z| && (z[toIdx[c]] <==> c in Z)
  }

  /** The columns of R and P list the reactants and the products of each reaction-direction. */
  ghost predicate Columns(net: Net, R: Matrix, P: Matrix, cidToIdx: map<string, nat>, ridToIdx: map<RxnKey, nat>)
  {
    forall c, k :: c in cidToIdx && k in ridToIdx ==>
      && cidToIdx[c] < |R| && ridToIdx[k] < |R[cidToIdx[c]]|
      && cidToIdx[c] < |P| && ridToIdx[k] < |P[cidToIdx[c]]|
      && (R[cidToIdx[c]][ridToIdx[k]] <==> c in ReactantsOf(net, k))
      && (P[cidToIdx[c]][ridToIdx[k]] <==> c in ProductsOf(net, k))
  }

  /** One entry of R and of P: the last coefficient written for the pair decides it. */
  lemma EntryMeaning(net: Net, cidToIdx: map<string, nat>, ridToIdx: map<RxnKey, nat>, c: string, k: RxnKey)
    requires Indexed(net, cidToIdx, ridToIdx) && Injective(cidToIdx) && Injective(ridToIdx)
    requires c in cidToIdx && k in ridToIdx && cidToIdx[c] < |cidToIdx| && ridToIdx[k] < |ridToIdx|
    requires c in Cids(net)
    ensures Inputs(net, cidToIdx, ridToIdx).0[cidToIdx[c]][ridToIdx[k]] <==> c in ReactantsOf(net, k)
    ensures Inputs(net, cidToIdx, ridToIdx).1[cidToIdx[c]][ridToIdx[k]] <==> c in ProductsOf(net, k)
  {
    var S := SFromRows(net, cidToIdx, ridToIdx);
    MatrixEntries(S, |cidToIdx|, |ridToIdx|, cidToIdx[c], ridToIdx[k]);
    SEntry(net, cidToIdx, ridToIdx, c, k);
  }

  /** The R and P that `expand` builds list the reactants and products of the table. */
  lemma InputsColumns(net: Net, cidToIdx: map<string, nat>, ridToIdx: map<RxnKey, nat>)
    requires Indexed(net, cidToIdx, ridToIdx) && Injective(cidToIdx) && Injective(ridToIdx)
    requires cidToIdx.Keys == Cids(net)
    requires forall c :: c in cidToIdx ==> cidToIdx[c] < |cidToIdx|
    requires forall k :: k in ridToIdx ==> ridToIdx[k] < |ridToIdx|
    ensures var rpb := Inputs(net, cidToIdx, ridToIdx);
      Built(net, rpb.0, rpb.1, rpb.2, cidToIdx, ridToIdx)
  {
    var rpb := Inputs(net, cidToIdx, ridToIdx);
    forall c, k | c in cidToIdx && k in ridToIdx
      ensures cidToIdx[c] < |rpb.0| && ridToIdx[k] < |rpb.0[cidToIdx[c]]|
      ensures cidToIdx[c] < |rpb.1| && ridToIdx[k] < |rpb.1[cidToIdx[c]]|
      ensures rpb.0[cidToIdx[c]][ridToIdx[k]] <==> c in ReactantsOf(net, k)
      ensures rpb.1[cidToIdx[c]][ridToIdx[k]] <==> c in ProductsOf(net, k)
    {
      EntryMeaning(net, cidToIdx, ridToIdx, c, k);
    }
  }

  /**
   * When column r of M marks the set A and z marks Z, all of column r's
   * compounds are present in z exactly when A lies inside Z.
   */
  lemma ColumnPresent(M: Matrix, z: Vec, r: nat, n: nat, cids: set<string>, toIdx: map<string, nat>,
                      fromIdx: map<nat, string>, A: set<string>, Z: set<string>)
    requires Numbering(cids, toIdx, fromIdx) && |z| == |cids| && Shaped(M, |z|, n) && r < n
    requires A <= cids && Marks(z, Z, toIdx)
    requires forall c :: c in toIdx ==> (M[toIdx[c]][r] <==> c in A)
    ensures AllPresent(M, z, r) <==> A <= Z
  {
    if AllPresent(M, z, r) {
      forall c | c in A
        ensures c in Z
      {
        assert M[toIdx[c]][r];
      }
    }
    if A <= Z {
      forall i | 0 <= i < |z| && i < |M| && r < |M[i]| && M[i][r]
        ensures z[i]
      {
        assert i in fromIdx;
        var c := fromIdx[i];
        assert toIdx[c] == i;
      }
    }
  }

  /**
   * For a vector x that marks the set X: column k of R is fully present in x
   * exactly when X feeds k, and column k of P exactly when X holds k's products.
   */
  lemma KeyPresent(net: Net, R: Matrix, P: Matrix, n: nat, cidToIdx: map<string, nat>, idxToCid: map<nat, string>,
                   ridToIdx: map<RxnKey, nat>, k: RxnKey, x: Vec, X: set<string>)
    requires Numbering(Cids(net), cidToIdx, idxToCid) && Columns(net, R, P, cidToIdx, ridToIdx)
    requires |x| == |Cids(net)| && Shaped(R, |x|, n) && Shaped(P, |x|, n) && Marks(x, X, cidToIdx)
    requires k in ridToIdx && ridToIdx[k] < n
    ensures AllPresent(R, x, ridToIdx[k]) <==> Feeds(net, X, k)
    ensures AllPresent(P, x, ridToIdx[k]) <==> ProductsOf(net, k) <= X
  {
    ColumnPresent(R, x, ridToIdx[k], n, Cids(net), cidToIdx, idxToCid, ReactantsOf(net, k), X);
    ColumnPresent(P, x, ridToIdx[k], n, Cids(net), cidToIdx, idxToCid, ProductsOf(net, k), X);
  }

  /** A set that a closed presence vector marks is closed under the network. */
  lemma MarkedClosed(net: Net, R: Matrix, P: Matrix, n: nat, cidToIdx: map<string, nat>, idxToCid: map<nat, string>,
                     ridToIdx: map<RxnKey, nat>, x: Vec, X: set<string>)
    requires Directed(net) && ridToIdx.Keys == Keys(net) && forall k :: k in ridToIdx ==> ridToIdx[k] < n
    requires Numbering(Cids(net), cidToIdx, idxToCid) && Columns(net, R, P, cidToIdx, ridToIdx)
    requires |x| == |Cids(net)| && Shaped(R, |x|, n) && Shaped(P, |x|, n) && Marks(x, X, cidToIdx)
    requires Closed(R, P, x, n)
    ensures ClosedSet(net, X)
  {
    forall k | k in Keys(net) && Feeds(net, X, k)
      ensures ProductsOf(net, k) <= X
    {
      KeyPresent(net, R, P, n, cidToIdx, idxToCid, ridToIdx, k, x, X);
    }
  }

  /** A presence vector that marks a closed set is closed. */
  lemma ClosedMarked(net: Net, R: Matrix, P: Matrix, cidToIdx: map<string, nat>, idxToCid: map<nat, string>,
                     ridToIdx: map<RxnKey, nat>, idxToRid: map<nat, RxnKey>, z: Vec, Z: set<string>)
    requires Directed(net) && Numbering(Keys(net), ridToIdx, idxToRid)
    requires Numbering(Cids(net), cidToIdx, idxToCid) && Columns(net, R, P, cidToIdx, ridToIdx)
    requires |z| == |Cids(net)| && Shaped(R, |z|, |Keys(net)|) && Shaped(P, |z|, |Keys(net)|) && Marks(z, Z, cidToIdx)
    requires ClosedSet(net, Z)
    ensures Closed(R, P, z, |Keys(net)|)
  {
    forall r | 0 <= r < |Keys(net)| && AllPresent(R, z, r)
      ensures AllPresent(P, z, r)
    {
      var k := idxToRid[r];
      KeyPresent(net, R, P, |Keys(net)|, cidToIdx, idxToCid, ridToIdx, k, z, Z);
    }
  }

  /**
   * Once a seed bit is set, the compounds reported are the numbered compounds whose bit the
   * final x holds; likewise the reactions.
   */
  lemma TranslateMarks(R: Matrix, P: Matrix, b: seq<int>, x0: Vec, cids: set<string>, cidToIdx: map<string, nat>,
                       idxToCid: map<nat, string>, keys: set<RxnKey>, ridToIdx: map<RxnKey, nat>, idxToRid: map<nat, RxnKey>)
    requires Numbering(cids, cidToIdx, idxToCid) && Numbering(keys, ridToIdx, idxToRid)
    requires |x0| == |cids| && |b| == |keys| && Shaped(R, |x0|, |b|) && Count(x0) > 0
    ensures (forall i :: 0 <= i < |x0| ==> i in idxToCid) && (forall i :: 0 <= i < |b| ==> i in idxToRid)
    ensures var e := Expansion(R, P, b, x0);
      var o := Translate(R, P, b, x0, idxToCid, idxToRid);
      && Reached(o) <= cids && |e.x| == |cids| && Marks(e.x, Reached(o), cidToIdx)
      && |e.y| == |keys|
      && (forall k :: k in o.reactions <==> k in keys && e.y[ridToIdx[k]])
  {
    var e := Expansion(R, P, b, x0);
    TraceIndexed(R, P, b, x0, idxToCid, idxToRid);
    NonzeroIdsMembers(e.x, idxToCid);
    NonzeroIdsMembers(e.y, idxToRid);
  }

  /** The seed vector marks the seed. */
  lemma SeedMarks(seed: set<string>, cids: set<string>, cidToIdx: map<string, nat>, idxToCid: map<nat, string>)
    requires Numbering(cids, cidToIdx, idxToCid)
    ensures |SeedVector(seed, cidToIdx)| == |cids| && Marks(SeedVector(seed, cidToIdx), seed, cidToIdx)
  {
    forall c | c in cidToIdx
      ensures SeedVector(seed, cidToIdx)[cidToIdx[c]] <==> c in seed
    {
      SeedVectorIff(seed, cids, cidToIdx, idxToCid, cidToIdx[c]);
    }
  }

  /** A seed with a compound of the network sets a bit of the seed vector. */
  lemma SeedNonzero(net: Net, seed: set<string>, cidToIdx: map<string, nat>, idxToCid: map<nat, string>)
    requires Numbering(Cids(net), cidToIdx, idxToCid) && seed * Cids(net) != {}
    ensures Count(SeedVector(seed, cidToIdx)) > 0
  {
    var c :| c in seed * Cids(net);
    var x0 := SeedVector(seed, cidToIdx);
    assert x0[cidToIdx[c]];
  }

  /** R, P and b have the shapes of the numbering, b counts the reactants, and the columns list reactants and products. */
  ghost predicate Built(net: Net, R: Matrix, P: Matrix, b: seq<int>, cidToIdx: map<string, nat>, ridToIdx: map<RxnKey, nat>)
  {
    && |b| == |ridToIdx| && Shaped(R, |cidToIdx|, |b|) && Shaped(P, |cidToIdx|, |b|)
    && b == ColumnSums(R, |b|)
    && Columns(net, R, P, cidToIdx, ridToIdx)
  }

  /** Everything the closure argument needs about the inputs of one expansion. */
  ghost predicate Frame(net: Net, R: Matrix, P: Matrix, b: seq<int>, cidToIdx: map<string, nat>,
                        idxToCid: map<nat, string>, ridToIdx: map<RxnKey, nat>, idxToRid: map<nat, RxnKey>)
  {
    && Directed(net)
    && Numbering(Cids(net), cidToIdx, idxToCid) && Numbering(Keys(net), ridToIdx, idxToRid)
    && |cidToIdx| == |Cids(net)| && |ridToIdx| == |Keys(net)|
    && Built(net, R, P, b, cidToIdx, ridToIdx)
  }

  /** The inputs `expand` builds from numbered dictionaries satisfy the frame. */
  lemma InputsFrame(net: Net, cidToIdx: map<string, nat>, idxToCid: map<nat, string>,
                    ridToIdx: map<RxnKey, nat>, idxToRid: map<nat, RxnKey>)
    requires Dictionaries(net, cidToIdx, idxToCid, ridToIdx, idxToRid)
    ensures Indexed(net, cidToIdx, ridToIdx)
    ensures var rpb := Inputs(net, cidToIdx, ridToIdx);
      Frame(net, rpb.0, rpb.1, rpb.2, cidToIdx, idxToCid, ridToIdx, idxToRid)
  {
    NumberingLookups(net, cidToIdx, idxToCid, ridToIdx, idxToRid);
    NumberingIsInjective(Cids(net), cidToIdx, idxToCid);
    NumberingIsInjective(Keys(net), ridToIdx, idxToRid);
    InputsColumns(net, cidToIdx, ridToIdx);
  }

  /** The compounds reached from a nonempty x0 are closed under the network. */
  lemma FrameClosed(net: Net, R: Matrix, P: Matrix, b: seq<int>, x0: Vec, cidToIdx: map<string, nat>,
                    idxToCid: map<nat, string>, ridToIdx: map<RxnKey, nat>, idxToRid: map<nat, RxnKey>)
    requires Frame(net, R, P, b, cidToIdx, idxToCid, ridToIdx, idxToRid)
    requires |x0| == |Cids(net)| && Count(x0) > 0
    ensures (forall i :: 0 <= i < |x0| ==> i in idxToCid) && (forall i :: 0 <= i < |b| ==> i in idxToRid)
    ensures ClosedSet(net, Reached(Translate(R, P, b, x0, idxToCid, idxToRid)))
  {
    TranslateMarks(R, P, b, x0, Cids(net), cidToIdx, idxToCid, Keys(net), ridToIdx, idxToRid);
    ExpansionClosed(R, P, b, x0);
    MarkedClosed(net, R, P, |b|, cidToIdx, idxToCid, ridToIdx, Expansion(R, P, b, x0).x,
                 Reached(Translate(R, P, b, x0, idxToCid, idxToRid)));
  }

  /** The compounds reached are closed under the reactions of the network. */
  lemma OutcomeClosed(net: Net, seed: set<string>, cidToIdx: map<string, nat>, idxToCid: map<nat, string>,
                      ridToIdx: map<RxnKey, nat>, idxToRid: map<nat, RxnKey>)
    requires Dictionaries(net, cidToIdx, idxToCid, ridToIdx, idxToRid) && seed * Cids(net) != {}
    ensures ClosedSet(net, Reached(Outcome(net, seed, cidToIdx, idxToCid, ridToIdx, idxToRid)))
  {
    InputsFrame(net, cidToIdx, idxToCid, ridToIdx, idxToRid);
    SeedNonzero(net, seed, cidToIdx, idxToCid);
    var rpb := Inputs(net, cidToIdx, ridToIdx);
    FrameClosed(net, rpb.0, rpb.1, rpb.2, SeedVector(seed, cidToIdx), cidToIdx, idxToCid, ridToIdx, idxToRid);
  }

  /** The compounds reached from x0, which marks S, hold the numbered part of S and lie among the numbered compounds. */
  lemma FrameBounds(net: Net, R: Matrix, P: Matrix, b: seq<int>, x0: Vec, S: set<string>, cidToIdx: map<string, nat>,
                    idxToCid: map<nat, string>, ridToIdx: map<RxnKey, nat>, idxToRid: map<nat, RxnKey>)
    requires Frame(net, R, P, b, cidToIdx, idxToCid, ridToIdx, idxToRid)
    requires |x0| == |Cids(net)| && Count(x0) > 0 && Marks(x0, S, cidToIdx)
    ensures (forall i :: 0 <= i < |x0| ==> i in idxToCid) && (forall i :: 0 <= i < |b| ==> i in idxToRid)
    ensures S * Cids(net) <= Reached(Translate(R, P, b, x0, idxToCid, idxToRid)) <= Cids(net)
  {
    TranslateMarks(R, P, b, x0, Cids(net), cidToIdx, idxToCid, Keys(net), ridToIdx, idxToRid);
    ExpansionClosure(R, P, b, x0);
    var x := Expansion(R, P, b, x0).x;
    forall c | c in S * Cids(net)
      ensures c in Reached(Translate(R, P, b, x0, idxToCid, idxToRid))
    {
      assert x0[cidToIdx[c]];
      assert x[cidToIdx[c]];
    }
  }

  /** The compounds reached from x0, which marks S, lie inside every closed set holding the numbered part of S. */
  lemma FrameLeast(net: Net, R: Matrix, P: Matrix, b: seq<int>, x0: Vec, S: set<string>, cidToIdx: map<string, nat>,
                   idxToCid: map<nat, string>, ridToIdx: map<RxnKey, nat>, idxToRid: map<nat, RxnKey>, Z: set<string>)
    requires Frame(net, R, P, b, cidToIdx, idxToCid, ridToIdx, idxToRid)
    requires |x0| == |Cids(net)| && Count(x0) > 0 && Marks(x0, S, cidToIdx)
    requires S * Cids(net) <= Z && ClosedSet(net, Z)
    ensures (forall i :: 0 <= i < |x0| ==> i in idxToCid) && (forall i :: 0 <= i < |b| ==> i in idxToRid)
    ensures Reached(Translate(R, P, b, x0, idxToCid, idxToRid)) <= Z
  {
    TranslateMarks(R, P, b, x0, Cids(net), cidToIdx, idxToCid, Keys(net), ridToIdx, idxToRid);
    var z := SeedVector(Z, cidToIdx);
    SeedMarks(Z, Cids(net), cidToIdx, idxToCid);
    ClosedMarked(net, R, P, cidToIdx, idxToCid, ridToIdx, idxToRid, z, Z);
    assert Below(x0, z) by {
      forall i | 0 <= i < |x0| && x0[i]
        ensures z[i]
      {
        var c := idxToCid[i];
        assert cidToIdx[c] == i;
      }
    }
    ExpansionClosure(R, P, b, x0);
    var x := Expansion(R, P, b, x0).x;
    forall c | c in Reached(Translate(R, P, b, x0, idxToCid, idxToRid))
      ensures c in Z
    {
      assert x[cidToIdx[c]];
    }
  }

  /** A reaction-direction is reported exactly when it is numbered and the compounds reached feed it. */
  lemma FrameReactions(net: Net, R: Matrix, P: Matrix, b: seq<int>, x0: Vec, cidToIdx: map<string, nat>,
                       idxToCid: map<nat, string>, ridToIdx: map<RxnKey, nat>, idxToRid: map<nat, RxnKey>, k: RxnKey)
    requires Frame(net, R, P, b, cidToIdx, idxToCid, ridToIdx, idxToRid)
    requires |x0| == |Cids(net)| && Count(x0) > 0
    ensures (forall i :: 0 <= i < |x0| ==> i in idxToCid) && (forall i :: 0 <= i < |b| ==> i in idxToRid)
    ensures ReportedIffFed(net, Translate(R, P, b, x0, idxToCid, idxToRid), k)
  {
    TranslateMarks(R, P, b, x0, Cids(net), cidToIdx, idxToCid, Keys(net), ridToIdx, idxToRid);
    ExpansionClosure(R, P, b, x0);
    if k in Keys(net) {
      var x := Expansion(R, P, b, x0).x;
      KeyPresent(net, R, P, |b|, cidToIdx, idxToCid, ridToIdx, k, x, Reached(Translate(R, P, b, x0, idxToCid, idxToRid)));
    }
  }

  /** The compounds reached hold every seed compound of the network and nothing outside the network. */
  lemma OutcomeBounds(net: Net, seed: set<string>, cidToIdx: map<string, nat>, idxToCid: map<nat, string>,
                      ridToIdx: map<RxnKey, nat>, idxToRid: map<nat, RxnKey>)
    requires Dictionaries(net, cidToIdx, idxToCid, ridToIdx, idxToRid) && seed * Cids(net) != {}
    ensures seed * Cids(net) <= Reached(Outcome(net, seed, cidToIdx, idxToCid, ridToIdx, idxToRid)) <= Cids(net)
  {
    InputsFrame(net, cidToIdx, idxToCid, ridToIdx, idxToRid);
    SeedNonzero(net, seed, cidToIdx, idxToCid);
    SeedMarks(seed, Cids(net), cidToIdx, idxToCid);
    var rpb := Inputs(net, cidToIdx, ridToIdx);
    FrameBounds(net, rpb.0, rpb.1, rpb.2, SeedVector(seed, cidToIdx), seed, cidToIdx, idxToCid, ridToIdx, idxToRid);
  }

  /** The compounds reached lie inside every closed set that holds the seed compounds of the network. */
  lemma OutcomeLeast(net: Net, seed: set<string>, cidToIdx: map<string, nat>, idxToCid: map<nat, string>,
                     ridToIdx: map<RxnKey, nat>, idxToRid: map<nat, RxnKey>, Z: set<string>)
    requires Dictionaries(net, cidToIdx, idxToCid, ridToIdx, idxToRid) && seed * Cids(net) != {}
    requires seed * Cids(net) <= Z && ClosedSet(net, Z)
    ensures Reached(Outcome(net, seed, cidToIdx, idxToCid, ridToIdx, idxToRid)) <= Z
  {
    InputsFrame(net, cidToIdx, idxToCid, ridToIdx, idxToRid);
    SeedNonzero(net, seed, cidToIdx, idxToCid);
    SeedMarks(seed, Cids(net), cidToIdx, idxToCid);
    var rpb := Inputs(net, cidToIdx, ridToIdx);
    FrameLeast(net, rpb.0, rpb.1, rpb.2, SeedVector(seed, cidToIdx), seed, cidToIdx, idxToCid, ridToIdx, idxToRid, Z);
  }

  /** A reaction-direction is reported exactly when it belongs to the network and all its reactants were reached. */
  lemma OutcomeReactions(net: Net, seed: set<string>, cidToIdx: map<string, nat>, idxToCid: map<nat, string>,
                         ridToIdx: map<RxnKey, nat>, idxToRid: map<nat, RxnKey>, k: RxnKey)
    requires Dictionaries(net, cidToIdx, idxToCid, ridToIdx, idxToRid) && seed * Cids(net) != {}
    ensures ReportedIffFed(net, Outcome(net, seed, cidToIdx, idxToCid, ridToIdx, idxToRid), k)
  {
    InputsFrame(net, cidToIdx, idxToCid, ridToIdx, idxToRid);
    SeedNonzero(net, seed, cidToIdx, idxToCid);
    var rpb := Inputs(net, cidToIdx, ridToIdx);
    FrameReactions(net, rpb.0, rpb.1, rpb.2, SeedVector(seed, cidToIdx), cidToIdx, idxToCid, ridToIdx, idxToRid, k);
  }

  /**
   * A seed with no compound of the network reaches nothing, yet `expand` reports the
   * reaction-direction numbered 0 whenever the network has one.
   */
  lemma EmptySeedReportsFirstReaction(net: Net, seed: set<string>, cidToIdx: map<string, nat>, idxToCid: map<nat, string>,
                                      ridToIdx: map<RxnKey, nat>, idxToRid: map<nat, RxnKey>)
    requires Dictionaries(net, cidToIdx, idxToCid, ridToIdx, idxToRid)
    requires seed * Cids(net) == {}
    ensures var o := Outcome(net, seed, cidToIdx, idxToCid, ridToIdx, idxToRid);
      o.compounds == [] && o.reactions == if |ridToIdx| > 0 then [idxToRid[0]] else []
  {
    SeedVectorDisjoint(seed, Cids(net), cidToIdx, idxToCid);
    ZeroSeedOutcome(net, seed, cidToIdx, idxToCid, ridToIdx, idxToRid);
  }

  /** A numbering of a non-empty set numbers one of its members 0. */
  lemma FirstKey<K>(keys: set<K>, toIdx: map<K, nat>, fromIdx: map<nat, K>)
    requires Numbering(keys, toIdx, fromIdx)
    ensures |toIdx| == |keys|
    ensures keys != {} ==> 0 in fromIdx && fromIdx[0] in keys
  {
    assert toIdx.Keys == keys;
    if keys != {} {
      assert 0 < |keys|;
      assert 0 in fromIdx;
      assert fromIdx[0] in toIdx;
    }
  }
}
