/**
 * From the split network table to the inputs of the expansion and back:
 * the stoichiometric matrix S of `create_S_from_irreversible_network`, the 0/1
 * reactant and product matrices and the reactant counts of `expand`, the seed
 * vector of `initialize_metabolite_vector`, and the translation of the
 * resulting vectors into compound and reaction ids.
 */
module Matrices {
  import opened Wrappers
  import opened Engine
  import opened Network
  import opened Indexing

  /** A sparse matrix: the entries that were written, by (compound index, reaction index). */
  type Sparse = map<(nat, nat), int>

  /** Every row is directed and its compound and reaction-direction have an index. */
  predicate Indexed(net: Net, cidToIdx: map<string, nat>, ridToIdx: map<RxnKey, nat>)
  {
    forall i :: 0 <= i < |net| ==>
      net[i].dir.Some? && net[i].cid in cidToIdx && (net[i].rn, net[i].dir.value) in ridToIdx
  }

  /** A prefix of an indexed table is indexed. */
  lemma IndexedPrefix(net: Net, cidToIdx: map<string, nat>, ridToIdx: map<RxnKey, nat>, n: nat)
    requires Indexed(net, cidToIdx, ridToIdx) && n <= |net|
    ensures Indexed(net[..n], cidToIdx, ridToIdx)
  {
    forall i | 0 <= i < n ensures net[..n][i] == net[i] { }
  }

  /** The position of a row in S. */
  function Entry(w: Row, cidToIdx: map<string, nat>, ridToIdx: map<RxnKey, nat>): (nat, nat)
    requires w.dir.Some? && w.cid in cidToIdx && (w.rn, w.dir.value) in ridToIdx
  {
    (cidToIdx[w.cid], ridToIdx[(w.rn, w.dir.value)])
  }

  /** S after writing the rows in order: `S[cid_to_idx[c], rid_to_idx[(r, d)]] = s`. */
  function SFromRows(net: Net, cidToIdx: map<string, nat>, ridToIdx: map<RxnKey, nat>): Sparse
    requires Indexed(net, cidToIdx, ridToIdx)
  {
    if net == [] then map[]
    else
      var w := net[|net| - 1];
      SFromRows(net[..|net| - 1], cidToIdx, ridToIdx)[Entry(w, cidToIdx, ridToIdx) := w.s]
  }

  /** The coefficient of the last row for compound c in reaction-direction k, if there is one. */
  function LastCoefficient(net: Net, c: string, k: RxnKey): Option<int>
  {
    if net == [] then None
    else
      var w := net[|net| - 1];
      if w.cid == c && w.dir == Some(k.1) && w.rn == k.0 then Some(w.s)
      else LastCoefficient(net[..|net| - 1], c, k)
  }

  /** Distinct keys have distinct indices. */
  ghost predicate Injective<K>(m: map<K, nat>)
  {
    forall a, b :: a in m && b in m && m[a] == m[b] ==> a == b
  }

  lemma NumberingIsInjective<K>(keys: set<K>, toIdx: map<K, nat>, fromIdx: map<nat, K>)
    requires Numbering(keys, toIdx, fromIdx)
    ensures Injective(toIdx)
  {
  }

  /**
   * Last write wins: the entry of S for compound c and reaction-direction k holds the
   * coefficient of the last row for that pair, and there is none when no row names the pair.
   */
  lemma {:induction false} SEntry(net: Net, cidToIdx: map<string, nat>, ridToIdx: map<RxnKey, nat>, c: string, k: RxnKey)
    requires Indexed(net, cidToIdx, ridToIdx) && Injective(cidToIdx) && Injective(ridToIdx)
    requires c in cidToIdx && k in ridToIdx
    ensures var S := SFromRows(net, cidToIdx, ridToIdx);
      var e := (cidToIdx[c], ridToIdx[k]);
      match LastCoefficient(net, c, k)
      case None => e !in S
      case Some(s) => e in S && S[e] == s
  {
    if net != [] {
      var front := net[..|net| - 1];
      assert Indexed(front, cidToIdx, ridToIdx) by {
        forall i | 0 <= i < |front| ensures front[i] == net[i] { }
      }
      SEntry(front, cidToIdx, ridToIdx, c, k);
    }
  }

  /** Every entry of S lies inside the matrix when the indices are below the dictionary sizes. */
  lemma {:induction false} SBounds(net: Net, cidToIdx: map<string, nat>, ridToIdx: map<RxnKey, nat>, nc: nat, nr: nat)
    requires Indexed(net, cidToIdx, ridToIdx)
    requires forall c :: c in cidToIdx ==> cidToIdx[c] < nc
    requires forall k :: k in ridToIdx ==> ridToIdx[k] < nr
    ensures forall e :: e in SFromRows(net, cidToIdx, ridToIdx) ==> e.0 < nc && e.1 < nr
  {
    if net != [] {
      var front := net[..|net| - 1];
      assert Indexed(front, cidToIdx, ridToIdx) by {
        forall i | 0 <= i < |front| ensures front[i] == net[i] { }
      }
      SBounds(front, cidToIdx, ridToIdx, nc, nr);
    }
  }

  /** `R = (S < 0) * 1`, dense, with rows for the compounds and columns for the reaction-directions. */
  function Reactants(S: Sparse, nc: nat, nr: nat): (R: Matrix)
    ensures Shaped(R, nc, nr)
  {
    seq(nc, c requires 0 <= c < nc => seq(nr, r requires 0 <= r < nr => (c, r) in S && S[(c, r)] < 0))
  }

  /** `P = (S > 0) * 1`. */
  function Products(S: Sparse, nc: nat, nr: nat): (P: Matrix)
    ensures Shaped(P, nc, nr)
  {
    seq(nc, c requires 0 <= c < nc => seq(nr, r requires 0 <= r < nr => (c, r) in S && S[(c, r)] > 0))
  }

  /** An entry of R or P is set exactly when S holds a negative or a positive coefficient there. */
  lemma MatrixEntries(S: Sparse, nc: nat, nr: nat, i: nat, j: nat)
    requires i < nc && j < nr
    ensures Reactants(S, nc, nr)[i][j] <==> (i, j) in S && S[(i, j)] < 0
    ensures Products(S, nc, nr)[i][j] <==> (i, j) in S && S[(i, j)] > 0
  {
  }

  /** The presence vector of a seed set: a bit for every indexed compound of the seed. */
  function SeedVector(seed: set<string>, cidToIdx: map<string, nat>): Vec
  {
    seq(|cidToIdx|, i requires 0 <= i => exists c :: c in seed && c in cidToIdx && cidToIdx[c] == i)
  }

  /** Position i of the seed vector is set exactly when the compound numbered i is in the seed. */
  lemma SeedVectorIff(seed: set<string>, cids: set<string>, cidToIdx: map<string, nat>, idxToCid: map<nat, string>, i: nat)
    requires Numbering(cids, cidToIdx, idxToCid) && i < |cidToIdx|
    ensures |cidToIdx| == |cids|
    ensures i in idxToCid && (SeedVector(seed, cidToIdx)[i] <==> idxToCid[i] in seed)
  {
    assert cidToIdx.Keys == cids;
  }

  // ---------------------------------------------------------------- from vectors back to ids

  lemma {:induction false} CountSnoc(v: Vec, bit: bool)
    ensures Count(v + [bit]) == Count(v) + if bit then 1 else 0
  {
    if v != [] {
      CountSnoc(v[1..], bit);
      assert (v + [bit])[1..] == v[1..] + [bit];
    }
  }

  /** `[idx_to[i] for i in np.nonzero(v)]` (the empty list when the sum is zero). */
  function NonzeroIds<K>(v: Vec, idxTo: map<nat, K>): (ids: seq<K>)
    requires forall i :: 0 <= i < |v| && v[i] ==> i in idxTo
    ensures |ids| == Count(v)
  {
    if v == [] then []
    else
      var front := v[..|v| - 1];
      assert v == front + [v[|v| - 1]];
      CountSnoc(front, v[|v| - 1]);
      NonzeroIds(front, idxTo) + if v[|v| - 1] then [idxTo[|v| - 1]] else []
  }

  /** The ids reported are exactly those numbered by a set position, in increasing position order. */
  lemma {:induction false} NonzeroIdsMembers<K>(v: Vec, idxTo: map<nat, K>)
    requires forall i :: 0 <= i < |v| && v[i] ==> i in idxTo
    ensures forall i :: 0 <= i < |v| && v[i] ==> idxTo[i] in NonzeroIds(v, idxTo)
    ensures forall x :: x in NonzeroIds(v, idxTo) ==> exists i :: 0 <= i < |v| && v[i] && x == idxTo[i]
  {
    if v != [] {
      var front := v[..|v| - 1];
      NonzeroIdsMembers(front, idxTo);
      var ids := NonzeroIds(v, idxTo);
      assert ids == NonzeroIds(front, idxTo) + if v[|v| - 1] then [idxTo[|v| - 1]] else [];
      forall x | x in ids
        ensures exists i :: 0 <= i < |v| && v[i] && x == idxTo[i]
      {
        if x in NonzeroIds(front, idxTo) {
          var i :| 0 <= i < |front| && front[i] && x == idxTo[i];
          assert v[i] == front[i];
        } else {
          assert v[|v| - 1] && x == idxTo[|v| - 1];
        }
      }
      forall i | 0 <= i < |v| && v[i]
        ensures idxTo[i] in ids
      {
        if i < |front| {
          assert front[i] == v[i];
        }
      }
    }
  }

  /** Nothing is reported for the zero vector. */
  lemma NonzeroIdsZeros<K>(n: nat, idxTo: map<nat, K>)
    ensures NonzeroIds(Zeros(n), idxTo) == []
  {
    var ids := NonzeroIds(Zeros(n), idxTo);
    assert Count(Zeros(n)) == 0;
  }

  // ---------------------------------------------------------------- the expansion of a seed set, in ids

  /** What `expand` reports: the final compounds and reactions, and the compounds of every snapshot. */
  datatype Reported = Reported(compounds: seq<string>, reactions: seq<RxnKey>, compoundsList: seq<seq<string>>)

  /** What `expand` returns: what it reports, and a list of reaction ids per snapshot. */
  datatype Expanded = Expanded(reported: Reported, reactionsList: seq<seq<RxnKey>>)

  /** Every row's compound and reaction-direction has an index, and every index below the sizes has an id. */
  ghost predicate Lookups(net: Net, cidToIdx: map<string, nat>, idxToCid: map<nat, string>,
                          ridToIdx: map<RxnKey, nat>, idxToRid: map<nat, RxnKey>)
  {
    && Indexed(net, cidToIdx, ridToIdx)
    && (forall i :: 0 <= i < |cidToIdx| ==> i in idxToCid)
    && (forall i :: 0 <= i < |ridToIdx| ==> i in idxToRid)
  }

  /**
   * The dictionaries number exactly the compounds and the reaction-directions of the split table
   * (the last conjunct, which `NumberingLookups` derives from the others, is kept for the lookups).
   */
  ghost predicate Dictionaries(net: Net, cidToIdx: map<string, nat>, idxToCid: map<nat, string>,
                               ridToIdx: map<RxnKey, nat>, idxToRid: map<nat, RxnKey>)
  {
    && Directed(net)
    && Numbering(Cids(net), cidToIdx, idxToCid)
    && Numbering(Keys(net), ridToIdx, idxToRid)
    && Lookups(net, cidToIdx, idxToCid, ridToIdx, idxToRid)
  }

  /** Numbering the compounds and the reaction-directions of a split table gives every row an index. */
  lemma NumberingLookups(net: Net, cidToIdx: map<string, nat>, idxToCid: map<nat, string>,
                         ridToIdx: map<RxnKey, nat>, idxToRid: map<nat, RxnKey>)
    requires Directed(net)
    requires Numbering(Cids(net), cidToIdx, idxToCid) && Numbering(Keys(net), ridToIdx, idxToRid)
    ensures Lookups(net, cidToIdx, idxToCid, ridToIdx, idxToRid)
    ensures |cidToIdx| == |Cids(net)| && |ridToIdx| == |Keys(net)|
  {
    assert cidToIdx.Keys == Cids(net) && ridToIdx.Keys == Keys(net);
    forall i | 0 <= i < |net|
      ensures net[i].cid in cidToIdx && (net[i].rn, net[i].dir.value) in ridToIdx
    {
      assert net[i].cid in Cids(net);
      assert (net[i].rn, net[i].dir.value) in Keys(net);
    }
  }

  /** The expansion inputs `expand` builds from the table: R, P and b. */
  function Inputs(net: Net, cidToIdx: map<string, nat>, ridToIdx: map<RxnKey, nat>): (rpb: (Matrix, Matrix, seq<int>))
    requires Indexed(net, cidToIdx, ridToIdx)
    ensures Shaped(rpb.0, |cidToIdx|, |ridToIdx|) && Shaped(rpb.1, |cidToIdx|, |ridToIdx|)
    ensures rpb.2 == ColumnSums(rpb.0, |ridToIdx|)
  {
    var S := SFromRows(net, cidToIdx, ridToIdx);
    var R := Reactants(S, |cidToIdx|, |ridToIdx|);
    (R, Products(S, |cidToIdx|, |ridToIdx|), ColumnSums(R, |ridToIdx|))
  }

  /** `[[idx_to[i] for i in np.nonzero(v)] for v in vs]`. */
  function IdsList<K>(vs: seq<Vec>, idxTo: map<nat, K>): (r: seq<seq<K>>)
    requires forall j, i :: 0 <= j < |vs| && 0 <= i < |vs[j]| && vs[j][i] ==> i in idxTo
    ensures |r| == |vs|
    ensures forall j :: 0 <= j < |vs| ==> r[j] == NonzeroIds(vs[j], idxTo)
  {
    seq(|vs|, j requires 0 <= j < |vs| => NonzeroIds(vs[j], idxTo))
  }

  function Xs(t: seq<Snapshot>): seq<Vec>
  {
    seq(|t|, i requires 0 <= i < |t| => t[i].x)
  }

  function Ys(t: seq<Snapshot>): seq<Vec>
  {
    seq(|t|, i requires 0 <= i < |t| => t[i].y)
  }

  /** What `expand(seed, "naive")` reports on a split table. */
  function Outcome(net: Net, seed: set<string>, cidToIdx: map<string, nat>, idxToCid: map<nat, string>,
                   ridToIdx: map<RxnKey, nat>, idxToRid: map<nat, RxnKey>): Reported
    requires Lookups(net, cidToIdx, idxToCid, ridToIdx, idxToRid)
  {
    var rpb := Inputs(net, cidToIdx, ridToIdx);
    Translate(rpb.0, rpb.1, rpb.2, SeedVector(seed, cidToIdx), idxToCid, idxToRid)
  }

  /** What `expand(seed, "naive")` returns on a split table: None where it raises KeyError. */
  function OutcomeReturned(net: Net, seed: set<string>, cidToIdx: map<string, nat>, idxToCid: map<nat, string>,
                           ridToIdx: map<RxnKey, nat>, idxToRid: map<nat, RxnKey>): Option<Expanded>
    requires Lookups(net, cidToIdx, idxToCid, ridToIdx, idxToRid)
  {
    var rpb := Inputs(net, cidToIdx, ridToIdx);
    Returned(rpb.0, rpb.1, rpb.2, SeedVector(seed, cidToIdx), idxToCid, idxToRid)
  }

  /** The final pair of `netExp` on x0 and the compounds of each of its snapshots, read back as ids. */
  function Translate(R: Matrix, P: Matrix, b: seq<int>, x0: Vec, idxToCid: map<nat, string>, idxToRid: map<nat, RxnKey>): Reported
    requires forall i :: 0 <= i < |x0| ==> i in idxToCid
    requires forall i :: 0 <= i < |b| ==> i in idxToRid
  {
    var t := NaiveTrace(R, P, b, x0);
    var e := NaiveExpansion(R, P, b, x0);
    NaiveTraceIndexed(R, P, b, x0, idxToCid, idxToRid);
    Reported(NonzeroIds(e.x, idxToCid), NonzeroIds(e.y, idxToRid), IdsList(Xs(t), idxToCid))
  }

  /** The naive branch of `expand` on x0, with `reactions_list` built as written. */
  function Returned(R: Matrix, P: Matrix, b: seq<int>, x0: Vec, idxToCid: map<nat, string>, idxToRid: map<nat, RxnKey>): Option<Expanded>
    requires forall i :: 0 <= i < |x0| ==> i in idxToCid
    requires forall i :: 0 <= i < |b| ==> i in idxToRid
  {
    match ReactionsListAsWritten(Xs(NaiveTrace(R, P, b, x0)), idxToRid)
    case None => None
    case Some(rl) => Some(Expanded(Translate(R, P, b, x0, idxToCid, idxToRid), rl))
  }

  /** Every set position of every snapshot, and of the final pair, has an id. */
  lemma TraceIndexed(R: Matrix, P: Matrix, b: seq<int>, x0: Vec, idxToCid: map<nat, string>, idxToRid: map<nat, RxnKey>)
    requires forall i :: 0 <= i < |x0| ==> i in idxToCid
    requires forall i :: 0 <= i < |b| ==> i in idxToRid
    ensures var t := Trace(R, P, b, x0);
      && (forall j, i :: 0 <= j < |Xs(t)| && 0 <= i < |Xs(t)[j]| && Xs(t)[j][i] ==> i in idxToCid)
      && (forall j, i :: 0 <= j < |Ys(t)| && 0 <= i < |Ys(t)[j]| && Ys(t)[j][i] ==> i in idxToRid)
    ensures var e := Expansion(R, P, b, x0);
      && (forall i :: 0 <= i < |e.x| ==> i in idxToCid)
      && (forall i :: 0 <= i < |e.y| ==> i in idxToRid)
  {
    var t := Trace(R, P, b, x0);
    TraceShape(R, P, b, x0);
    TraceLast(R, P, b, x0);
    assert t[|t| - 1] == Expansion(R, P, b, x0);
  }

  /**
   * The snapshots of `netExp` have the presence vectors of the zero-started trace, and every
   * set position of its final pair has an id (the as-written initial activation vector sets
   * position 0 only when there is a reaction-direction).
   */
  lemma NaiveTraceIndexed(R: Matrix, P: Matrix, b: seq<int>, x0: Vec, idxToCid: map<nat, string>, idxToRid: map<nat, RxnKey>)
    requires forall i :: 0 <= i < |x0| ==> i in idxToCid
    requires forall i :: 0 <= i < |b| ==> i in idxToRid
    ensures Xs(NaiveTrace(R, P, b, x0)) == Xs(Trace(R, P, b, x0))
    ensures var xs := Xs(NaiveTrace(R, P, b, x0));
      forall j, i :: 0 <= j < |xs| && 0 <= i < |xs[j]| && xs[j][i] ==> i in idxToCid
    ensures var e := NaiveExpansion(R, P, b, x0);
      && (forall i :: 0 <= i < |e.x| ==> i in idxToCid)
      && (forall i :: 0 <= i < |e.y| && e.y[i] ==> i in idxToRid)
  {
    TraceIndexed(R, P, b, x0, idxToCid, idxToRid);
    NaiveAgrees(R, P, b, x0);
    var n, t := NaiveTrace(R, P, b, x0), Trace(R, P, b, x0);
    forall j | 0 <= j < |n|
      ensures n[j].x == t[j].x
    {
      if j > 0 {
        assert n[j] == n[1..][j - 1];
      }
    }
  }

  // ---------------------------------------------------------------- the activation vector of an unexpanded seed

  /** No compound and no reaction is reported. */
  predicate Empty(o: Reported)
  {
    o.compounds == [] && o.reactions == []
  }

  /**
   * An x0 without a set bit reports no compound, but, through the as-written initial
   * activation vector, the reaction-direction numbered 0 whenever there is one;
   * its one snapshot has no compound and `reactions_list` has one empty entry.
   */
  lemma TranslateNothing(R: Matrix, P: Matrix, b: seq<int>, x0: Vec, idxToCid: map<nat, string>, idxToRid: map<nat, RxnKey>)
    requires forall i :: 0 <= i < |x0| ==> i in idxToCid
    requires forall i :: 0 <= i < |b| ==> i in idxToRid
    requires Count(x0) == 0
    ensures var o := Translate(R, P, b, x0, idxToCid, idxToRid);
      && o.compounds == [] && o.compoundsList == [[]]
      && o.reactions == (if |b| > 0 then [idxToRid[0]] else [])
  {
    NaiveUnexpanded(R, P, b, x0);
    InitialActivationIds(|b|, idxToRid);
    UnsetIds(x0, idxToCid);
  }

  /** A presence vector without a set bit names no compound, and its one-snapshot list one empty entry. */
  lemma UnsetIds(x0: Vec, idxToCid: map<nat, string>)
    requires forall i :: 0 <= i < |x0| ==> i in idxToCid
    requires Count(x0) == 0
    ensures NonzeroIds(x0, idxToCid) == []
    ensures forall y :: Xs([Snapshot(x0, y)]) == [x0]
    ensures IdsList([x0], idxToCid) == [[]]
  {
  }

  /** For an x0 without a set bit, `expand` returns what it reports with one empty entry in `reactions_list`. */
  lemma ReturnedNothing(R: Matrix, P: Matrix, b: seq<int>, x0: Vec, idxToCid: map<nat, string>, idxToRid: map<nat, RxnKey>)
    requires forall i :: 0 <= i < |x0| ==> i in idxToCid
    requires forall i :: 0 <= i < |b| ==> i in idxToRid
    requires Count(x0) == 0
    ensures Returned(R, P, b, x0, idxToCid, idxToRid) == Some(Expanded(Translate(R, P, b, x0, idxToCid, idxToRid), [[]]))
  {
    NaiveUnexpanded(R, P, b, x0);
    UnsetIds(x0, idxToCid);
    UnsetReactionsList(x0, idxToRid);
  }

  /** The as-written initial activation vector names the reaction-direction numbered 0, if there is one. */
  lemma InitialActivationIds(n: nat, idxToRid: map<nat, RxnKey>)
    requires forall i :: 0 <= i < n ==> i in idxToRid
    ensures NonzeroIds(InitialActivationAsWritten(n), idxToRid) == if n > 0 then [idxToRid[0]] else []
  {
    var y := InitialActivationAsWritten(n);
    assert y[..0] == [];
    assert NonzeroIds(y[..0], idxToRid) == [];
  }

  /** A snapshot list holding one presence vector without a set bit lists no reaction. */
  lemma UnsetReactionsList(x0: Vec, idxToRid: map<nat, RxnKey>)
    requires Count(x0) == 0
    ensures ReactionsListAsWritten([x0], idxToRid) == Some([[]])
  {
    assert NonzeroIds(x0, idxToRid) == [];
    var xs := [x0];
    assert forall i :: 0 <= i < |xs[0]| && xs[0][i] ==> i in idxToRid;
    assert xs[1..] == [] && ReactionsListAsWritten(xs[1..], idxToRid) == Some([]);
    assert ReactionsListAsWritten(xs, idxToRid) == Some([NonzeroIds(xs[0], idxToRid)] + []);
    assert [NonzeroIds(xs[0], idxToRid)] + [] == [[]];
  }

  /** With a seed vector of zeros, `expand` reports no compound and the reaction-direction numbered 0, if any. */
  lemma ZeroSeedOutcome(net: Net, seed: set<string>, cidToIdx: map<string, nat>, idxToCid: map<nat, string>,
                        ridToIdx: map<RxnKey, nat>, idxToRid: map<nat, RxnKey>)
    requires Lookups(net, cidToIdx, idxToCid, ridToIdx, idxToRid)
    requires Count(SeedVector(seed, cidToIdx)) == 0
    ensures var o := Outcome(net, seed, cidToIdx, idxToCid, ridToIdx, idxToRid);
      o.compounds == [] && o.reactions == (if |ridToIdx| > 0 then [idxToRid[0]] else [])
    ensures OutcomeReturned(net, seed, cidToIdx, idxToCid, ridToIdx, idxToRid)
      == Some(Expanded(Outcome(net, seed, cidToIdx, idxToCid, ridToIdx, idxToRid), [[]]))
  {
    var rpb := Inputs(net, cidToIdx, ridToIdx);
    TranslateNothing(rpb.0, rpb.1, rpb.2, SeedVector(seed, cidToIdx), idxToCid, idxToRid);
    ReturnedNothing(rpb.0, rpb.1, rpb.2, SeedVector(seed, cidToIdx), idxToCid, idxToRid);
  }

  /** A seed without a numbered compound gives the zero vector. */
  lemma SeedVectorDisjoint(seed: set<string>, cids: set<string>, cidToIdx: map<string, nat>, idxToCid: map<nat, string>)
    requires Numbering(cids, cidToIdx, idxToCid) && seed * cids == {}
    ensures Count(SeedVector(seed, cidToIdx)) == 0
  {
    NonzeroIdsZeros(|cidToIdx|, idxToCid);
    var x0 := SeedVector(seed, cidToIdx);
    forall i | 0 <= i < |x0|
      ensures !x0[i]
    {
      SeedVectorIff(seed, cids, cidToIdx, idxToCid, i);
      var c := idxToCid[i];
      assert c in cids;
      assert c !in seed * cids;
    }
    assert x0 == Zeros(|cidToIdx|);
  }

  // ---------------------------------------------------------------- reactions_list

  /**
   * `reactions_list` as written in `expand`: it walks `x_list`, the presence vectors,
   * and looks their compound positions up in `idx_to_rid`; None where that raises KeyError.
   */
  function ReactionsListAsWritten(xs: seq<Vec>, idxToRid: map<nat, RxnKey>): (r: Option<seq<seq<RxnKey>>>)
    ensures r.Some? ==> |r.value| == |xs|
  {
    if xs == [] then Some([])
    else if Numbered(xs[0], idxToRid) then
      match ReactionsListAsWritten(xs[1..], idxToRid)
      case None => None
      case Some(rest) => Some([NonzeroIds(xs[0], idxToRid)] + rest)
    else None
  }

  /** Every set position of v has a reaction id. */
  predicate Numbered(v: Vec, idxToRid: map<nat, RxnKey>)
  {
    forall i :: 0 <= i < |v| && v[i] ==> i in idxToRid
  }

  /** Some compound position of some snapshot has no reaction id. */
  ghost predicate Unnumbered(xs: seq<Vec>, idxToRid: map<nat, RxnKey>)
  {
    exists j :: 0 <= j < |xs| && !Numbered(xs[j], idxToRid)
  }

  /**
   * The as-written list fails exactly when some set compound position of some snapshot has no
   * reaction id, and otherwise holds, per snapshot, the reaction ids numbered by its compound positions.
   */
  lemma {:induction false} ReactionsListAsWrittenIff(xs: seq<Vec>, idxToRid: map<nat, RxnKey>)
    ensures ReactionsListAsWritten(xs, idxToRid).None? <==> Unnumbered(xs, idxToRid)
    ensures var r := ReactionsListAsWritten(xs, idxToRid);
      r.Some? ==> forall j :: 0 <= j < |xs| ==> r.value[j] == NonzeroIds(xs[j], idxToRid)
  {
    if xs != [] {
      ReactionsListAsWrittenIff(xs[1..], idxToRid);
      UnnumberedCons(xs, idxToRid);
      var r := ReactionsListAsWritten(xs, idxToRid);
      if r.Some? {
        forall j | 0 <= j < |xs|
          ensures r.value[j] == NonzeroIds(xs[j], idxToRid)
        {
          if j > 0 {
            assert xs[j] == xs[1..][j - 1];
          }
        }
      }
    }
  }

  /** A list of snapshots has an unnumbered position exactly when its head or its tail has one. */
  lemma UnnumberedCons(xs: seq<Vec>, idxToRid: map<nat, RxnKey>)
    requires xs != []
    ensures Unnumbered(xs, idxToRid) <==> !Numbered(xs[0], idxToRid) || Unnumbered(xs[1..], idxToRid)
  {
    if Unnumbered(xs[1..], idxToRid) {
      var j :| 0 <= j < |xs[1..]| && !Numbered(xs[1..][j], idxToRid);
      assert xs[j + 1] == xs[1..][j];
    }
    if Unnumbered(xs, idxToRid) {
      var j :| 0 <= j < |xs| && !Numbered(xs[j], idxToRid);
      if j > 0 {
        assert xs[j] == xs[1..][j - 1];
      }
    }
  }

  /** Some snapshot holds a compound whose index is at least n. */
  ghost predicate Beyond(xs: seq<Vec>, n: nat)
  {
    exists j, i :: 0 <= j < |xs| && n <= i < |xs[j]| && xs[j][i]
  }

  /** With ids numbered 0 to n - 1, a position has no id exactly when it is at least n. */
  lemma UnnumberedBeyond(xs: seq<Vec>, idxToRid: map<nat, RxnKey>, n: nat)
    requires forall i: nat :: i in idxToRid <==> i < n
    ensures Unnumbered(xs, idxToRid) <==> Beyond(xs, n)
  {
    if Unnumbered(xs, idxToRid) {
      var j :| 0 <= j < |xs| && !Numbered(xs[j], idxToRid);
      var i :| 0 <= i < |xs[j]| && xs[j][i] && i !in idxToRid;
      assert n <= i;
    }
    if Beyond(xs, n) {
      var j, i :| 0 <= j < |xs| && n <= i < |xs[j]| && xs[j][i];
      assert i !in idxToRid;
      assert !Numbered(xs[j], idxToRid);
    }
  }

  /**
   * With reaction ids numbered 0 to |b| - 1, the naive branch of `expand` fails exactly when some
   * snapshot holds a compound whose index is at least the number of reaction-directions; otherwise it
   * returns what it reports, with the reaction ids named by the compound positions of each snapshot.
   */
  lemma ReturnedIff(R: Matrix, P: Matrix, b: seq<int>, x0: Vec, idxToCid: map<nat, string>, idxToRid: map<nat, RxnKey>)
    requires forall i :: 0 <= i < |x0| ==> i in idxToCid
    requires forall i: nat :: i in idxToRid <==> i < |b|
    ensures Returned(R, P, b, x0, idxToCid, idxToRid).None? <==> Beyond(Xs(Trace(R, P, b, x0)), |b|)
    ensures var xs, o := Xs(Trace(R, P, b, x0)), Returned(R, P, b, x0, idxToCid, idxToRid);
      o.Some? ==> && o.value.reported == Translate(R, P, b, x0, idxToCid, idxToRid)
                  && |o.value.reactionsList| == |xs|
                  && forall j :: 0 <= j < |xs| ==> o.value.reactionsList[j] == NonzeroIds(xs[j], idxToRid)
  {
    NaiveTraceIndexed(R, P, b, x0, idxToCid, idxToRid);
    var xs := Xs(Trace(R, P, b, x0));
    ReactionsListAsWrittenIff(xs, idxToRid);
    UnnumberedBeyond(xs, idxToRid, |b|);
  }

  /** Two compounds present and one reaction: the as-written list raises KeyError. */
  lemma ReactionsListAsWrittenFails()
    ensures ReactionsListAsWritten([[true, true]], map[0 := ("R00001", Forward)]).None?
  {
    var one := map[0 := ("R00001", Forward)];
    assert [true, true][1] && 1 !in one;
  }

  /**
   * Compound 0 present and reaction 1 enabled: the as-written list names reaction 0,
   * the list read from the activation vector names reaction 1.
   */
  lemma ReactionsListAsWrittenWrong()
    ensures ReactionsListAsWritten([[true, false]], map[0 := ("R00001", Forward), 1 := ("R00002", Forward)])
      == Some([[("R00001", Forward)]])
    ensures IdsList([[false, true]], map[0 := ("R00001", Forward), 1 := ("R00002", Forward)])
      == [[("R00002", Forward)]]
  {
    var m := map[0 := ("R00001", Forward), 1 := ("R00002", Forward)];
    assert [true, false][..1] == [true];
    assert [false, true][..1] == [false];
    assert [false][..0] == [] && [true][..0] == [];
    assert NonzeroIds([true, false], m) == [("R00001", Forward)];
    assert NonzeroIds([false, true], m) == [("R00002", Forward)];
    assert [[true, false]][1..] == [];
    assert ReactionsListAsWritten([], m) == Some([]);
    assert [[("R00001", Forward)]] == [NonzeroIds([true, false], m)] + [];
  }

  // ---------------------------------------------------------------- the intended result

  /**
   * What the naive branch of `expand` evidently intends: the expansion started from the zero
   * activation vector, and `reactions_list` read from the activation vectors `y_list`.
   */
  function TranslateIntended(R: Matrix, P: Matrix, b: seq<int>, x0: Vec, idxToCid: map<nat, string>, idxToRid: map<nat, RxnKey>): Expanded
    requires forall i :: 0 <= i < |x0| ==> i in idxToCid
    requires forall i :: 0 <= i < |b| ==> i in idxToRid
  {
    var t := Trace(R, P, b, x0);
    var e := Expansion(R, P, b, x0);
    TraceIndexed(R, P, b, x0, idxToCid, idxToRid);
    Expanded(Reported(NonzeroIds(e.x, idxToCid), NonzeroIds(e.y, idxToRid), IdsList(Xs(t), idxToCid)),
             IdsList(Ys(t), idxToRid))
  }

  /**
   * The intended result: an x0 without a set bit reports nothing; `reactions_list` has one entry per
   * snapshot, the first empty, each later one the reaction-directions the previous presence vector
   * enables, the last one the reported reactions.
   */
  lemma TranslateIntendedSpec(R: Matrix, P: Matrix, b: seq<int>, x0: Vec, idxToCid: map<nat, string>, idxToRid: map<nat, RxnKey>)
    requires forall i :: 0 <= i < |x0| ==> i in idxToCid
    requires forall i :: 0 <= i < |b| ==> i in idxToRid
    ensures Count(x0) == 0 ==> Empty(TranslateIntended(R, P, b, x0, idxToCid, idxToRid).reported)
    ensures var t, o := Trace(R, P, b, x0), TranslateIntended(R, P, b, x0, idxToCid, idxToRid);
      && |o.reactionsList| == |t|
      && o.reactionsList[0] == []
      && o.reactionsList[|t| - 1] == o.reported.reactions
      && forall j :: 0 < j < |t| ==> o.reactionsList[j] == NonzeroIds(Enabled(R, b, t[j - 1].x), idxToRid)
  {
    var t := Trace(R, P, b, x0);
    NonzeroIdsZeros(|b|, idxToRid);
    TraceLast(R, P, b, x0);
    forall j | 0 < j < |t|
      ensures t[j].y == Enabled(R, b, t[j - 1].x)
    {
      TraceRule(R, P, b, x0, j);
    }
  }

  /**
   * Once a seed bit is set, `netExp` reports what the intended result reports; its compounds are
   * the intended ones in every case.
   */
  lemma TranslateAgrees(R: Matrix, P: Matrix, b: seq<int>, x0: Vec, idxToCid: map<nat, string>, idxToRid: map<nat, RxnKey>)
    requires forall i :: 0 <= i < |x0| ==> i in idxToCid
    requires forall i :: 0 <= i < |b| ==> i in idxToRid
    ensures var o, i := Translate(R, P, b, x0, idxToCid, idxToRid), TranslateIntended(R, P, b, x0, idxToCid, idxToRid);
      o.compounds == i.reported.compounds && o.compoundsList == i.reported.compoundsList
    ensures Count(x0) > 0 ==> Translate(R, P, b, x0, idxToCid, idxToRid) == TranslateIntended(R, P, b, x0, idxToCid, idxToRid).reported
  {
    NaiveTraceIndexed(R, P, b, x0, idxToCid, idxToRid);
    NaiveAgrees(R, P, b, x0);
  }
}
