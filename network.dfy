/**
 * The network table and the operations that rewrite it: one row per
 * (compound, reaction) with the stoichiometric coefficient, later a direction
 * and concentration bounds.  Pruning keeps the rows of some reactions, the
 * split into irreversible reactions doubles the table, and the ecg loader
 * builds it from a reaction dictionary.
 */
module Network {
  import opened Wrappers
  import Text

  datatype Dir = Forward | Reverse

  /** The `ub` and `lb` columns: concentration bounds in mol/L. */
  datatype Bounds = Bounds(ub: real, lb: real)

  /**
   * One row of the table.  `dir` is absent until the split into irreversible
   * reactions, `bounds` until `setMetaboliteBounds`.
   */
  datatype Row = Row(cid: string, rn: string, dir: Option<Dir>, s: int, bounds: Option<Bounds>)

  type Net = seq<Row>

  /** A reaction-direction: the `(rn, direction)` key the index dictionaries use. */
  type RxnKey = (string, Dir)

  /** Every row carries a direction, as after `convertToIrreversible`. */
  predicate Directed(net: Net)
  {
    forall i :: 0 <= i < |net| ==> net[i].dir.Some?
  }

  function Rns(net: Net): set<string>
  {
    set i | 0 <= i < |net| :: net[i].rn
  }

  function Cids(net: Net): set<string>
  {
    set i | 0 <= i < |net| :: net[i].cid
  }

  /** The reaction-directions present in a split table. */
  function Keys(net: Net): set<RxnKey>
    requires Directed(net)
  {
    set i | 0 <= i < |net| :: (net[i].rn, net[i].dir.value)
  }

  // ---------------------------------------------------------------- boolean row selection

  /** `net[mask]`: the rows satisfying keep, in their order. */
  function Filter(net: Net, keep: Row -> bool): (r: Net)
    ensures |r| <= |net|
  {
    if net == [] then [] else (if keep(net[0]) then [net[0]] else []) + Filter(net[1..], keep)
  }

  /** The selection holds every row satisfying keep as often as the table does, and nothing else. */
  lemma {:induction false} FilterMultiset(net: Net, keep: Row -> bool)
    ensures forall w :: multiset(Filter(net, keep))[w] == if keep(w) then multiset(net)[w] else 0
  {
    if net != [] {
      FilterMultiset(net[1..], keep);
      assert net == [net[0]] + net[1..];
    }
  }

  /** Selection keeps the order: filtering a concatenation filters each part. */
  lemma {:induction false} FilterAppend(a: Net, b: Net, keep: Row -> bool)
    ensures Filter(a + b, keep) == Filter(a, keep) + Filter(b, keep)
  {
    if a == [] {
      assert a + b == b;
    } else {
      FilterAppend(a[1..], b, keep);
      var head := if keep(a[0]) then [a[0]] else [];
      assert (a + b)[0] == a[0] && (a + b)[1..] == a[1..] + b;
      calc {
        Filter(a + b, keep);
        head + Filter(a[1..] + b, keep);
        head + (Filter(a[1..], keep) + Filter(b, keep));
        (head + Filter(a[1..], keep)) + Filter(b, keep);
        Filter(a, keep) + Filter(b, keep);
      }
    }
  }

  /** `network[network.rn.isin(rns)]`: the rows of the listed reactions. */
  function KeepReactions(net: Net, rns: set<string>): Net
  {
    Filter(net, InReactions(rns))
  }

  function InReactions(rns: set<string>): Row -> bool
  {
    (row: Row) => row.rn in rns
  }

  /** Pruning keeps every row of a listed reaction, with its multiplicity, and no other row. */
  lemma KeepReactionsRows(net: Net, rns: set<string>)
    ensures forall w :: multiset(KeepReactions(net, rns))[w] == if w.rn in rns then multiset(net)[w] else 0
  {
    FilterMultiset(net, InReactions(rns));
  }

  /** Pruning by one list and then by another is pruning by their intersection. */
  lemma {:induction false} KeepReactionsTwice(net: Net, a: set<string>, b: set<string>)
    ensures KeepReactions(KeepReactions(net, a), b) == KeepReactions(net, a * b)
  {
    if net != [] {
      KeepReactionsTwice(net[1..], a, b);
      var head := if net[0].rn in a then [net[0]] else [];
      FilterAppend(head, KeepReactions(net[1..], a), InReactions(b));
    }
  }

  /** The reactions left after pruning are those of the table that are in the list. */
  lemma KeepReactionsRns(net: Net, rns: set<string>)
    ensures Rns(KeepReactions(net, rns)) == Rns(net) * rns
  {
    var r := KeepReactions(net, rns);
    KeepReactionsRows(net, rns);
    forall x | x in Rns(net) * rns
      ensures x in Rns(r)
    {
      var i :| 0 <= i < |net| && net[i].rn == x;
      assert multiset(net)[net[i]] > 0;
      assert net[i] in r;
    }
    forall x | x in Rns(r)
      ensures x in Rns(net) * rns
    {
      var i :| 0 <= i < |r| && r[i].rn == x;
      assert multiset(r)[r[i]] > 0;
      assert r[i] in net;
    }
  }

  // ---------------------------------------------------------------- oxygen_indepentend

  const Oxygen: string := "C00007"

  /** The reactions that have a row for molecular oxygen. */
  function OxygenDependent(net: Net): set<string>
  {
    set i | 0 <= i < |net| && net[i].cid == Oxygen :: net[i].rn
  }

  /** `oxygen_indepentend`: drop every reaction in which oxygen takes part, all of its rows. */
  function OxygenIndependent(net: Net): Net
  {
    KeepReactions(net, Rns(net) - OxygenDependent(net))
  }

  /** Exactly the rows of the reactions without an oxygen row survive. */
  lemma OxygenIndependentRows(net: Net)
    ensures forall w :: multiset(OxygenIndependent(net))[w] == if w.rn in OxygenDependent(net) then 0 else multiset(net)[w]
  {
    RnsMembers(net);
    KeepReactionsRows(net, Rns(net) - OxygenDependent(net));
  }

  lemma RnsMembers(net: Net)
    ensures forall w :: w in net ==> w.rn in Rns(net)
  {
    forall w | w in net
      ensures w.rn in Rns(net)
    {
      var i :| 0 <= i < |net| && net[i] == w;
    }
  }

  /** No row of the result mentions oxygen, and the result has no oxygen-dependent reaction left. */
  lemma OxygenIndependentClean(net: Net)
    ensures forall i :: 0 <= i < |OxygenIndependent(net)| ==> OxygenIndependent(net)[i].cid != Oxygen
    ensures OxygenIndependent(OxygenIndependent(net)) == OxygenIndependent(net)
  {
    var r := OxygenIndependent(net);
    OxygenIndependentRows(net);
    forall i | 0 <= i < |r|
      ensures r[i].cid != Oxygen
    {
      assert multiset(r)[r[i]] > 0;
      var j :| 0 <= j < |net| && net[j] == r[i];
    }
    assert OxygenDependent(r) == {};
    FilterAll(r, InReactions(Rns(r) - OxygenDependent(r)));
  }

  /** A selection that keeps every row is the identity. */
  lemma {:induction false} FilterAll(net: Net, keep: Row -> bool)
    requires forall i :: 0 <= i < |net| ==> keep(net[i])
    ensures Filter(net, keep) == net
  {
    if net != [] {
      FilterAll(net[1..], keep);
    }
  }

  // ---------------------------------------------------------------- convertToIrreversible

  /** A row copied into one direction: the reverse copy negates the coefficient. */
  function OrientRow(w: Row, d: Dir): Row
  {
    w.(dir := Some(d), s := if d == Forward then w.s else -w.s)
  }

  function Orient(net: Net, d: Dir): (r: Net)
    ensures |r| == |net| && forall i :: 0 <= i < |net| ==> r[i] == OrientRow(net[i], d)
  {
    if net == [] then [] else [OrientRow(net[0], d)] + Orient(net[1..], d)
  }

  /** `convertToIrreversible`: a forward copy of the table followed by a reverse copy with negated coefficients. */
  function ConvertToIrreversible(net: Net): (r: Net)
    ensures |r| == 2 * |net| && Directed(r)
    ensures forall i :: 0 <= i < |net| ==>
      && r[i] == net[i].(dir := Some(Forward))
      && r[|net| + i] == net[i].(dir := Some(Reverse), s := -net[i].s)
  {
    Orient(net, Forward) + Orient(net, Reverse)
  }

  /** The reverse copy of a row is a reactant exactly where the forward copy is a product. */
  lemma ReverseSwapsRoles(net: Net, i: nat)
    requires i < |net|
    ensures var r := ConvertToIrreversible(net);
      (r[i].s < 0 <==> r[|net| + i].s > 0) && (r[i].s > 0 <==> r[|net| + i].s < 0)
  {
  }

  /** Every reaction of the table gets both of its directions. */
  lemma ConvertToIrreversibleKeys(net: Net)
    ensures Keys(ConvertToIrreversible(net)) == set rn, d: Dir | rn in Rns(net) :: (rn, d)
  {
    var r := ConvertToIrreversible(net);
    forall k | k in Keys(r)
      ensures k.0 in Rns(net)
    {
      var i :| 0 <= i < |r| && k == (r[i].rn, r[i].dir.value);
      if i >= |net| {
        assert r[i].rn == net[i - |net|].rn;
      }
    }
    forall rn, d: Dir | rn in Rns(net)
      ensures (rn, d) in Keys(r)
    {
      var i :| 0 <= i < |net| && net[i].rn == rn;
      var j := if d == Forward then i else |net| + i;
      assert (r[j].rn, r[j].dir.value) == (rn, d);
    }
  }

  /** A selection that looks only at what orienting leaves alone commutes with orienting. */
  lemma {:induction false} FilterOrient(net: Net, keep: Row -> bool, d: Dir)
    requires forall w :: keep(OrientRow(w, d)) == keep(w)
    ensures Filter(Orient(net, d), keep) == Orient(Filter(net, keep), d)
  {
    if net != [] {
      FilterOrient(net[1..], keep, d);
    }
  }

  /** Pruning reactions before or after the split gives the same table. */
  lemma KeepReactionsSplit(net: Net, rns: set<string>)
    ensures KeepReactions(ConvertToIrreversible(net), rns) == ConvertToIrreversible(KeepReactions(net, rns))
  {
    var keep := InReactions(rns);
    FilterAppend(Orient(net, Forward), Orient(net, Reverse), keep);
    FilterOrient(net, keep, Forward);
    FilterOrient(net, keep, Reverse);
  }

  // ---------------------------------------------------------------- setMetaboliteBounds

  /** `setMetaboliteBounds`: every row gets the bounds; nothing else changes. */
  function SetMetaboliteBounds(net: Net, ub: real, lb: real): (r: Net)
    ensures |r| == |net|
    ensures forall i :: 0 <= i < |net| ==>
      r[i].bounds == Some(Bounds(ub, lb)) && r[i].(bounds := net[i].bounds) == net[i]
  {
    seq(|net|, i requires 0 <= i < |net| => net[i].(bounds := Some(Bounds(ub, lb))))
  }

  /** The default bounds of `setMetaboliteBounds`: 0.1 and 1e-6. */
  const DefaultUb: real := 0.1
  const DefaultLb: real := 0.000001

  // ---------------------------------------------------------------- pruneThermodynamicallyInfeasibleReactions

  /**
   * The effective free energy of a reaction-direction, where one could be computed;
   * a missing key stands for NaN (no thermodynamic data for the reaction).
   */
  type EffectiveDeltaG = map<RxnKey, real>

  function DeltaG(effDG: EffectiveDeltaG, k: RxnKey): Option<real>
  {
    if k in effDG then Some(effDG[k]) else None
  }

  /**
   * The survival rule as written: `if ~keepnan: res = res.dropna()` always drops the NaN
   * groups, because `~` of a Python bool is -1 or -2 and both are true.
   */
  function KeepGroupAsWritten(dg: Option<real>, keepNaN: bool): (keep: bool)
    ensures keep <==> dg.Some? && dg.value <= 0.0
  {
    var dropped := dg.None?;  // the NaN rows are dropped whatever keepNaN is
    !dropped && !(dg.value > 0.0)
  }

  /** The flag has no effect: a group without an effective free energy is never kept. */
  lemma KeepNaNIgnored(keepNaN: bool)
    ensures !KeepGroupAsWritten(None, keepNaN)
    ensures forall dg: Option<real> :: KeepGroupAsWritten(dg, true) == KeepGroupAsWritten(dg, false)
  {
  }

  /**
   * The survival rule the `keepnan` flag is meant to give: a group with a free energy survives
   * when it is not positive, and one without survives exactly when keepnan is set.
   */
  function KeepGroup(dg: Option<real>, keepNaN: bool): (keep: bool)
    ensures dg.None? ==> (keep <==> keepNaN)
    ensures dg.Some? ==> (keep <==> dg.value <= 0.0)
  {
    match dg
    case None => keepNaN
    case Some(v) => !(v > 0.0)
  }

  /** With keepnan set, every group the source keeps is still kept, and the NaN groups as well. */
  lemma KeepGroupExtends(dg: Option<real>)
    ensures KeepGroupAsWritten(dg, true) ==> KeepGroup(dg, true)
    ensures KeepGroup(dg, false) == KeepGroupAsWritten(dg, false)
    ensures dg.None? ==> KeepGroup(dg, true) && !KeepGroupAsWritten(dg, true)
  {
  }

  /** The rows of the reaction-directions whose group survives. */
  function PruneThermodynamicallyInfeasible(net: Net, effDG: EffectiveDeltaG, keepNaN: bool): Net
  {
    Filter(net, SurvivesIn(effDG, keepNaN))
  }

  function SurvivesIn(effDG: EffectiveDeltaG, keepNaN: bool): Row -> bool
  {
    (row: Row) => Survives(row, effDG, keepNaN)
  }

  predicate Survives(row: Row, effDG: EffectiveDeltaG, keepNaN: bool)
  {
    row.dir.Some? && KeepGroupAsWritten(DeltaG(effDG, (row.rn, row.dir.value)), keepNaN)
  }

  /** Exactly the rows of the surviving reaction-directions are kept, each as often as in the table. */
  lemma PruneRows(net: Net, effDG: EffectiveDeltaG, keepNaN: bool)
    ensures var r := PruneThermodynamicallyInfeasible(net, effDG, keepNaN);
      forall w :: multiset(r)[w] == if Survives(w, effDG, keepNaN) then multiset(net)[w] else 0
  {
    FilterMultiset(net, SurvivesIn(effDG, keepNaN));
  }

  /** Whole reaction-directions are kept or dropped: two rows with the same key share their fate. */
  lemma PruneKeepsWholeGroups(net: Net, effDG: EffectiveDeltaG, keepNaN: bool, i: nat, j: nat)
    requires Directed(net) && i < |net| && j < |net|
    requires net[i].rn == net[j].rn && net[i].dir == net[j].dir
    ensures var r := PruneThermodynamicallyInfeasible(net, effDG, keepNaN);
      net[i] in r <==> net[j] in r
  {
    var r := PruneThermodynamicallyInfeasible(net, effDG, keepNaN);
    PruneRows(net, effDG, keepNaN);
    assert multiset(net)[net[i]] > 0 && multiset(net)[net[j]] > 0;
    assert net[i] in r <==> multiset(r)[net[i]] > 0;
    assert net[j] in r <==> multiset(r)[net[j]] > 0;
  }

  /** Whatever keepnan says, every surviving reaction-direction has a free energy, and it is not positive. */
  lemma PruneSurvivorsFeasible(net: Net, effDG: EffectiveDeltaG, keepNaN: bool)
    requires Directed(net)
    ensures var r := PruneThermodynamicallyInfeasible(net, effDG, keepNaN);
      Directed(r) && forall k :: k in Keys(r) ==> k in effDG && effDG[k] <= 0.0
  {
    var r := PruneThermodynamicallyInfeasible(net, effDG, keepNaN);
    PruneRows(net, effDG, keepNaN);
    forall i | 0 <= i < |r|
      ensures r[i].dir.Some? && (r[i].rn, r[i].dir.value) in effDG && effDG[(r[i].rn, r[i].dir.value)] <= 0.0
    {
      assert multiset(r)[r[i]] > 0;
    }
  }

  /** The prune does not depend on keepnan. */
  lemma PruneIgnoresKeepNaN(net: Net, effDG: EffectiveDeltaG)
    ensures PruneThermodynamicallyInfeasible(net, effDG, true) == PruneThermodynamicallyInfeasible(net, effDG, false)
  {
    KeepNaNIgnored(true);
    FilterSame(net, SurvivesIn(effDG, true), SurvivesIn(effDG, false));
  }

  // ---------------------------------------------------------------- isRxnCoenzymeCoupled

  /** The sum of the `s` column. */
  function SumS(rows: Net): int
  {
    if rows == [] then 0 else rows[0].s + SumS(rows[1..])
  }

  lemma {:induction false} SumSAppend(a: Net, b: Net)
    ensures SumS(a + b) == SumS(a) + SumS(b)
  {
    if a == [] {
      assert a + b == b;
    } else {
      SumSAppend(a[1..], b);
      assert (a + b)[0] == a[0] && (a + b)[1..] == a[1..] + b;
    }
  }

  lemma {:induction false} SumSOrient(rows: Net, d: Dir)
    ensures SumS(Orient(rows, d)) == if d == Forward then SumS(rows) else -SumS(rows)
  {
    if rows != [] {
      SumSOrient(rows[1..], d);
    }
  }

  /** The rows of a reaction for either compound of the pair. */
  function PairRows(rxn: Net, cosubstrate: string, coproduct: string): Net
  {
    Filter(rxn, ForPair(cosubstrate, coproduct))
  }

  function ForPair(cosubstrate: string, coproduct: string): Row -> bool
  {
    (row: Row) => row.cid == cosubstrate || row.cid == coproduct
  }

  /**
   * `isRxnCoenzymeCoupled`: more than one row of the reaction is for the pair,
   * and their coefficients sum to zero.
   */
  function IsRxnCoenzymeCoupled(rxn: Net, cosubstrate: string, coproduct: string): (coupled: bool)
    ensures coupled <==> |PairRows(rxn, cosubstrate, coproduct)| >= 2 && SumS(PairRows(rxn, cosubstrate, coproduct)) == 0
  {
    var g := PairRows(rxn, cosubstrate, coproduct);
    |g| > 1 && SumS(g) == 0
  }

  /** The test does not depend on which compound of the pair is named first. */
  lemma CoupledSymmetric(rxn: Net, cosubstrate: string, coproduct: string)
    ensures IsRxnCoenzymeCoupled(rxn, cosubstrate, coproduct) == IsRxnCoenzymeCoupled(rxn, coproduct, cosubstrate)
  {
    FilterSame(rxn, ForPair(cosubstrate, coproduct), ForPair(coproduct, cosubstrate));
  }

  lemma {:induction false} FilterSame(net: Net, p: Row -> bool, q: Row -> bool)
    requires forall w :: p(w) == q(w)
    ensures Filter(net, p) == Filter(net, q)
  {
    if net != [] {
      FilterSame(net[1..], p, q);
    }
  }

  /**
   * Once the table is split, every reaction that touches the pair at all counts as coupled:
   * the forward and reverse copies of its rows cancel.
   */
  lemma SplitReactionCoupled(rxn: Net, cosubstrate: string, coproduct: string)
    requires exists i :: 0 <= i < |rxn| && (rxn[i].cid == cosubstrate || rxn[i].cid == coproduct)
    ensures IsRxnCoenzymeCoupled(ConvertToIrreversible(rxn), cosubstrate, coproduct)
  {
    var g := PairRows(rxn, cosubstrate, coproduct);
    PairRowsSplit(rxn, cosubstrate, coproduct);
    SumSAppend(Orient(g, Forward), Orient(g, Reverse));
    SumSOrient(g, Forward);
    SumSOrient(g, Reverse);
    var i :| 0 <= i < |rxn| && (rxn[i].cid == cosubstrate || rxn[i].cid == coproduct);
    FilterKeeps(rxn, ForPair(cosubstrate, coproduct), i);
  }

  /** The pair's rows of the split reaction are the forward and the reverse copies of its own pair rows. */
  lemma PairRowsSplit(rxn: Net, cosubstrate: string, coproduct: string)
    ensures var g := PairRows(rxn, cosubstrate, coproduct);
      PairRows(ConvertToIrreversible(rxn), cosubstrate, coproduct) == Orient(g, Forward) + Orient(g, Reverse)
  {
    var keep := ForPair(cosubstrate, coproduct);
    FilterAppend(Orient(rxn, Forward), Orient(rxn, Reverse), keep);
    FilterOrient(rxn, keep, Forward);
    FilterOrient(rxn, keep, Reverse);
  }

  /** A row satisfying keep makes the selection non-empty. */
  lemma FilterKeeps(net: Net, keep: Row -> bool, i: nat)
    requires i < |net| && keep(net[i])
    ensures |Filter(net, keep)| >= 1
  {
    FilterMultiset(net, keep);
    assert multiset(net)[net[i]] > 0;
    assert multiset(Filter(net, keep))[net[i]] > 0;
  }

  // ---------------------------------------------------------------- load_ecg_network

  /** A JSON value where a stoichiometric coefficient is expected. */
  datatype Json = JNumber(n: int) | JString(text: string) | JNull

  /** One entry of the ecg `reactions` dictionary. */
  datatype EcgReaction = EcgReaction(
    rid: string,
    left: seq<string>, right: seq<string>,
    leftStoichiometries: seq<Json>, rightStoichiometries: seq<Json>,
    elementConservation: bool)

  /** `int(v)`: None where Python raises (a non-numeric string such as "n", or null). */
  function JsonInt(v: Json): Option<int>
  {
    match v
    case JNumber(n) => Some(n)
    case JString(t) => Text.ParseInt(t)
    case JNull => None
  }

  /** `[sign * int(i) for i in vs]`, or None as soon as one conversion fails. */
  function Coefficients(vs: seq<Json>, sign: int): (r: Option<seq<int>>)
    ensures r.Some? <==> forall k :: 0 <= k < |vs| ==> JsonInt(vs[k]).Some?
    ensures r.Some? ==> |r.value| == |vs| && forall k :: 0 <= k < |vs| ==> r.value[k] == sign * JsonInt(vs[k]).value
  {
    if vs == [] then Some([])
    else match (JsonInt(vs[0]), Coefficients(vs[1..], sign))
      case (Some(n), Some(rest)) => Some([sign * n] + rest)
      case _ => None
  }

  /** The rows contributed by one reaction: `zip(cids, rids, stoichs)`, nothing when a coefficient fails to convert. */
  function EcgRows(rx: EcgReaction): Net
  {
    var cids := rx.left + rx.right;
    match (Coefficients(rx.leftStoichiometries, -1), Coefficients(rx.rightStoichiometries, 1))
    case (Some(l), Some(r)) => Zip(cids, rx.rid, l + r)
    case _ => []
  }

  /** `zip(cids, rids, stoichs)` with one reaction id: as many rows as the shorter list. */
  function Zip(cids: seq<string>, rid: string, st: seq<int>): (rows: Net)
    ensures |rows| == if |cids| < |st| then |cids| else |st|
    ensures forall i :: 0 <= i < |rows| ==> rows[i] == Row(cids[i], rid, None, st[i], None)
  {
    var n := if |cids| < |st| then |cids| else |st|;
    seq(n, i requires 0 <= i < n => Row(cids[i], rid, None, st[i], None))
  }

  /** The table built from the reactions, in dictionary order. */
  function EcgNetwork(rxs: seq<EcgReaction>): Net
  {
    if rxs == [] then [] else EcgNetwork(rxs[..|rxs| - 1]) + EcgRows(rxs[|rxs| - 1])
  }

  /** The ids whose `element_conservation` flag is true, in dictionary order. */
  function ConsistentRids(rxs: seq<EcgReaction>): seq<string>
  {
    if rxs == [] then []
    else ConsistentRids(rxs[..|rxs| - 1]) + (if rxs[|rxs| - 1].elementConservation then [rxs[|rxs| - 1].rid] else [])
  }

  /** `load_ecg_network`: the rows of every reaction and the list of element-conserving reactions. */
  method LoadEcgNetwork(rxs: seq<EcgReaction>) returns (net: Net, consistent: seq<string>)
    ensures net == EcgNetwork(rxs) && consistent == ConsistentRids(rxs)
  {
    net, consistent := [], [];
    var i := 0;
    while i < |rxs|
      invariant i <= |rxs|
      invariant net == EcgNetwork(rxs[..i]) && consistent == ConsistentRids(rxs[..i])
    {
      assert rxs[..i + 1][..i] == rxs[..i];
      var rx := rxs[i];
      net := net + EcgRows(rx);
      if rx.elementConservation {
        consistent := consistent + [rx.rid];
      }
      i := i + 1;
    }
    assert rxs[..i] == rxs;
  }

  /**
   * When the compound lists and the coefficient lists have matching lengths and every
   * coefficient converts, the reaction's rows are its reactants with negated coefficients
   * followed by its products.
   */
  lemma EcgRowsAligned(rx: EcgReaction)
    requires |rx.left| == |rx.leftStoichiometries| && |rx.right| == |rx.rightStoichiometries|
    requires forall k :: 0 <= k < |rx.leftStoichiometries| ==> JsonInt(rx.leftStoichiometries[k]).Some?
    requires forall k :: 0 <= k < |rx.rightStoichiometries| ==> JsonInt(rx.rightStoichiometries[k]).Some?
    ensures |EcgRows(rx)| == |rx.left| + |rx.right|
    ensures forall k :: 0 <= k < |rx.left| ==>
      EcgRows(rx)[k] == Row(rx.left[k], rx.rid, None, -JsonInt(rx.leftStoichiometries[k]).value, None)
    ensures forall k :: 0 <= k < |rx.right| ==>
      EcgRows(rx)[|rx.left| + k] == Row(rx.right[k], rx.rid, None, JsonInt(rx.rightStoichiometries[k]).value, None)
  {
    var l := Coefficients(rx.leftStoichiometries, -1).value;
    var r := Coefficients(rx.rightStoichiometries, 1).value;
    var cids, st := rx.left + rx.right, l + r;
    var rows := EcgRows(rx);
    assert rows == Zip(cids, rx.rid, st);
    forall k | 0 <= k < |rx.left|
      ensures rows[k] == Row(rx.left[k], rx.rid, None, -JsonInt(rx.leftStoichiometries[k]).value, None)
    {
      assert cids[k] == rx.left[k] && st[k] == l[k];
    }
    forall k | 0 <= k < |rx.right|
      ensures rows[|rx.left| + k] == Row(rx.right[k], rx.rid, None, JsonInt(rx.rightStoichiometries[k]).value, None)
    {
      assert cids[|rx.left| + k] == rx.right[k] && st[|rx.left| + k] == r[k];
    }
  }

  /** A reaction with a coefficient that does not convert (such as "n") contributes no rows at all. */
  lemma EcgRowsSkipped(rx: EcgReaction, k: nat)
    requires k < |rx.leftStoichiometries| + |rx.rightStoichiometries|
    requires JsonInt((rx.leftStoichiometries + rx.rightStoichiometries)[k]).None?
    ensures EcgRows(rx) == []
  {
    if k >= |rx.leftStoichiometries| {
      assert JsonInt(rx.rightStoichiometries[k - |rx.leftStoichiometries|]).None?;
    }
  }

  /** Every row of the table belongs to one of the reactions and names it. */
  lemma {:induction false} EcgNetworkRows(rxs: seq<EcgReaction>)
    ensures forall i :: 0 <= i < |EcgNetwork(rxs)| ==>
      EcgNetwork(rxs)[i].dir.None? && exists j :: 0 <= j < |rxs| && EcgNetwork(rxs)[i].rn == rxs[j].rid
  {
    if rxs != [] {
      var front := rxs[..|rxs| - 1];
      EcgNetworkRows(front);
      var net := EcgNetwork(rxs);
      forall i | 0 <= i < |net|
        ensures net[i].dir.None? && exists j :: 0 <= j < |rxs| && net[i].rn == rxs[j].rid
      {
        if i < |EcgNetwork(front)| {
          var j :| 0 <= j < |front| && EcgNetwork(front)[i].rn == front[j].rid;
          assert rxs[j] == front[j];
        } else {
          assert net[i].rn == rxs[|rxs| - 1].rid;
        }
      }
    }
  }

  /** An id is listed as consistent exactly when some reaction with that id conserves elements. */
  lemma {:induction false} ConsistentRidsMembers(rxs: seq<EcgReaction>, id: string)
    ensures id in ConsistentRids(rxs) <==> exists j :: 0 <= j < |rxs| && rxs[j].rid == id && rxs[j].elementConservation
  {
    if rxs != [] {
      var front := rxs[..|rxs| - 1];
      ConsistentRidsMembers(front, id);
      if id in ConsistentRids(front) {
        var j :| 0 <= j < |front| && front[j].rid == id && front[j].elementConservation;
        assert rxs[j] == front[j];
      }
      if exists j :: 0 <= j < |rxs| && rxs[j].rid == id && rxs[j].elementConservation {
        var j :| 0 <= j < |rxs| && rxs[j].rid == id && rxs[j].elementConservation;
        if j < |front| {
          assert front[j] == rxs[j];
        }
      }
    }
  }
}
