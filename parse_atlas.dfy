/**
 * The ATLAS parser: resolving the column to read from a header, splitting each
 * reaction equation into its compounds and pairs, and writing the (cid, rn, s)
 * rows of the full network.
 */
module ParseAtlas {
  import opened Wrappers
  import opened Text
  import opened Ordered

  // ---------------------------------------------------------------- identify_column

  /** A column given as an integer or as a string (a number in text, or a header name). */
  datatype Key = Number(n: int) | Name(s: string)

  /** One column, or a list of columns. */
  datatype ColumnQuery = Single(key: Key) | Many(keys: seq<Key>)

  /** The `sys.exit(1)` cases, and the ValueError a non-number raises in list mode. */
  datatype ColumnError = OutOfRange | NotFound | NotANumber

  /** `int(column)`: None where it raises ValueError. */
  function KeyInt(k: Key): Option<int>
  {
    match k
    case Number(n) => Some(n)
    case Name(s) => ParseInt(s)
  }

  /** The first position of name in header. */
  function FirstIndex(header: seq<string>, name: string): (r: Option<nat>)
    ensures r.Some? ==> r.value < |header| && header[r.value] == name
    ensures r.Some? ==> forall j :: 0 <= j < r.value ==> header[j] != name
    ensures r.None? <==> name !in header
  {
    if header == [] then None
    else if header[0] == name then Some(0)
    else match FirstIndex(header[1..], name)
      case None => None
      case Some(i) => Some(i + 1)
  }

  /** The list mode: every column must be a number no larger than `len(header) - 1`; the result is 0. */
  function CheckColumns(keys: seq<Key>, width: nat): Result<int, ColumnError>
  {
    if keys == [] then Ok(0)
    else match KeyInt(keys[0])
      case None => Err(NotANumber)
      case Some(c) => if c > width - 1 then Err(OutOfRange) else CheckColumns(keys[1..], width)
  }

  /**
   * What `identify_column` returns: a number c gives c - 1 when c <= len(header) - 1,
   * a name gives the position of its first match, and an empty header gives 0.
   */
  function ColumnIndex(query: ColumnQuery, header: seq<string>): Result<int, ColumnError>
  {
    match query
    case Many(keys) => CheckColumns(keys, |header|)
    case Single(k) =>
      if header == [] then Ok(0)
      else match KeyInt(k)
        case Some(c) => if c > |header| - 1 then Err(OutOfRange) else Ok(c - 1)
        case None =>
          match FirstIndex(header, k.s)
          case Some(i) => Ok(i)
          case None => Err(NotFound)
  }

  /** The loop of `identify_column`, which advances the counter `ii` header by header. */
  method IdentifyColumn(query: ColumnQuery, header: seq<string>) returns (r: Result<int, ColumnError>)
    ensures r == ColumnIndex(query, header)
  {
    match query {
      case Many(keys) =>
        for i := 0 to |keys|
          invariant CheckColumns(keys, |header|) == CheckColumns(keys[i..], |header|)
        {
          assert keys[i..][1..] == keys[i + 1..];
          var c := KeyInt(keys[i]);
          if c.None? {
            return Err(NotANumber);
          }
          if c.value > |header| - 1 {
            return Err(OutOfRange);
          }
        }
        return Ok(0);
      case Single(k) =>
        var ii := 0;
        for j := 0 to |header|
          invariant KeyInt(k).Some? && j == 0 ==> ii == 0
          invariant KeyInt(k).Some? && 0 < j ==> KeyInt(k).value <= |header| - 1 && ii == KeyInt(k).value - 1
          invariant KeyInt(k).None? ==> ii == j && (0 < j ==> j < |header|)
          invariant KeyInt(k).None? ==> forall q :: 0 <= q < j ==> header[q] != k.s
        {
          var c := KeyInt(k);
          if c.Some? {
            if c.value > |header| - 1 {
              return Err(OutOfRange);
            }
            ii := c.value - 1;
          } else {
            if k.s == header[j] {
              break;
            }
            ii := ii + 1;
            if ii > |header| - 1 {
              return Err(NotFound);
            }
          }
        }
        return Ok(ii);
    }
  }

  /** A name that is not a number resolves to its first match in the header, and fails only when absent. */
  lemma ColumnByName(header: seq<string>, name: string)
    requires header != [] && ParseInt(name).None?
    ensures var r := ColumnIndex(Single(Name(name)), header);
      && (r.Ok? <==> name in header)
      && (r.Ok? ==> 0 <= r.value < |header| && header[r.value] == name
                    && forall j :: 0 <= j < r.value ==> header[j] != name)
      && (r.Err? ==> r.error == NotFound)
  {
  }

  /** A number c is accepted exactly when c <= len(header) - 1, and then names position c - 1. */
  lemma ColumnByNumber(header: seq<string>, c: int)
    requires header != []
    ensures var r := ColumnIndex(Single(Number(c)), header);
      && (r.Ok? <==> c <= |header| - 1)
      && (r.Ok? ==> r.value == c - 1)
      && (r.Err? ==> r.error == OutOfRange)
  {
  }

  /** The list mode accepts exactly the lists of numbers no larger than `len(header) - 1`. */
  lemma {:induction false} CheckColumnsSpec(keys: seq<Key>, width: nat)
    ensures CheckColumns(keys, width).Ok? <==>
      forall i :: 0 <= i < |keys| ==> KeyInt(keys[i]).Some? && KeyInt(keys[i]).value <= width - 1
    ensures CheckColumns(keys, width).Ok? ==> CheckColumns(keys, width).value == 0
  {
    if keys != [] {
      CheckColumnsSpec(keys[1..], width);
      assert forall i :: 1 <= i < |keys| ==> keys[i] == keys[1..][i - 1];
    }
  }

  /** The last column of the header, counted from 1, is rejected. */
  lemma LastColumnRejected(header: seq<string>)
    requires header != []
    ensures ColumnIndex(Single(Number(|header|)), header) == Err(OutOfRange)
  {
  }

  /** Column 0 is accepted and gives the index -1, which Python reads as the last column. */
  lemma ColumnZeroAccepted()
    ensures ColumnIndex(Single(Number(0)), ["cid", "rn"]) == Ok(-1)
  {
  }

  /** `identify_column` as its 1-based counting intends: a number c names position c - 1 for 1 <= c <= len(header). */
  function ColumnIndexIntended(query: ColumnQuery, header: seq<string>): Result<int, ColumnError>
  {
    match query
    case Many(keys) => CheckColumns(keys, |header|)
    case Single(k) =>
      match KeyInt(k)
      case Some(c) => if 1 <= c <= |header| then Ok(c - 1) else Err(OutOfRange)
      case None =>
        match FirstIndex(header, k.s)
        case Some(i) => Ok(i)
        case None => Err(NotFound)
  }

  /** Every column of the header is reachable by its 1-based number, and a single column always resolves inside the header. */
  lemma ColumnIndexIntendedSpec(header: seq<string>, query: ColumnQuery)
    ensures query.Single? && ColumnIndexIntended(query, header).Ok? ==>
      0 <= ColumnIndexIntended(query, header).value < |header|
    ensures forall c :: 1 <= c <= |header| ==> ColumnIndexIntended(Single(Number(c)), header) == Ok(c - 1)
  {
  }

  // ---------------------------------------------------------------- identify_compounds

  /** A reaction's entry in `rxn_pairs`: its compounds by side (`init == 0`) or its pairs (`init == 1`). */
  datatype RxnEntry = Sides(reactants: seq<string>, products: seq<string>) | Pairs(pairs: seq<(string, string)>)

  /** An equation without exactly one "<=>", or an `init` for which `pairs` is never bound. */
  datatype ParseError = BadEquation(eqn: string) | PairsUnbound

  type RxnPairs = Dict<RxnEntry>

  /** Every (reactant, product) pair of an equation's two sides. */
  function SidePairs(left: string, right: string): seq<(string, string)>
  {
    Product(FindCids(left), FindCids(right))
  }

  /** The pairs an equation contributes, none when it does not split. */
  function EquationPairs(eqn: string): seq<(string, string)>
  {
    match SplitEquation(eqn)
    case None => []
    case Some((l, r)) => SidePairs(l, r)
  }

  /** A pair comes from an equation exactly when its compounds are on the left and right side respectively. */
  lemma EquationPairsMembers(eqn: string, a: string, b: string)
    ensures (a, b) in EquationPairs(eqn) <==>
      SplitEquation(eqn).Some? && a in FindCids(SplitEquation(eqn).value.0) && b in FindCids(SplitEquation(eqn).value.1)
  {
    if SplitEquation(eqn).Some? {
      ProductMembers(FindCids(SplitEquation(eqn).value.0), FindCids(SplitEquation(eqn).value.1), a, b);
    }
  }

  function Entry(init: int, left: string, right: string): RxnEntry
    requires init == 0 || init == 1
  {
    if init == 0 then Sides(FindCids(left), FindCids(right)) else Pairs(SidePairs(left, right))
  }

  /** The entry of a reaction whose equation splits. */
  function EntryOf(init: int, eqn: string): RxnEntry
    requires init == 0 || init == 1
    requires SplitEquation(eqn).Some?
  {
    Entry(init, SplitEquation(eqn).value.0, SplitEquation(eqn).value.1)
  }

  /** The distinct pairs an equation contributes to `all_pairs`. */
  function PairSet(eqn: string): (ps: set<(string, string)>)
    ensures forall p :: p in ps <==> p in EquationPairs(eqn)
  {
    set p | p in EquationPairs(eqn)
  }

  /** One pass of the loop body of `identify_compounds`: record a reaction's entry and add its pairs. */
  function AddReaction(acc: (RxnPairs, set<(string, string)>), rx: (string, string), init: int)
    : (r: Result<(RxnPairs, set<(string, string)>), ParseError>)
    requires Valid(acc.0)
    ensures r.Ok? ==> Valid(r.value.0)
  {
    if SplitEquation(rx.1).None? then Err(BadEquation(rx.1))
    else if init != 0 && init != 1 then Err(PairsUnbound)
    else Ok((Put(acc.0, rx.0, EntryOf(init, rx.1)), acc.1 + PairSet(rx.1)))
  }

  /** What `identify_compounds(all_rxns, init)` returns, or the error it stops at. */
  function Compounds(rxns: seq<(string, string)>, init: int): (r: Result<(RxnPairs, set<(string, string)>), ParseError>)
    ensures r.Ok? ==> Valid(r.value.0)
  {
    if rxns == [] then Ok((Empty(), {}))
    else
      match Compounds(rxns[..|rxns| - 1], init)
      case Err(e) => Err(e)
      case Ok(acc) => AddReaction(acc, rxns[|rxns| - 1], init)
  }

  /** The loop of `identify_compounds`, filling `rxn_pairs` and `all_pairs` reaction by reaction. */
  method IdentifyCompounds(allRxns: seq<(string, string)>, init: int)
    returns (r: Result<(RxnPairs, set<(string, string)>), ParseError>)
    ensures r == Compounds(allRxns, init)
  {
    var rxnPairs: RxnPairs := Empty();
    var allPairs: set<(string, string)> := {};
    for i := 0 to |allRxns|
      invariant Compounds(allRxns[..i], init) == Ok((rxnPairs, allPairs))
    {
      assert allRxns[..i + 1][..i] == allRxns[..i];
      ghost var step := AddReaction((rxnPairs, allPairs), allRxns[i], init);
      var (rxn, eqn) := allRxns[i];
      var halves := SplitEquation(eqn);
      if halves.None? {
        CompoundsSticky(allRxns, init, i + 1);
        return Err(BadEquation(eqn));
      }
      var (reactantStr, productStr) := halves.value;
      var pairs: seq<(string, string)>;
      if init == 0 {
        pairs := SidePairs(reactantStr, productStr);
        rxnPairs := Put(rxnPairs, rxn, Sides(FindCids(reactantStr), FindCids(productStr)));
      } else if init == 1 {
        pairs := SidePairs(reactantStr, productStr);
        rxnPairs := Put(rxnPairs, rxn, Pairs(pairs));
      } else {
        CompoundsSticky(allRxns, init, i + 1);
        return Err(PairsUnbound);
      }
      allPairs := allPairs + set p | p in pairs;
      assert allPairs == step.value.1;
    }
    assert allRxns[..|allRxns|] == allRxns;
    return Ok((rxnPairs, allPairs));
  }

  /** `eqn.split("<=>")` unpacks into two sides. */
  predicate Splits(eqn: string)
  {
    SplitEquation(eqn).Some?
  }

  ghost predicate AllSplit(rxns: seq<(string, string)>)
  {
    forall i :: 0 <= i < |rxns| ==> Splits(rxns[i].1)
  }

  lemma AllSplitSnoc(rxns: seq<(string, string)>)
    requires rxns != []
    ensures AllSplit(rxns) <==> AllSplit(rxns[..|rxns| - 1]) && Splits(rxns[|rxns| - 1].1)
  {
    var front := rxns[..|rxns| - 1];
    assert forall i :: 0 <= i < |front| ==> front[i] == rxns[i];
  }

  /** Once a prefix fails, the whole list fails with the same error. */
  lemma {:induction false} CompoundsSticky(rxns: seq<(string, string)>, init: int, n: nat)
    requires n <= |rxns| && Compounds(rxns[..n], init).Err?
    ensures Compounds(rxns, init) == Compounds(rxns[..n], init)
    decreases |rxns| - n
  {
    if n < |rxns| {
      var next := rxns[..n + 1];
      assert next[..n] == rxns[..n];
      assert Compounds(next, init) == Compounds(rxns[..n], init);
      CompoundsSticky(rxns, init, n + 1);
    } else {
      assert rxns[..n] == rxns;
    }
  }

  /** Parsing succeeds exactly when every equation splits and, unless there is none, `init` is 0 or 1. */
  lemma {:induction false} CompoundsOk(rxns: seq<(string, string)>, init: int)
    ensures Compounds(rxns, init).Ok? <==> AllSplit(rxns) && (rxns == [] || init == 0 || init == 1)
  {
    if rxns != [] {
      var front := rxns[..|rxns| - 1];
      var last := rxns[|rxns| - 1];
      CompoundsOk(front, init);
      AllSplitSnoc(rxns);
      var c := Compounds(front, init);
      if c.Ok? {
        assert Compounds(rxns, init) == AddReaction(c.value, last, init);
      } else {
        assert Compounds(rxns, init) == Err(c.error);
      }
    }
  }

  /** Some equation of the list contributes pair p. */
  ghost predicate PairOf(rxns: seq<(string, string)>, p: (string, string))
  {
    exists i :: 0 <= i < |rxns| && p in EquationPairs(rxns[i].1)
  }

  /** A successful parse extends the parse of the list without its last reaction. */
  lemma CompoundsSnoc(rxns: seq<(string, string)>, init: int)
    requires rxns != [] && Compounds(rxns, init).Ok?
    ensures Compounds(rxns[..|rxns| - 1], init).Ok?
    ensures Compounds(rxns, init) == AddReaction(Compounds(rxns[..|rxns| - 1], init).value, rxns[|rxns| - 1], init)
  {
  }

  /** `all_pairs` is the union of the pairs of every equation. */
  lemma {:induction false} CompoundsAllPairs(rxns: seq<(string, string)>, init: int)
    requires Compounds(rxns, init).Ok?
    ensures forall p :: p in Compounds(rxns, init).value.1 <==> PairOf(rxns, p)
  {
    if rxns != [] {
      var front := rxns[..|rxns| - 1];
      var last := rxns[|rxns| - 1];
      CompoundsSnoc(rxns, init);
      CompoundsAllPairs(front, init);
      var before := Compounds(front, init).value.1;
      var after := Compounds(rxns, init).value.1;
      assert after == before + PairSet(last.1);
      forall p
        ensures p in after <==> PairOf(rxns, p)
      {
        if p in before {
          var i :| 0 <= i < |front| && p in EquationPairs(front[i].1);
          assert rxns[i] == front[i];
        } else if p in PairSet(last.1) {
          assert p in EquationPairs(rxns[|rxns| - 1].1);
        } else {
          forall i | 0 <= i < |rxns|
            ensures p !in EquationPairs(rxns[i].1)
          {
            if i < |rxns| - 1 {
              assert rxns[i] == front[i];
            } else {
              assert i == |rxns| - 1;
            }
          }
        }
      }
    }
  }

  /** Some reaction of the list has id rxn. */
  ghost predicate IdOf(rxns: seq<(string, string)>, rxn: string)
  {
    exists i :: 0 <= i < |rxns| && rxns[i].0 == rxn
  }

  /** No later reaction of the list repeats the id of reaction i. */
  ghost predicate LastOf(rxns: seq<(string, string)>, i: nat)
    requires i < |rxns|
  {
    forall j :: i < j < |rxns| ==> rxns[j].0 != rxns[i].0
  }

  /** The keys of `rxn_pairs` are exactly the reaction ids of the list. */
  lemma {:induction false} CompoundsKeys(rxns: seq<(string, string)>, init: int)
    requires Compounds(rxns, init).Ok?
    ensures forall rxn :: rxn in Compounds(rxns, init).value.0.values <==> IdOf(rxns, rxn)
  {
    if rxns != [] {
      var front := rxns[..|rxns| - 1];
      var last := rxns[|rxns| - 1];
      CompoundsSnoc(rxns, init);
      CompoundsKeys(front, init);
      var before := Compounds(front, init).value.0;
      var after := Compounds(rxns, init).value.0;
      assert after == Put(before, last.0, EntryOf(init, last.1));
      forall rxn
        ensures rxn in after.values <==> IdOf(rxns, rxn)
      {
        IdOfSnoc(rxns, rxn);
      }
    }
  }

  lemma IdOfSnoc(rxns: seq<(string, string)>, rxn: string)
    requires rxns != []
    ensures IdOf(rxns, rxn) <==> IdOf(rxns[..|rxns| - 1], rxn) || rxns[|rxns| - 1].0 == rxn
  {
    var front := rxns[..|rxns| - 1];
    if IdOf(rxns, rxn) && rxns[|rxns| - 1].0 != rxn {
      var i :| 0 <= i < |rxns| && rxns[i].0 == rxn;
      assert i < |rxns| - 1;
      assert front[i] == rxns[i];
    }
    if IdOf(front, rxn) {
      var i :| 0 <= i < |front| && front[i].0 == rxn;
      assert front[i] == rxns[i];
    }
  }

  /** Every reaction whose id does not recur later holds the entry of its own equation: the last assignment wins. */
  lemma {:induction false} CompoundsLastWins(rxns: seq<(string, string)>, init: int)
    requires Compounds(rxns, init).Ok? && rxns != []
    ensures init == 0 || init == 1
    ensures AllSplit(rxns)
    ensures forall i :: 0 <= i < |rxns| && LastOf(rxns, i) ==>
      rxns[i].0 in Compounds(rxns, init).value.0.values &&
      Compounds(rxns, init).value.0.values[rxns[i].0] == EntryOf(init, rxns[i].1)
  {
    CompoundsOk(rxns, init);
    var front := rxns[..|rxns| - 1];
    CompoundsSnoc(rxns, init);
    AllSplitSnoc(rxns);
    if front != [] {
      CompoundsLastWins(front, init);
    }
    LastWinsStep(rxns, init, Compounds(front, init).value.0, Compounds(rxns, init).value.0);
  }

  /** Writing the last reaction's entry keeps every earlier last-occurrence entry whose id it does not repeat. */
  lemma LastWinsStep(rxns: seq<(string, string)>, init: int, before: RxnPairs, after: RxnPairs)
    requires rxns != [] && (init == 0 || init == 1) && AllSplit(rxns)
    requires Valid(before) && after == Put(before, rxns[|rxns| - 1].0, EntryOf(init, rxns[|rxns| - 1].1))
    requires forall i :: 0 <= i < |rxns| - 1 && LastOf(rxns[..|rxns| - 1], i) ==>
      rxns[i].0 in before.values && before.values[rxns[i].0] == EntryOf(init, rxns[i].1)
    ensures forall i :: 0 <= i < |rxns| && LastOf(rxns, i) ==>
      rxns[i].0 in after.values && after.values[rxns[i].0] == EntryOf(init, rxns[i].1)
  {
    var front := rxns[..|rxns| - 1];
    forall i | 0 <= i < |rxns| && LastOf(rxns, i)
      ensures rxns[i].0 in after.values && after.values[rxns[i].0] == EntryOf(init, rxns[i].1)
    {
      if i < |rxns| - 1 {
        assert rxns[|rxns| - 1].0 != rxns[i].0;
        assert LastOf(front, i) by {
          forall j | i < j < |front| ensures front[j].0 != front[i].0 {
            assert front[j] == rxns[j];
          }
        }
      }
    }
  }

  // ---------------------------------------------------------------- create_full_network

  /** A row of the network file: compound, reaction, coefficient. */
  type Record = (string, string, string)

  const CsvHeader: Record := ("cid", "rn", "s")
  const ReactantCoefficient := "-1"
  const ProductCoefficient := "1"

  /** Every compound of a dictionary entry is on one side or the other. */
  ghost predicate SidesOnly(d: RxnPairs)
  {
    Valid(d) && forall rxn :: rxn in d.values ==> d.values[rxn].Sides?
  }

  /** The rows of one reaction: its reactants with -1, then its products with 1. */
  function ReactionRecords(rxn: string, e: RxnEntry): (rows: seq<Record>)
    requires e.Sides?
    ensures |rows| == |e.reactants| + |e.products|
  {
    seq(|e.reactants|, i requires 0 <= i < |e.reactants| => (e.reactants[i], rxn, ReactantCoefficient))
    + seq(|e.products|, i requires 0 <= i < |e.products| => (e.products[i], rxn, ProductCoefficient))
  }

  /** The rows of the first reactions of the dictionary, in its order. */
  function RecordsOf(keys: seq<string>, values: map<string, RxnEntry>): seq<Record>
    requires forall k :: k in keys ==> k in values && values[k].Sides?
  {
    if keys == [] then []
    else RecordsOf(keys[..|keys| - 1], values) + ReactionRecords(keys[|keys| - 1], values[keys[|keys| - 1]])
  }

  /** What `create_full_network` writes: the header, then every reaction's rows. */
  function FullNetwork(d: RxnPairs): seq<Record>
    requires SidesOnly(d)
  {
    [CsvHeader] + RecordsOf(d.keys, d.values)
  }

  /** The nested loops of `create_full_network`. */
  method CreateFullNetwork(rxnPairs: RxnPairs) returns (rows: seq<Record>)
    requires SidesOnly(rxnPairs)
    ensures rows == FullNetwork(rxnPairs)
  {
    var keys := rxnPairs.keys;
    rows := [CsvHeader];
    for k := 0 to |keys|
      invariant rows == [CsvHeader] + RecordsOf(keys[..k], rxnPairs.values)
    {
      assert keys[..k + 1][..k] == keys[..k];
      var rxnId := keys[k];
      var e := rxnPairs.values[rxnId];
      ghost var before := rows;
      for i := 0 to |e.reactants|
        invariant rows == before + ReactionRecords(rxnId, e)[..i]
      {
        rows := rows + [(e.reactants[i], rxnId, ReactantCoefficient)];
      }
      for i := 0 to |e.products|
        invariant rows == before + ReactionRecords(rxnId, e)[..|e.reactants| + i]
      {
        rows := rows + [(e.products[i], rxnId, ProductCoefficient)];
      }
    }
    assert keys[..|keys|] == keys;
  }

  /** The number of compound occurrences over the first reactions. */
  function Occurrences(keys: seq<string>, values: map<string, RxnEntry>): nat
    requires forall k :: k in keys ==> k in values && values[k].Sides?
  {
    if keys == [] then 0
    else
      var e := values[keys[|keys| - 1]];
      Occurrences(keys[..|keys| - 1], values) + |e.reactants| + |e.products|
  }

  /** One row per compound occurrence, after the header. */
  lemma {:induction false} FullNetworkLength(d: RxnPairs)
    requires SidesOnly(d)
    ensures |FullNetwork(d)| == 1 + Occurrences(d.keys, d.values)
  {
    RecordsLength(d.keys, d.values);
  }

  lemma {:induction false} RecordsLength(keys: seq<string>, values: map<string, RxnEntry>)
    requires forall k :: k in keys ==> k in values && values[k].Sides?
    ensures |RecordsOf(keys, values)| == Occurrences(keys, values)
  {
    if keys != [] {
      RecordsLength(keys[..|keys| - 1], values);
    }
  }

  /** A (compound, reaction, -1) row is written exactly for the reactants of a listed reaction, and likewise with 1 for its products. */
  lemma {:induction false} RecordsMembers(keys: seq<string>, values: map<string, RxnEntry>, c: string, rxn: string)
    requires forall k :: k in keys ==> k in values && values[k].Sides?
    ensures (c, rxn, ReactantCoefficient) in RecordsOf(keys, values) <==> rxn in keys && c in values[rxn].reactants
    ensures (c, rxn, ProductCoefficient) in RecordsOf(keys, values) <==> rxn in keys && c in values[rxn].products
  {
    if keys != [] {
      var front := keys[..|keys| - 1];
      var last := keys[|keys| - 1];
      RecordsMembers(front, values, c, rxn);
      assert keys == front + [last];
      var e := values[last];
      var rs := ReactionRecords(last, e);
      assert (c, rxn, ReactantCoefficient) in rs <==> rxn == last && c in e.reactants by {
        if (c, rxn, ReactantCoefficient) in rs {
          var i :| 0 <= i < |rs| && rs[i] == (c, rxn, ReactantCoefficient);
          assert i < |e.reactants|;
        }
        if rxn == last && c in e.reactants {
          var i :| 0 <= i < |e.reactants| && e.reactants[i] == c;
          assert rs[i] == (c, rxn, ReactantCoefficient);
        }
      }
      assert (c, rxn, ProductCoefficient) in rs <==> rxn == last && c in e.products by {
        if (c, rxn, ProductCoefficient) in rs {
          var i :| 0 <= i < |rs| && rs[i] == (c, rxn, ProductCoefficient);
          assert i >= |e.reactants|;
        }
        if rxn == last && c in e.products {
          var i :| 0 <= i < |e.products| && e.products[i] == c;
          assert rs[|e.reactants| + i] == (c, rxn, ProductCoefficient);
        }
      }
    }
  }

  /** The file written from a dictionary holds a (c, rxn, -1) row exactly for the reactants of rxn, and a (c, rxn, 1) row exactly for its products. */
  lemma FullNetworkMembers(d: RxnPairs, c: string, rxn: string)
    requires SidesOnly(d)
    ensures (c, rxn, ReactantCoefficient) in FullNetwork(d) <==> rxn in d.values && c in d.values[rxn].reactants
    ensures (c, rxn, ProductCoefficient) in FullNetwork(d) <==> rxn in d.values && c in d.values[rxn].products
  {
    RecordsMembers(d.keys, d.values, c, rxn);
  }

  /** With `init == 0` every entry of `rxn_pairs` holds the two sides, as `create_full_network` expects. */
  lemma {:induction false} CompoundsSides(rxns: seq<(string, string)>)
    requires Compounds(rxns, 0).Ok?
    ensures SidesOnly(Compounds(rxns, 0).value.0)
  {
    if rxns != [] {
      CompoundsSnoc(rxns, 0);
      CompoundsSides(rxns[..|rxns| - 1]);
    }
  }
}
