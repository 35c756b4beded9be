/**
 * The KEGG parser: from the lines of a reaction file, the ENTRY ids and the
 * EQUATION texts, matched by position, and the reactant/product pairs of
 * every equation.
 */
module ParseKegg {
  import opened Wrappers
  import opened Text
  import opened Ordered
  import opened ParseAtlas

  const EntryTag := "ENTRY"
  const EquationTag := "EQUATION"

  /** The characters `str.strip("ENTRY")` removes from both ends. */
  const EntryChars: set<char> := {'E', 'N', 'T', 'R', 'Y'}

  /** The characters `str.strip("EQUATION")` removes from both ends. */
  const EquationChars: set<char> := {'E', 'Q', 'U', 'A', 'T', 'I', 'O', 'N'}

  /** Why `get_rxn_pairs` raises. */
  datatype KeggError =
    | MissingEntryId          // an ENTRY line with nothing after the tag: IndexError
    | UnequalCounts           // the numbers of ENTRY and EQUATION lines differ
    | Pairing(e: ParseError)  // an equation without exactly one "<=>"

  /** The lines that contain tag, in file order. */
  function Tagged(lines: seq<string>, tag: string): (r: seq<string>)
    ensures |r| <= |lines|
    ensures forall k :: 0 <= k < |r| ==> r[k] in lines && Contains(r[k], tag)
  {
    if lines == [] then []
    else if Contains(lines[0], tag) then [lines[0]] + Tagged(lines[1..], tag)
    else Tagged(lines[1..], tag)
  }

  /** A line of the file is selected exactly when it contains the tag. */
  lemma {:induction false} TaggedMembers(lines: seq<string>, tag: string)
    ensures forall l :: l in lines ==> (l in Tagged(lines, tag) <==> Contains(l, tag))
  {
    if lines != [] {
      TaggedMembers(lines[1..], tag);
      forall l | l in lines
        ensures l in Tagged(lines, tag) <==> Contains(l, tag)
      {
        if l != lines[0] {
          assert l in lines[1..];
        }
      }
    }
  }

  /** Filtering keeps file order: the tagged lines of a + b are those of a followed by those of b. */
  lemma TaggedAppend(a: seq<string>, b: seq<string>, tag: string)
    ensures Tagged(a + b, tag) == Tagged(a, tag) + Tagged(b, tag)
  {
    TaggedSelect(a + b, tag);
    TaggedSelect(a, tag);
    TaggedSelect(b, tag);
    SelectAppend(a, b, HasTag(tag));
  }

  function HasTag(tag: string): string -> bool
  {
    (line: string) => Contains(line, tag)
  }

  /** The elements of xs that satisfy p, in order. */
  function Select<T>(xs: seq<T>, p: T -> bool): seq<T>
  {
    if xs == [] then [] else (if p(xs[0]) then [xs[0]] else []) + Select(xs[1..], p)
  }

  lemma {:induction false} TaggedSelect(lines: seq<string>, tag: string)
    ensures Tagged(lines, tag) == Select(lines, HasTag(tag))
  {
    if lines != [] {
      TaggedSelect(lines[1..], tag);
    }
  }

  lemma {:induction false} SelectAppend<T>(a: seq<T>, b: seq<T>, p: T -> bool)
    ensures Select(a + b, p) == Select(a, p) + Select(b, p)
  {
    if a == [] {
      assert a + b == b;
    } else {
      SelectAppend(a[1..], b, p);
      assert (a + b)[0] == a[0] && (a + b)[1..] == a[1..] + b;
      var h := if p(a[0]) then [a[0]] else [];
      calc {
        Select(a + b, p);
        h + Select(a[1..] + b, p);
        h + (Select(a[1..], p) + Select(b, p));
        (h + Select(a[1..], p)) + Select(b, p);
        Select(a, p) + Select(b, p);
      }
    }
  }

  /** `line.strip("ENTRY").strip().split()[0]`: None where the split is empty. */
  function EntryId(line: string): (r: Option<string>)
    ensures r.Some? ==> r.value != [] && forall k :: 0 <= k < |r.value| ==> r.value[k] !in Whitespace
  {
    FirstField(Strip(StripChars(line, EntryChars)))
  }

  /** `line.strip("EQUATION").strip()`. */
  function EquationText(line: string): string
  {
    Strip(StripChars(line, EquationChars))
  }

  /** The id of every ENTRY line, or None at the first one without an id. */
  function EntryIds(lines: seq<string>): (r: Option<seq<string>>)
    ensures r.Some? ==> |r.value| == |lines| && forall k :: 0 <= k < |lines| ==> EntryId(lines[k]) == Some(r.value[k])
    ensures r.None? <==> exists k :: 0 <= k < |lines| && EntryId(lines[k]).None?
  {
    if lines == [] then Some([])
    else match EntryId(lines[0])
      case None => None
      case Some(id) =>
        match EntryIds(lines[1..])
        case None => None
        case Some(ids) => Some([id] + ids)
  }

  /** The stripped text of every EQUATION line. */
  function Equations(lines: seq<string>): (r: seq<string>)
    ensures |r| == |lines| && forall k :: 0 <= k < |lines| ==> r[k] == EquationText(lines[k])
  {
    seq(|lines|, k requires 0 <= k < |lines| => EquationText(lines[k]))
  }

  /** `zip(rxns, eqns)` for lists of equal length. */
  function Zip(xs: seq<string>, ys: seq<string>): (r: seq<(string, string)>)
    requires |xs| == |ys|
    ensures |r| == |xs| && forall k :: 0 <= k < |xs| ==> r[k] == (xs[k], ys[k])
  {
    seq(|xs|, k requires 0 <= k < |xs| => (xs[k], ys[k]))
  }

  /** What `get_rxn_pairs` returns for the lines of a file, or why it raises. */
  function RxnPairsOf(lines: seq<string>): Result<(RxnPairs, set<(string, string)>), KeggError>
  {
    match EntryIds(Tagged(lines, EntryTag))
    case None => Err(MissingEntryId)
    case Some(rxns) =>
      var eqns := Equations(Tagged(lines, EquationTag));
      if |rxns| != |eqns| then Err(UnequalCounts)
      else match Compounds(Zip(rxns, eqns), 1)
        case Err(e) => Err(Pairing(e))
        case Ok(v) => Ok(v)
  }

  /**
   * `get_rxn_pairs` after the file is read: the two list comprehensions, the
   * count check, and the `zip` loop, whose body is the `init == 1` body of
   * `identify_compounds`.
   */
  method GetRxnPairs(lines: seq<string>) returns (r: Result<(RxnPairs, set<(string, string)>), KeggError>)
    ensures r == RxnPairsOf(lines)
  {
    var ids := EntryIds(Tagged(lines, EntryTag));
    if ids.None? {
      return Err(MissingEntryId);
    }
    var rxns := ids.value;
    var eqns := Equations(Tagged(lines, EquationTag));
    if |rxns| != |eqns| {
      return Err(UnequalCounts);
    }
    var pairs := IdentifyCompounds(Zip(rxns, eqns), 1);
    match pairs {
      case Err(e) => r := Err(Pairing(e));
      case Ok(v) => r := Ok(v);
    }
  }

  /** The count check fails exactly when every ENTRY line has an id but the ENTRY and EQUATION lines differ in number. */
  lemma UnequalCountsIff(lines: seq<string>)
    ensures RxnPairsOf(lines) == Err(UnequalCounts) <==>
      EntryIds(Tagged(lines, EntryTag)).Some? && |Tagged(lines, EntryTag)| != |Tagged(lines, EquationTag)|
  {
  }

  /** The ids and equations of a successful parse, zipped. */
  function Zipped(lines: seq<string>): seq<(string, string)>
    requires RxnPairsOf(lines).Ok?
  {
    Zip(EntryIds(Tagged(lines, EntryTag)).value, Equations(Tagged(lines, EquationTag)))
  }

  /** A successful parse is the `identify_compounds` parse, with `init == 1`, of the zipped lists. */
  lemma RxnPairsZipped(lines: seq<string>)
    requires RxnPairsOf(lines).Ok?
    ensures |EntryIds(Tagged(lines, EntryTag)).value| == |Tagged(lines, EquationTag)|
    ensures Compounds(Zipped(lines), 1).Ok? && RxnPairsOf(lines).value == Compounds(Zipped(lines), 1).value
  {
  }

  /** Every ENTRY id is a key of `rxn_pairs`. */
  lemma RxnPairsKeys(lines: seq<string>, i: nat)
    requires RxnPairsOf(lines).Ok?
    requires i < |EntryIds(Tagged(lines, EntryTag)).value|
    ensures EntryIds(Tagged(lines, EntryTag)).value[i] in RxnPairsOf(lines).value.0.values
  {
    RxnPairsZipped(lines);
    var z := Zipped(lines);
    CompoundsKeys(z, 1);
    assert IdOf(z, z[i].0);
  }

  /** Reactions and equations are matched by position: the i-th id, unless it recurs, holds the pairs of the i-th equation. */
  lemma RxnPairsByPosition(lines: seq<string>, i: nat)
    requires RxnPairsOf(lines).Ok?
    requires i < |EntryIds(Tagged(lines, EntryTag)).value|
    requires var rxns := EntryIds(Tagged(lines, EntryTag)).value;
      forall j :: i < j < |rxns| ==> rxns[j] != rxns[i]
    ensures var rxns := EntryIds(Tagged(lines, EntryTag)).value;
      var eqns := Equations(Tagged(lines, EquationTag));
      && i < |eqns|
      && rxns[i] in RxnPairsOf(lines).value.0.values
      && RxnPairsOf(lines).value.0.values[rxns[i]] == Pairs(EquationPairs(eqns[i]))
  {
    RxnPairsZipped(lines);
    var rxns := EntryIds(Tagged(lines, EntryTag)).value;
    var z := Zipped(lines);
    CompoundsLastWins(z, 1);
    assert LastOf(z, i) by {
      forall j | i < j < |z| ensures z[j].0 != z[i].0 {
        assert z[j].0 == rxns[j];
      }
    }
    assert Splits(z[i].1);
  }

  /** `all_pairs` is the union of the pairs of every equation. */
  lemma RxnPairsAllPairs(lines: seq<string>, p: (string, string))
    requires RxnPairsOf(lines).Ok?
    ensures var eqns := Equations(Tagged(lines, EquationTag));
      p in RxnPairsOf(lines).value.1 <==> exists i :: 0 <= i < |eqns| && p in EquationPairs(eqns[i])
  {
    RxnPairsZipped(lines);
    var eqns := Equations(Tagged(lines, EquationTag));
    var z := Zipped(lines);
    CompoundsAllPairs(z, 1);
    if PairOf(z, p) {
      var i :| 0 <= i < |z| && p in EquationPairs(z[i].1);
      assert z[i].1 == eqns[i];
    }
    if exists i :: 0 <= i < |eqns| && p in EquationPairs(eqns[i]) {
      var i :| 0 <= i < |eqns| && p in EquationPairs(eqns[i]);
      assert z[i].1 == eqns[i];
    }
  }
}
