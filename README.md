# networkExpansionPy in Dafny

networkExpansionPy computes the *network expansion* of a metabolic network.
A network is a table of rows `(cid, rn, direction, s)`: compound `cid` takes
part in reaction `rn` with stoichiometric coefficient `s`. A negative `s`
marks a reactant and a positive `s` a product. Starting from a seed set of
compounds, the expansion repeatedly fires every reaction whose reactants are
all present and adds its products, until no new compound appears.

This project models the core of the package:

- **The expansion engine.** `netExp`, `netExp_cr` and `netExp_trace` run over
  0/1 presence vectors `x` and activation vectors `y`, given the reactant
  matrix `R`, the product matrix `P` and the reactant counts `b`
  (`engine.dfy`).
- **The table operations of `GlobalMetabolicNetwork`.** These are:
  - the reaction filters, and the removal of oxygen-dependent reactions;
  - the split into forward and reverse reaction-directions;
  - the metabolite bounds;
  - the selection step of the thermodynamic prune;
  - `isRxnCoenzymeCoupled`;
  - the ecg JSON loader.

  They are in `network.dfy`.
- **What `expand` builds.** It builds the index dictionaries
  (`indexing.dfy`), the matrix S with R, P, b and the seed vector, and the
  translation of the vectors back to ids (`matrices.dfy`).
- **The class that holds and updates all of this.** `GlobalMetabolicNetwork`
  with its `expand` is in `metabolism.dfy`.
- **What an expansion means on the table.** The compounds reached form the
  least set closed under the reactions, and the reactions reported are
  exactly the ones that set feeds (`closure.dfy`).
- **The two equation-text parsers.** The ATLAS parser (`identify_column`,
  `identify_compounds`, `create_full_network`) is in `parse_atlas.dfy`. The
  KEGG parser (`get_rxn_pairs` on the lines of a file) is in
  `parse_kegg.dfy`.
- **Supporting modules.**
  - Python's string operations are in `text.dfy`: `strip`, `split`, the
    `C\d{5}` search, `itertools.product` and `int()`.
  - An insertion-ordered dictionary is in `ordered.dfy`.
  - Option and Result are in `wrappers.dfy`.

The exceptions and `sys.exit` calls that the modelled operations reach on
their modelled inputs become error values: `Option`, `Result` or a dedicated
error datatype. Those inputs are a table already split into reaction-directions
where an operation needs one, and ecg records with all their keys. The
exceptions that these assumptions rule out are listed under "## Left out".
The KeyError that `reactions_list` raises in `expand` is
`ReactionsListKeyError`.

## Model

| member | source | states |
|---|---|---|
| Engine.Next | networkExpansionPy/lib.py:55-57 | adding the products of the enabled reactions never removes a compound |
| Engine.CountMonotone | networkExpansionPy/lib.py:51-58 | a vector that contains another has at least its count, and a strictly larger count unless equal, so `k > k0` detects exactly a change of `x` |
| Engine.Fix | networkExpansionPy/lib.py:51-58 | the iteration from x ends in a vector containing x that the update rule leaves unchanged |
| Engine.NetExp | networkExpansionPy/lib.py:43-63 | the returned lists are the x and y of every snapshot of the trace as written, whose first y is the 1×1 initial entry. With a seed bit set the final x is a fixed point of the update rule and y is the set of reactions it enables. With none set the loop never runs and the seed and the initial entry come back |
| Engine.InitialActivationAsWritten | networkExpansionPy/lib.py:46-47 | the initial y of `netExp` is a single entry holding the number of reactions, nonzero whenever there is a reaction |
| Engine.NaiveAgrees | networkExpansionPy/lib.py:43-63 | the trace of `netExp` differs from the zero-started trace only in its first y. Its final x is the same, and its final pair is the same exactly when the seed sets a bit |
| Engine.NaiveUnexpanded | networkExpansionPy/lib.py:44-51 | with no seed bit set, the lists of `netExp` hold only the seed and the initial entry, and that pair is returned |
| Engine.NetExpCr | networkExpansionPy/lib.py:67-85 | the compound-and-reaction stopping rule, started from the zero activation vector, returns the expansion: for a seed with a set bit this is the final pair of `netExp` |
| Engine.NetExpTrace | networkExpansionPy/lib.py:91-114 | the lists are the snapshots of the trace, the first x is the seed and the last x is the final presence vector |
| Engine.TraceLast | networkExpansionPy/lib.py:104-114 | the last snapshot of the zero-started trace is the expansion |
| Engine.TraceRule | networkExpansionPy/lib.py:52-60 | every snapshot after the first is one application of the update rule to the snapshot before it |
| Engine.TraceShape | networkExpansionPy/lib.py:48-60 | every x in the trace has the seed's length and every y has one entry per reaction-direction |
| Engine.TraceMonotone | networkExpansionPy/lib.py:55-59 | no compound is ever removed from one snapshot to the next |
| Engine.RoundsLength | networkExpansionPy/lib.py:51-58 | each round except the last adds a compound, so there are at most \|x\| - Count(x) + 1 rounds |
| Engine.TraceLength | networkExpansionPy/lib.py:48-60 | the trace has at most \|x0\| - Count(x0) + 2 snapshots |
| Engine.RoundsLastTwo | networkExpansionPy/lib.py:51-58 | the last two presence vectors of the rounds are equal |
| Engine.TraceEnds | networkExpansionPy/lib.py:91-114 | the trace starts with the seed. With a nonempty seed its last two x are equal and the last is a fixed point. With an empty seed the loop never runs and the trace is the seed with the zero activation vector |
| Engine.EnabledIff | networkExpansionPy/lib.py:53 | with b the column sums of R, (Rᵀx)[r] never exceeds b[r], and a reaction-direction is enabled exactly when every one of its reactants is present |
| Engine.ZeroReactantEnabled | networkExpansionPy/lib.py:53 | a reaction-direction without reactants is enabled by every presence vector |
| Engine.ZeroReactantExpansion | networkExpansionPy/lib.py:67-114 | in the zero-started loops of `netExp_cr` and `netExp_trace`, a reaction-direction without reactants is reported after a nonempty seed, and no reaction is reported for an empty one |
| Engine.EnabledMonotone | networkExpansionPy/lib.py:53 | adding compounds never disables a reaction-direction |
| Engine.FixLeast | networkExpansionPy/lib.py:51-58 | the fixed point reached from x lies inside every fixed point that contains x |
| Engine.TraceActivationMonotone | networkExpansionPy/lib.py:75-84 | y only grows along the trace, which is why the reaction count of `netExp_cr` cannot keep the loop going once x is stable |
| Engine.ExpansionIdempotent | networkExpansionPy/lib.py:43-63 | expanding again from the final presence vector changes nothing |
| Engine.StepFixedIff | networkExpansionPy/lib.py:53-57 | the update rule leaves z unchanged exactly when z is closed: every enabled reaction-direction has all its products in z |
| Engine.ExpansionClosed | networkExpansionPy/lib.py:43-63 | the expansion of a nonempty seed is closed |
| Engine.ExpansionClosure | networkExpansionPy/lib.py:43-63 | the expansion contains the seed, is closed, and lies inside every closed vector containing the seed; y marks exactly the reaction-directions whose reactants are all present |
| Network.FilterMultiset | networkExpansionPy/lib.py:273 | a row selection holds each selected row as often as the table does, and no other row |
| Network.FilterAppend | networkExpansionPy/lib.py:273 | a row selection keeps the order of the table |
| Network.KeepReactionsRows | networkExpansionPy/lib.py:271-273 | `isin` keeps every row of a listed reaction, with its multiplicity, and no other row |
| Network.KeepReactionsTwice | networkExpansionPy/lib.py:254-273 | pruning by one list and then by another is pruning by their intersection |
| Network.KeepReactionsRns | networkExpansionPy/lib.py:271-273 | the reactions left are those of the table that are in the list |
| Network.OxygenIndependentRows | networkExpansionPy/lib.py:499-511 | exactly the rows of the reactions without a row for C00007 survive, each as often as before |
| Network.OxygenIndependentClean | networkExpansionPy/lib.py:499-511 | no surviving row mentions oxygen, and a second removal changes nothing |
| Network.ConvertToIrreversible | networkExpansionPy/lib.py:306-319 | the result has twice the rows, all directed: row i is the forward copy and row \|net\| + i the reverse copy with its coefficient negated |
| Network.ReverseSwapsRoles | networkExpansionPy/lib.py:312-314 | the reverse copy of a row is a reactant exactly where the forward copy is a product, and the other way round |
| Network.ConvertToIrreversibleKeys | networkExpansionPy/lib.py:306-319 | every reaction of the table gets both of its directions, and nothing else becomes a reaction-direction |
| Network.KeepReactionsSplit | networkExpansionPy/lib.py:271-273 | pruning reactions before the split or after it gives the same table |
| Network.SetMetaboliteBounds | networkExpansionPy/lib.py:323-326 | every row gets the bounds and nothing else in it changes |
| Network.KeepGroupAsWritten | networkExpansionPy/lib.py:355-360 | a (reaction, direction) group is kept exactly when it has an effective ΔG and that ΔG is not positive, whatever the flag |
| Network.KeepNaNIgnored | networkExpansionPy/lib.py:356-357 | `keepnan` has no effect on the code as written: a group without ΔG is never kept |
| Network.KeepGroup | networkExpansionPy/lib.py:355-360 | the honoured flag: a group without ΔG is kept exactly when keepnan is set, and a group with ΔG exactly when it is not positive |
| Network.KeepGroupExtends | networkExpansionPy/lib.py:355-360 | honouring the flag changes nothing without keepnan; with keepnan it keeps everything the code keeps and, in addition, the groups without ΔG |
| Network.PruneRows | networkExpansionPy/lib.py:337-362 | exactly the rows of the surviving reaction-directions are kept, each as often as in the table |
| Network.PruneKeepsWholeGroups | networkExpansionPy/lib.py:337-362 | two rows of the same reaction-direction are kept or dropped together |
| Network.PruneSurvivorsFeasible | networkExpansionPy/lib.py:355-362 | whatever the value of keepnan, every surviving reaction-direction has an effective ΔG and it is not positive |
| Network.PruneIgnoresKeepNaN | networkExpansionPy/lib.py:355-362 | the prune gives the same table for both values of keepnan |
| Network.IsRxnCoenzymeCoupled | networkExpansionPy/lib.py:130-136 | a reaction is coupled exactly when it has at least two rows for the pair and their coefficients sum to zero |
| Network.CoupledSymmetric | networkExpansionPy/lib.py:130-136 | the test does not depend on which compound of the pair is named first |
| Network.SplitReactionCoupled | networkExpansionPy/lib.py:130-136 | after the split, a reaction with a row for either compound of the pair always counts as coupled, because the forward and reverse coefficients cancel |
| Network.PairRowsSplit | networkExpansionPy/lib.py:306-319 | the pair rows of a split reaction are the forward copies and then the reverse copies of its own pair rows |
| Network.Coefficients | networkExpansionPy/lib.py:146 | the signed conversion succeeds exactly when every entry converts, and then gives each entry times the sign |
| Network.Zip | networkExpansionPy/lib.py:147 | `zip` yields as many rows as the shorter list, row i pairing cid i with coefficient i |
| Network.LoadEcgNetwork | networkExpansionPy/lib.py:140-152 | the loop builds the rows of every reaction and the list of element-conserving ids |
| Network.EcgRowsAligned | networkExpansionPy/lib.py:144-147 | a well-formed reaction contributes one row per compound: its left compounds with negated coefficients, then its right compounds |
| Network.EcgRowsSkipped | networkExpansionPy/lib.py:145-149 | a reaction with a coefficient that does not convert (such as "n") contributes no row |
| Network.EcgNetworkRows | networkExpansionPy/lib.py:143-147 | every row of the loaded table names one of the reactions and has no direction yet |
| Network.ConsistentRidsMembers | networkExpansionPy/lib.py:150-151 | an id is listed as consistent exactly when a reaction with that id has `element_conservation` true |
| Indexing.Enumerate | networkExpansionPy/lib.py:386-388 | the two dictionaries are inverse bijections between the keys and 0 .. n-1 |
| Indexing.NumberingExtend | networkExpansionPy/lib.py:386-388 | giving a new key the next index extends a numbering |
| Indexing.NumberingInjective | networkExpansionPy/lib.py:386-388 | different keys get different indices |
| Matrices.NumberingLookups | networkExpansionPy/lib.py:380-403 | numbering the compounds and reaction-directions of a split table gives every row an index, so the S assignment never raises KeyError |
| Matrices.SEntry | networkExpansionPy/lib.py:407-414 | an entry of S holds the coefficient of the last row written for that compound and reaction-direction, and is absent when there is no such row |
| Matrices.SBounds | networkExpansionPy/lib.py:409-412 | every entry of S lies inside the matrix |
| Matrices.Reactants | networkExpansionPy/lib.py:430 | R has one row per compound and one column per reaction-direction |
| Matrices.Products | networkExpansionPy/lib.py:431 | P has the same shape |
| Matrices.MatrixEntries | networkExpansionPy/lib.py:430-431 | an entry of R is set exactly where S is negative, and an entry of P exactly where S is positive |
| Matrices.Inputs | networkExpansionPy/lib.py:430-432 | R and P have the shape of the dictionaries, and b counts the reactants of each reaction-direction |
| Matrices.SeedVectorIff | networkExpansionPy/lib.py:367-374 | bit i of the seed vector is set exactly when the compound numbered i is in the seed, so unknown seed ids are ignored |
| Matrices.SeedVectorDisjoint | networkExpansionPy/lib.py:371-373 | a seed without a compound of the network gives the zero vector |
| Matrices.NonzeroIds | networkExpansionPy/lib.py:452-462 | one id is reported per set bit |
| Matrices.NonzeroIdsMembers | networkExpansionPy/lib.py:452-462 | the ids reported are exactly those numbered by a set position |
| Matrices.NonzeroIdsZeros | networkExpansionPy/lib.py:455-456 | nothing is reported for the zero vector |
| Matrices.TraceIndexed | networkExpansionPy/lib.py:452-471 | every set position of every snapshot and of the final pair has an id, so the lookups never raise KeyError |
| Matrices.TranslateNothing | networkExpansionPy/lib.py:452-471 | a seed vector with no bit set reports no compound and a compound list with one empty entry, yet reports the reaction-direction numbered 0 whenever there is one |
| Matrices.InitialActivationIds | networkExpansionPy/lib.py:458-462 | the reaction ids read from the initial y of `netExp` are the id numbered 0 when there is a reaction, and none otherwise |
| Matrices.ReturnedNothing | networkExpansionPy/lib.py:473-480 | with no seed bit set, `reactions_list` is a single empty entry and no lookup fails |
| Matrices.ZeroSeedOutcome | networkExpansionPy/lib.py:442-482 | with a zero seed vector `expand` reports no compound and the reaction-direction numbered 0 when there is one, and returns a `reactions_list` with one empty entry |
| Matrices.ReactionsListAsWritten | networkExpansionPy/lib.py:473-480 | the list as written has one entry per presence vector, because it is built from `x_list` |
| Matrices.ReactionsListAsWrittenIff | networkExpansionPy/lib.py:473-480 | the list fails exactly when a set position of some x has no entry in `idx_to_rid`; otherwise entry j holds the ids that the set positions of x j name in `idx_to_rid` |
| Matrices.ReturnedIff | networkExpansionPy/lib.py:442-482 | with reaction-directions numbered 0 .. n-1, the naive branch raises KeyError exactly when some snapshot holds a compound numbered n or more. Otherwise it returns the translated expansion and a `reactions_list` with one entry per snapshot, read through `idx_to_rid` |
| Matrices.ReactionsListAsWrittenFails | networkExpansionPy/lib.py:473-480 | two compounds and one reaction make the list as written raise KeyError |
| Matrices.ReactionsListAsWrittenWrong | networkExpansionPy/lib.py:473-480 | a compound index read as a reaction index names the wrong reaction, while the list over `y_list` names the right one |
| Matrices.TranslateIntendedSpec | networkExpansionPy/lib.py:452-480 | the corrected reading, zero-started and with `reactions_list` over `y_list`, reports nothing for an empty seed. Its list has one entry per snapshot: the first is empty, entry j holds the reactions enabled by snapshot j-1, and the last is the reported reactions |
| Matrices.TranslateAgrees | networkExpansionPy/lib.py:452-471 | the compounds and the compound lists are the same in the code and in the corrected reading. With a seed bit set, everything else the code reports is the same as well |
| Closure.EntryMeaning | networkExpansionPy/lib.py:411-431 | an entry of R or P is set exactly when the compound is a reactant or a product of the reaction-direction |
| Closure.InputsColumns | networkExpansionPy/lib.py:407-432 | the R, P and b that `expand` builds list the reactants and products of the table and count the reactants |
| Closure.SeedMarks | networkExpansionPy/lib.py:367-374 | the seed vector marks the seed |
| Closure.SeedNonzero | networkExpansionPy/lib.py:371-373 | a seed with a compound of the network sets a bit |
| Closure.OutcomeClosed | networkExpansionPy/lib.py:421-462 | the compounds `expand` reports are closed under the reactions of the table |
| Closure.OutcomeBounds | networkExpansionPy/lib.py:421-462 | the compounds reported hold every seed compound of the network and nothing outside the network |
| Closure.OutcomeLeast | networkExpansionPy/lib.py:421-462 | the compounds reported lie inside every closed set that holds the seed compounds |
| Closure.OutcomeReactions | networkExpansionPy/lib.py:421-462 | a reaction-direction is reported exactly when it belongs to the network and all its reactants were reached |
| Closure.EmptySeedReportsFirstReaction | networkExpansionPy/lib.py:442-462 | a seed without a compound of the network reaches no compound, yet `expand` reports the reaction-direction numbered 0 whenever the network has one |
| Closure.FirstKey | networkExpansionPy/lib.py:386-388 | a numbering has as many entries as keys, and a numbering of a non-empty set gives index 0 to one of its keys |
| Metabolism.GlobalMetabolicNetwork.constructor | networkExpansionPy/lib.py:183-196 | the object holds the loaded table, with no dictionaries or matrix yet |
| Metabolism.GlobalMetabolicNetwork.PruneInconsistentReactions | networkExpansionPy/lib.py:254-260 | the table becomes its rows of element-consistent reactions |
| Metabolism.GlobalMetabolicNetwork.PruneUnbalancedReactions | networkExpansionPy/lib.py:264-267 | the table becomes its rows of balanced reactions |
| Metabolism.GlobalMetabolicNetwork.Subnetwork | networkExpansionPy/lib.py:271-273 | the table becomes its rows of the listed reactions |
| Metabolism.GlobalMetabolicNetwork.OxygenIndependent | networkExpansionPy/lib.py:499-511 | the table loses every reaction that has an oxygen row |
| Metabolism.GlobalMetabolicNetwork.ConvertToIrreversible | networkExpansionPy/lib.py:306-319 | the table becomes its forward and reverse copies, and is then directed |
| Metabolism.GlobalMetabolicNetwork.SetMetaboliteBounds | networkExpansionPy/lib.py:323-326 | every row of the table gets the bounds |
| Metabolism.GlobalMetabolicNetwork.PruneThermodynamicallyInfeasibleReactions | networkExpansionPy/lib.py:330-362 | the table keeps the rows of the surviving reaction-directions and stays directed |
| Metabolism.GlobalMetabolicNetwork.CreateReactionDicts | networkExpansionPy/lib.py:380-390 | the reaction-directions of the table are numbered 0 .. n-1, both ways |
| Metabolism.GlobalMetabolicNetwork.CreateCompoundDicts | networkExpansionPy/lib.py:394-403 | the compounds of the table are numbered 0 .. n-1, both ways |
| Metabolism.GlobalMetabolicNetwork.CreateSFromIrreversibleNetwork | networkExpansionPy/lib.py:407-414 | S is the result of writing every row's coefficient in row order, the last write winning |
| Metabolism.GlobalMetabolicNetwork.InitializeMetaboliteVector | networkExpansionPy/lib.py:367-374 | no vector without a seed set; otherwise the seed vector over the compound numbering |
| Metabolism.GlobalMetabolicNetwork.Expand | networkExpansionPy/lib.py:421-482 | the dictionaries number the table and S is built from it. Without a seed set, with "cr", or with an unknown algorithm it returns an error. For "naive" (any case) it returns the translated expansion as written, or a KeyError when `reactions_list` looks up an index that `idx_to_rid` does not have |
| Metabolism.ExpandNaive | networkExpansionPy/lib.py:442-482 | returns what the naive branch computes as written: the ids of the final pair, of every snapshot's compounds, and of every snapshot's x read through `idx_to_rid`, or none when that lookup fails |
| Metabolism.CollectIds | networkExpansionPy/lib.py:464-471 | entry j of the list holds the ids of vector j |
| Metabolism.CollectReactionsAsWritten | networkExpansionPy/lib.py:473-480 | the loop builds `reactions_list` as written and fails exactly when the list as written fails |
| Metabolism.LookUpSetPositions | networkExpansionPy/lib.py:475-477 | the lookups of one vector fail exactly when a set position has no entry, and otherwise give the ids of the set positions |
| Text.SkipLeft | networkExpansionPy/parseKegg.py:51 | the leading run of characters of the set ends at the first character outside it |
| Text.StripCharsSpec | networkExpansionPy/parseKegg.py:51-56 | `strip(chars)` returns a slice of the text: everything before it and after it is in the set, and its two ends are not |
| Text.StripCharsIdempotent | networkExpansionPy/parseKegg.py:51-56 | stripping twice is stripping once |
| Text.FirstField | networkExpansionPy/parseKegg.py:51 | `split()[0]` is a non-empty run without whitespace, and fails exactly on blank text |
| Text.Find | networkExpansionPy/parseAtlas.py:207 | the search returns the first occurrence at or after the start, or none |
| Text.SplitJoin | networkExpansionPy/parseAtlas.py:207 | joining the pieces of a split with the separator gives the text back |
| Text.SplitPartsFree | networkExpansionPy/parseAtlas.py:207 | no piece of a split contains the separator |
| Text.SplitEquation | networkExpansionPy/parseAtlas.py:207 | the two-way unpacking succeeds exactly when there is one "<=>", and then the two sides rebuild the equation |
| Text.SplitEquationRoundTrip | networkExpansionPy/parseAtlas.py:207 | an equation written as `left <=> right` splits back into left and right |
| Text.CidStartsSpec | networkExpansionPy/parseAtlas.py:202-211 | the matches start exactly at the positions where a non-overlapping left-to-right scan finds C and five digits, and are at least six apart |
| Text.FindCids | networkExpansionPy/parseAtlas.py:210-211 | every match is C followed by five digits |
| Text.Product | networkExpansionPy/parseAtlas.py:218 | the product has \|xs\|·\|ys\| pairs |
| Text.ProductAt | networkExpansionPy/parseAtlas.py:218 | pair i·\|ys\| + j is (xs[i], ys[j]) |
| Text.ProductMembers | networkExpansionPy/parseAtlas.py:218 | a pair is in the product exactly when its components are in the two lists |
| Text.ParseIntRoundTrip | networkExpansionPy/parseAtlas.py:145-146 | `int(str(n)) == n` |
| Ordered.Put | networkExpansionPy/parseAtlas.py:213 | assigning a key maps it to the value, leaves every other key alone, and keeps the old keys in their insertion order |
| ParseAtlas.FirstIndex | networkExpansionPy/parseAtlas.py:157-167 | the first header equal to the name, or none when no header is |
| ParseAtlas.IdentifyColumn | networkExpansionPy/parseAtlas.py:116-178 | the loop returns what the column resolution specifies, exits included |
| ParseAtlas.ColumnByName | networkExpansionPy/parseAtlas.py:157-167 | a name resolves to its first header position and exits exactly when absent |
| ParseAtlas.ColumnByNumber | networkExpansionPy/parseAtlas.py:143-156 | a number c is accepted exactly when c <= len(header) - 1, and then gives c - 1 |
| ParseAtlas.CheckColumnsSpec | networkExpansionPy/parseAtlas.py:168-178 | list mode accepts exactly the lists of numbers no larger than len(header) - 1, and then returns 0 |
| ParseAtlas.LastColumnRejected | networkExpansionPy/parseAtlas.py:148 | the last column, counted from 1, is rejected |
| ParseAtlas.ColumnZeroAccepted | networkExpansionPy/parseAtlas.py:155-156 | column 0 is accepted and gives -1, which Python reads as the last column |
| ParseAtlas.ColumnIndexIntendedSpec | networkExpansionPy/parseAtlas.py:142-156 | with 1-based counting every column is reachable as c - 1, and a single column always resolves inside the header |
| ParseAtlas.EquationPairsMembers | networkExpansionPy/parseAtlas.py:207-218 | a pair comes from an equation exactly when its first compound is on the left and its second on the right |
| ParseAtlas.PairSet | networkExpansionPy/parseAtlas.py:221 | the pairs added to `all_pairs` are those of the equation |
| ParseAtlas.AddReaction | networkExpansionPy/parseAtlas.py:205-221 | one pass of the loop keeps the dictionary well formed |
| ParseAtlas.IdentifyCompounds | networkExpansionPy/parseAtlas.py:180-223 | the loop computes `identify_compounds`, stopping at the first failure |
| ParseAtlas.CompoundsSticky | networkExpansionPy/parseAtlas.py:205-207 | once an equation fails to split, the whole parse fails with that error |
| ParseAtlas.CompoundsOk | networkExpansionPy/parseAtlas.py:205-219 | the parse succeeds exactly when every equation splits and, unless the list is empty, `init` is 0 or 1 |
| ParseAtlas.CompoundsAllPairs | networkExpansionPy/parseAtlas.py:201-221 | `all_pairs` is the union of the pairs of every equation |
| ParseAtlas.CompoundsKeys | networkExpansionPy/parseAtlas.py:213-219 | the keys of `rxn_pairs` are exactly the reaction ids |
| ParseAtlas.CompoundsLastWins | networkExpansionPy/parseAtlas.py:213-219 | every reaction whose id does not recur later holds the entry of its own equation: a repeated id is overwritten |
| ParseAtlas.ReactionRecords | networkExpansionPy/parseAtlas.py:251-254 | a reaction writes one row per reactant and per product |
| ParseAtlas.CreateFullNetwork | networkExpansionPy/parseAtlas.py:227-254 | the nested loops write the header and then every reaction's rows in dictionary order |
| ParseAtlas.FullNetworkLength | networkExpansionPy/parseAtlas.py:248-254 | the file has 1 + Σ(\|reactants\| + \|products\|) rows |
| ParseAtlas.RecordsMembers | networkExpansionPy/parseAtlas.py:250-254 | a (c, rxn, -1) row is written exactly for the reactants of a listed reaction, and a (c, rxn, 1) row exactly for its products |
| ParseAtlas.FullNetworkMembers | networkExpansionPy/parseAtlas.py:248-254 | the same for the whole file written from a dictionary |
| ParseAtlas.CompoundsSides | networkExpansionPy/parseAtlas.py:208-213 | with `init == 0` every entry holds the two sides, as `create_full_network` expects |
| ParseKegg.Tagged | networkExpansionPy/parseKegg.py:50-59 | the selected lines are lines of the file that contain the tag |
| ParseKegg.TaggedMembers | networkExpansionPy/parseKegg.py:50-59 | a line of the file is selected exactly when it contains the tag |
| ParseKegg.TaggedAppend | networkExpansionPy/parseKegg.py:50-59 | the selection keeps the order of the file: selecting from two parts one after the other gives the two selections one after the other |
| ParseKegg.EntryId | networkExpansionPy/parseKegg.py:51 | an ENTRY id is a non-empty run without whitespace |
| ParseKegg.EntryIds | networkExpansionPy/parseKegg.py:50-54 | one id per ENTRY line, failing exactly when some ENTRY line has none |
| ParseKegg.Equations | networkExpansionPy/parseKegg.py:55-59 | one stripped equation per EQUATION line |
| ParseKegg.Zip | networkExpansionPy/parseKegg.py:66 | ids and equations are paired by position |
| ParseKegg.GetRxnPairs | networkExpansionPy/parseKegg.py:45-75 | the loop computes `get_rxn_pairs`, stopping at the first failure |
| ParseKegg.UnequalCountsIff | networkExpansionPy/parseKegg.py:60-63 | the count exception is raised exactly when every ENTRY line has an id but the ENTRY and EQUATION counts differ |
| ParseKegg.RxnPairsZipped | networkExpansionPy/parseKegg.py:64-75 | a successful parse is the ATLAS `identify_compounds` parse, with pairs, of the zipped lists |
| ParseKegg.RxnPairsKeys | networkExpansionPy/parseKegg.py:66-73 | every ENTRY id is a key of `rxn_pairs` |
| ParseKegg.RxnPairsByPosition | networkExpansionPy/parseKegg.py:66-73 | the i-th id, unless it recurs, holds the pairs of the i-th equation |
| ParseKegg.RxnPairsAllPairs | networkExpansionPy/parseKegg.py:74 | `all_pairs` is the union of the pairs of every equation |

## Left out

- File and network I/O are parameters or absent. This covers `__init__`'s CSV and JSON reading, `get_column`, the file reading in `parseKegg.get_rxn_pairs`, and the CSV writer of `create_full_network` (its rows are returned instead). The reference reaction sets of the pruning operations are passed in as sets.
- `tqdm` progress bars and `print` output are not modelled.
- `set_ph` and `load_ecg_thermo` read and build the free-energy table. `set_ph`'s ecg branch also calls an unbound name. Neither is part of this model.
- The floating-point part of `pruneThermodynamicallyInfeasibleReactions` (RT, the logarithms of the bounds, the dot products) is not modelled. The effective ΔG of each reaction-direction is a parameter, and an absent entry stands for NaN. The selection that follows is modelled.
- Network.PruneThermodynamicallyInfeasible: the table comes back in the row order of the source table, not in the group-by-group order of the pandas join; only the rows and their multiplicities are stated.
- `addGenericCoenzymes` is not modelled: it is pandas replace, group-by sums and a join with the free-energy table.
- `init_pruning` is a sequence of the modelled steps with `set_ph` between them, and is not modelled as a member of its own.
- `parse_reaction_trace` is not modelled (positional `iloc` indexing into the table), nor is `copy`.
- `gen_filtered_graph` and the networkx graph are not modelled.
- Indexing.Enumerate: Python numbers the keys in the iteration order of a `set`, which the language leaves unspecified. The model proves that every order gives a numbering and does not fix which one.
- Metabolism.GlobalMetabolicNetwork.Expand: the "cr" branch always fails at `compounds_list`, because `x_list` is only bound by the "naive" branch, so it is modelled as an error. A missing seed set is also an error; the source prints a message and then fails converting None to a matrix.
- The sparse-matrix formats of scipy are not modelled. S is a map of the written entries, and R, P, x and y are dense 0/1 sequences.
- The thermodynamic table `self.thermo`, the temperature and `self.compounds` are fields the core never reads outside the floating-point part, and are not modelled.
- Text.Lower: `str.lower()` is modelled on the ASCII letters only.
- Text.ParseInt: `int()` accepts an optional sign and ASCII digits between whitespace. Underscores and non-ASCII digits are not accepted.
- Text.FindCids: `\d` is modelled as the ASCII digits.
- Network.Row: the coefficient `s` is an integer. Tables with fractional coefficients are not modelled.
- Network.JsonInt: a JSON number converts to its integer value, a string only when it is written as a decimal integer, and null never. JSON floats are not modelled. Every ecg reaction record (`Network.EcgReaction`) is assumed to have its `left`, `right` and `metadata` keys and an `element_conservation` entry, so the KeyError that `load_ecg_network` raises for a missing one outside its `try` (lib.py:144 and 150) is not modelled. `element_conservation` is a boolean, so a JSON value such as 1, which `== True` also accepts, is not modelled.
- Metabolism.GlobalMetabolicNetwork.Expand: the table is assumed split into reaction-directions (`Directed`), as `convertToIrreversible` leaves it. The KeyError that `self.network["direction"]` raises on the unsplit table that `__init__` loads is not modelled.
- Metabolism.GlobalMetabolicNetwork.CreateReactionDicts: the table is assumed split into reaction-directions. The KeyError on the missing `direction` column of an unsplit table is not modelled.
- Metabolism.GlobalMetabolicNetwork.PruneThermodynamicallyInfeasibleReactions: the table is assumed split into reaction-directions. The KeyError that `groupby(['rn','direction'])` raises on an unsplit table is not modelled.
- Metabolism.GlobalMetabolicNetwork.CreateSFromIrreversibleNetwork: every row's compound and reaction-direction are assumed to have indices, as `expand` arranges by building the dictionaries from the same table first. The KeyError or missing-attribute error otherwise is not modelled.
- Metabolism.GlobalMetabolicNetwork.InitializeMetaboliteVector: the compound indices are assumed to lie below the number of compounds, as `create_compound_dicts` makes them. The numpy IndexError for any other dictionary is not modelled.

## Findings

| source | as written | input that shows it | evidently intended | confidence | as-written member | corrected member |
|---|---|---|---|---|---|---|
| networkExpansionPy/lib.py:47 | the initial `y` of `netExp` is `csr_matrix((n_reactions))`, a 1×1 matrix holding the number of reactions | a seed with no compound of the network: the loop never runs, and `expand` reports the reaction numbered 0 | the zero activation vector, as `netExp_cr` and `netExp_trace` use, so such a seed reports no reaction | not executed | Closure.EmptySeedReportsFirstReaction | Matrices.TranslateIntendedSpec |
| networkExpansionPy/lib.py:356 | `if ~keepnan:` tests the bitwise complement of a bool, which is -1 or -2 and always true, so groups without ΔG are always dropped | `keepnan=True` with a reaction-direction missing from the free-energy table: it is removed | drop the groups without ΔG only when `keepnan` is false | not executed | Network.KeepNaNIgnored | Network.KeepGroupExtends |
| networkExpansionPy/lib.py:473-480 | `reactions_list` maps the compound indices of `x_list` through `idx_to_rid` | two compounds and one reaction-direction, both compounds present: KeyError on index 1. With two reactions, compound 0 is reported as reaction 0 | the reaction ids of each vector of `y_list` | not executed | Matrices.ReturnedIff | Matrices.TranslateIntendedSpec |
| networkExpansionPy/parseAtlas.py:148 | a numeric column c is rejected when c > len(header) - 1, though it is counted from 1 (`ii = c - 1`) | a three-column header and column 3: the program exits. Column 0 is accepted and gives -1 | accept 1 <= c <= len(header) and return c - 1 | not executed | ParseAtlas.LastColumnRejected | ParseAtlas.ColumnIndexIntendedSpec |

`pruneThermodynamicallyInfeasibleReactions` takes a parameter `keepnan=False`
(lib.py:330) and tests it before dropping the groups without ΔG
(lib.py:356-357). The flag only makes sense if those groups are meant to
survive when it is set. The code as written never keeps them, and the model
follows the code: `Network.PruneThermodynamicallyInfeasible` selects with
`Network.KeepGroupAsWritten`, and `Network.KeepGroup` is the honoured flag
(second row above).
