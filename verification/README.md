# A verified model of hdl-kgraph's linking, clocking and preprocessing core

hdl-kgraph parses an HDL source tree file by file (pass 1), links the per-file results
into one knowledge graph (pass 2), stores it, and keeps it current through incremental
updates. This project models the algorithms of that program whose results are promised
to *equal* something simpler, in Dafny 4.11, and proves the equalities for all inputs.
`dafny verify dfyconfig.toml` checks everything.

What each module covers:

- `Schema`, `LinkSpec`: nodes, edges, references and units; the graph that pass 2 should
  produce, as a pure function `Full` of the set of units (SystemVerilog INSTANTIATES,
  IMPORTS and EXTENDS, with the cross-language fallback of instantiations). `Resolving` says in
  literal kinds and numbers what a reference resolves to and what `Full` therefore holds.
- `Linker` (module `Linking`), `Database`, `Merge`: the mutable linker with its name indexes, stub
  sharing, emitted set, in-place incremental update and stub collection; the stored
  design under any sequence of updates; merging per-block databases.
- `Incremental`, `IncrementalProof`: the incremental link as a function, and why it
  equals the full one.
- `Order`, `UnionFind`, `Aliases`, `Cdc`: the order of strings, clock-net aliasing, the detector of
  domains merged only through a shared formal port, and clock-domain-crossing suspects.
- `MacroExpansion`, `Preprocessor`, `LineMap`, `Conditionals`, `BothBranches`, `Alternatives`:
  the SystemVerilog preprocessor, its line map, its two conditional modes, and headers spliced
  in alternative arms. `MacroScan` and `MacroText` say what text a macro use becomes, `Grouping`
  which lines a define takes with it, and `Blocks` what a unit leaves behind, block by block.
- `Replay`, `Skips`, `CleanLogs`: the replay of macro logs during an update, which files are
  skipped as included, and what makes a clean unit's log still true.
- `DirtyClosure`, `Normalize`, `Impact`, `Enrich`, `Prune`, `LazyIndex`, `EagerIndex`: the dirty-file
  closure, the size-cast rewrite, the impact radius, enrichment deltas, hierarchy pruning, the
  lazy database-backed indexes and the eager ones they replace. `Lexing`, `Dependence`, `Enriched`
  and `Answers` say of the rewrite, the radius, the deltas and the lazy indexes what their results are
  in terms of the inputs alone. `Collections` holds what several modules ask of sequences and maps.

Code that mutates state is modelled as classes and loops proved against specification
functions; the theorems are lemmas about those functions.

## Where the code and its documentation differ

The model follows the code. Where a difference is pinned down by a lemma, the lemma is named.

- The incremental link is documented as identical to a full link
  (`src/hdl_kgraph/graph/builder.py:1201`). It is, except when an update removes the last
  VHDL file and an untouched SystemVerilog instance was bound case-insensitively to an
  entity of it: changed names are compared with exact case, and the fallback to a full
  link looks for VHDL only in the new tree. `IncrementalProof.IncrementalEqualsFullIff` is the
  exact condition for one update, `AlwaysFullIff` for every history, and
  `RemovingTheLastVhdlFileDiffers` a two-file example.
- Replay of a clean C, C++ or script unit (and, on the macros-only path, of a clean VHDL
  unit) adds it to the processed set; a full build does not. The macro table and the skipped files are
  not affected (`Replay.SetsAgreeIff`, `CleanCUnitDiffers`).
- "Both" mode is documented to emit the other branches beside the one that normal evaluation selects,
  which keeps full confidence. It also runs the define or undef of an arm that it emits only as
  ambiguous, so a later test may see it and the certain lines differ from select mode's
  (`BothBranches.DefinesBreakTheExtension`). Where headers close what they open, the two modes agree if
  and only if their tables do, which is if and only if no alternative changes the table
  (`Alternatives.TablesAgreeIff`).
- In particular include guards and default-define fallbacks are documented to keep full confidence
  (`src/hdl_kgraph/parser/preprocessor.py:18-24`, `docs/usage/build-inputs.md:63-67`). A guard is safe
  if and only if it is not met in an alternative arm before its name is defined
  (`BothBranches.GuardIsSafeIff`, `Alternatives.GuardedHeaderIff`). A header included under a feature flag and
  then again unconditionally is the failing case: the flag's arm defines the guard, and the second
  include emits nothing (`Alternatives.GuardInAlternativeArm`).
- The dirty closure follows includes and macro uses, and the one documented limit is an edit that newly
  defines a macro which a clean file uses by name (`src/hdl_kgraph/incremental.py:15-19`). Only
  expansions are stored as uses, not the names that conditionals test, so an edit that drops a define
  leaves a unit clean whose ifdef tested it, and its stale log is replayed
  (`CleanLogs.TestedMacroIsMissed`). Logs of clean units are right where the names they test are defined as
  before (`CleanLogs.CleanFileKeepsLog`).
- A size cast with a blank between the function's name and its arguments gets only the
  arguments wrapped, although the module comment says the call is wrapped
  (`Normalize.WrapsNameIffAdjacent`, `BlankBeforeArguments`).
- `_prune_tree` keeps the root even for a budget below one, where its comment promises
  the first `max_nodes` nodes (`Prune.TreeArena.PruneTree`).
- The lazy splice does not know which edges a clean file has already stored, so a dirty unit
  that re-splices such a DECLARES edge duplicates a child; the eager splice skips it
  (`LazyIndex.KidsAgreeIff` is the exact condition, `ResplicedHeaderDuplicates` an example).
- A process clocked by several nets is documented as skipped. It has no domain
  (`Cdc.UndomainedIff`), and what has no domain is treated as a combinational bridge: in the
  three-process netlist of `Cdc.MultiClockProcessBridges` there is a crossing behind it, and
  `MultiClockCrossing` reports it.

## Model

| member | source | states |
|---|---|---|
| `Linking.Linker.constructor` | src/hdl_kgraph/graph/builder.py:358-388 | A new linker has an empty graph and empty, mutually consistent indexes. |
| `Linking.Linker.LinkFull` | src/hdl_kgraph/graph/builder.py:1125-1148 | The in-place linker leaves exactly the node and edge sets of the pure specification `Full` of its units, whatever order they come in, and one reference-index row per reference. |
| `Linking.Linker.ResolveTarget` | src/hdl_kgraph/graph/builder.py:507-541 | A reference resolves to the specified targets: exact candidates, else the case-folded cross-language ones, else the shared stub, with the specified confidence. |
| `Linking.Linker.ScoreList` | src/hdl_kgraph/graph/builder.py:543-562 | Same-file, unique, conditional and ambiguous candidates are scored as the set-level `Score` says; the order of the candidate list does not matter. |
| `Resolving.CandidateIff` | src/hdl_kgraph/graph/builder.py:523-531 | The candidates are the declarations of the name and of a kind the reference may have, narrowed to the named package when it has any. |
| `Resolving.OneCandidate` | src/hdl_kgraph/graph/builder.py:546-548 | One candidate is the target: at 1.0 in the reference's own file, at 0.8 elsewhere. |
| `Resolving.OneLocal` | src/hdl_kgraph/graph/builder.py:549-551 | One candidate in the own file wins over any elsewhere, at 1.0. |
| `Resolving.OneUnconditional` | src/hdl_kgraph/graph/builder.py:552-561 | Otherwise a single unconditional candidate wins, among the local ones when there are any: at 1.0 or 0.8. |
| `Resolving.Ambiguous` | src/hdl_kgraph/graph/builder.py:562-562 | Otherwise all candidates are targets, at 0.6. |
| `Resolving.CrossLanguage` | src/hdl_kgraph/graph/builder.py:564-577 | Without a candidate, the VHDL entities of the name in any letter case: at 0.8 when there is one, else at 0.6. |
| `Resolving.Missing` | src/hdl_kgraph/graph/builder.py:541-541 | Without those, the stub of kind Module, Package or Class, at 1.0. |
| `Resolving.RefEdgeIff` | src/hdl_kgraph/graph/builder.py:1090-1122 | An emitted edge names the source, kind, attributes and line of its reference and one of its targets; it is at most as sure as the resolution and the reference, and as sure as one of them. |
| `Resolving.FullEdgeIff` | src/hdl_kgraph/graph/builder.py:443-470 | Every edge of the full link: the first of its source, target and kind in some unit, or what some reference records; nothing else. |
| `Resolving.FullNodeIff` | src/hdl_kgraph/graph/builder.py:443-470 | Every node of the full link: the first of its id in some unit, or the stub of a reference to nothing. |
| `Linking.Linker.Lookup` | src/hdl_kgraph/graph/builder.py:523-525 | The two name indexes return exactly the declared nodes of a kind and (folded) name. |
| `Linking.Linker.EnsureStub` | src/hdl_kgraph/graph/builder.py:681-712 | References to one missing (kind, name) share one stub; an existing node is never replaced. |
| `Linking.Linker.Emit` | src/hdl_kgraph/graph/builder.py:1090-1122 | One edge per source, target, kind, confidence and attributes (line included): an edge equal to one already emitted is not added again. |
| `Linking.Linker.DropChanged` | src/hdl_kgraph/graph/builder.py:1213-1223 | Dirty nodes go with their edges, and affected clean sources lose exactly their pass-2 edges. |
| `Linking.Linker.Reindex` | src/hdl_kgraph/graph/builder.py:1225-1236 | The indexes are rebuilt from the surviving nodes, stubs excluded. |
| `Linking.Linker.Respliced` | src/hdl_kgraph/graph/builder.py:1249-1302 | Splicing the dirty units and re-resolving only the live references adds exactly their nodes, local edges, resolved edges and stubs. |
| `Linking.Linker.CollectStubs` | src/hdl_kgraph/graph/builder.py:1309-1344 | The worklist keeps exactly the least set of stubs containing the anchored ones and closed under stub-to-stub DECLARES. |
| `Linking.Linker.LinkIncremental` | src/hdl_kgraph/graph/builder.py:1176-1305 | The in-place incremental link is the composition drop, reindex, splice, re-resolve, collect of the pure specification. |
| `IncrementalProof.SameNamed` | src/hdl_kgraph/incremental.py:131-149 | Key lemma: a clean reference outside the affected set finds the same named candidates before and after the update, none of them dirty. |
| `IncrementalProof.UntouchedResolvesAlike` | src/hdl_kgraph/incremental.py:131-149 | Hence it resolves to the same targets, confidence and stub, and emits the same edges. |
| `IncrementalProof.RawEdgesAreFull` | src/hdl_kgraph/graph/builder.py:1269-1302 | Kept, spliced and re-resolved edges together are exactly the edges of the full link. |
| `IncrementalProof.CollectedNodes` | src/hdl_kgraph/graph/builder.py:1309-1344 | After stub collection a node is in the graph exactly when the full link has it. |
| `IncrementalProof.IncrementalEqualsFull` | src/hdl_kgraph/graph/builder.py:1201-1208 | The promised equality: unless an untouched reference was bound across languages, the incremental link has the nodes and edges of the full link. |
| `IncrementalProof.IncrementalEqualsFullIff` | src/hdl_kgraph/graph/builder.py:1201-1208 | The exact condition: equality holds if and only if no untouched source of the prior graph instantiates an entity of a removed VHDL file. |
| `IncrementalProof.PureSvNotStale` | src/hdl_kgraph/pipeline.py:504-520 | A prior tree without VHDL always meets the condition. |
| `IncrementalProof.UnboundVhdlMayGo` | src/hdl_kgraph/pipeline.py:504-520 | So does the removal of VHDL, down to the last file, that no reference was bound to. |
| `IncrementalProof.StepIsFullIff` | src/hdl_kgraph/pipeline.py:504-556 | One commit, incremental or falling back on VHDL, leaves the full link if and only if it falls back or is not stale. |
| `IncrementalProof.AlwaysFullIff` | src/hdl_kgraph/graph/builder.py:1176-1305 | Over every history of commits: the stored graph is the full link after each of them if and only if no incremental commit is stale. |
| `IncrementalProof.HistoryStaysFull` | src/hdl_kgraph/graph/builder.py:1176-1305 | Under that condition the graph left by any number of commits is the full link of the last units. |
| `IncrementalProof.RemovingTheLastVhdlFileDiffers` | src/hdl_kgraph/graph/builder.py:564-577 | Concrete two-file design where the equality fails: an instance `Foo` bound to a VHDL entity `foo` whose file is removed. |
| `Database.ChangedTargetNames` | src/hdl_kgraph/incremental.py:77-97 | The loops collect exactly the (kind, name) definitions of dirty files, on the prior and on the new side. |
| `Database.TouchesIff` | src/hdl_kgraph/incremental.py:143-148 | A change touches a reference when it is to a definition of the target name and of a kind, spelled out, that the reference could resolve to. |
| `Database.AffectedCleanRefs` | src/hdl_kgraph/incremental.py:131-149 | Exactly the reference-index rows that may target a changed name. |
| `Database.Design.constructor` | src/hdl_kgraph/graph/builder.py:1125-1148 | A full build stores the full link and the full reference index. |
| `Database.Design.Update` | src/hdl_kgraph/pipeline.py:482-556 | One update, incremental or falling back on VHDL: the stored graph is the full link if and only if the exact condition holds, and the invariant survives under the same condition. |
| `Database.ApplyAll` | src/hdl_kgraph/pipeline.py:482-556 | Any run of updates on the mutable design, none of them stale, ends in exactly the full link and reference index of the last revision. |
| `Merge.Absorb` | src/hdl_kgraph/merge.py:221-249 | One more source keeps one IR per path under each policy, or names a path on which two sources differ. |
| `Merge.RunMerge` | src/hdl_kgraph/merge.py:252-331 | The four outcomes, each characterised: no sources, no units, a path on which two sources differ, or exactly one unit per path of any source, the one the policy names. |
| `Merge.KeptContent` | src/hdl_kgraph/merge.py:221-249 | ERROR succeeds only if no two sources disagree; FIRST keeps the first holder of a path, LAST the content hash of the last. |
| `Merge.LinkInEitherOrder` | src/hdl_kgraph/graph/builder.py:389-413 | Two runs of the list-driven linker over the same units in any two orders leave one graph; that the loops forget the order is what `LinkFull` proves, since its specification is a function of the unit map. |
| `Merge.MergeAndLink` | src/hdl_kgraph/merge.py:298-345 | Under any policy and whatever conflicts it settled, a merge that succeeds links to the full link of exactly the units the policy keeps. |
| `Merge.MergedIsMonolithic` | src/hdl_kgraph/merge.py:7-22 | When the sources are blocks of one design, overlapping or not, those units are the design: the merged graph is that of a monolithic build and of no other. |
| `UnionFind.AliasForest.Find` | src/hdl_kgraph/graph/clocks.py:124-130 | Path-compressing find returns the root and changes no root of any id; both loops end because parents strictly decrease. |
| `UnionFind.AliasForest.Union` | src/hdl_kgraph/graph/clocks.py:132-138 | Union joins the two components and nothing else, keeping the smaller root. |
| `UnionFind.SameRootIffConnected` | src/hdl_kgraph/graph/clocks.py:120-138 | Two ids share a root if and only if the unions connect them. |
| `UnionFind.RootIsMinimum` | src/hdl_kgraph/graph/clocks.py:120-138 | The root is the lexicographically smallest id of its component. |
| `UnionFind.RootsAreCanonical` | src/hdl_kgraph/graph/clocks.py:168-178 | Roots depend only on which ids are connected, not on the order of unions and finds. |
| `UnionFind.AliasUf` | src/hdl_kgraph/graph/clocks.py:168-173 | Folding the pairs represents exactly their transitive closure. |
| `Aliases.NoMissedCollapse` | src/hdl_kgraph/graph/clocks.py:181-221 | A component none of whose formals collapses holds at most one net that is never a formal; no acyclicity is needed. |
| `Aliases.Corroborated` | src/hdl_kgraph/graph/clocks.py:204-220 | A formal is let pass exactly when single bindings alone connect all its actuals. |
| `Aliases.AliasCollapses` | src/hdl_kgraph/graph/clocks.py:181-221 | Per domain root, exactly the collapsing formals, sorted, each with the sorted list of its nets. |
| `Aliases.CollapsedDomainReported` | src/hdl_kgraph/graph/clocks.py:181-221 | Two distinct root nets merged into one domain always get that domain reported. |
| `Cdc.ProcessDomains` | src/hdl_kgraph/graph/clocks.py:414-427 | A process is in a domain exactly when all its clock edges name one net, with its first edge's confidence. |
| `Cdc.UndomainedIff` | src/hdl_kgraph/graph/clocks.py:414-427 | A process has no domain if and only if it has no clock edge or two clock edges naming different nets. |
| `Cdc.MultiClockProcessBridges` | src/hdl_kgraph/graph/clocks.py:440-464 | Concrete netlist: a process on two clocks, documented as skipped, is the one hop of a path from one domain into the other, and the crossing holds. |
| `Cdc.DirectDrives` | src/hdl_kgraph/graph/clocks.py:429-446 | Per signal and domain the first of the strongest direct drives is recorded, and every direct drive at least as strongly. |
| `Cdc.Sweep` | src/hdl_kgraph/graph/clocks.py:448-464 | What the single in-place sweep finds, exactly: each recorded reach has a path whose hops first drive something in the order of the path, and every such path, of any length, is recorded with at least its weakest evidence; evidence only gives way to stronger. |
| `Cdc.PathEvidence` | src/hdl_kgraph/graph/clocks.py:444-462 | A path's confidence is the least of the confidences of its edges: none is below it and one equals it. |
| `Cdc.CdcSuspects` | src/hdl_kgraph/graph/clocks.py:404-498 | Each suspect has a witnessing path in sweep order and is exactly as sure as the weakest of its edges and the reader's; it is declared safe exactly by an asynchronous pair, a directed false path or a false-path net; every crossing of such a path is reported at any confidence that none of its edges is below. |
| `MacroText.NoUse` | src/hdl_kgraph/parser/preprocessor.py:413-418 | Text without a macro use stays as it is. |
| `MacroText.FileUse` | src/hdl_kgraph/parser/preprocessor.py:421-423 | `__FILE__` becomes the quoted name of the file. |
| `MacroText.LineUse` | src/hdl_kgraph/parser/preprocessor.py:424-426 | `__LINE__` becomes the line number in decimal, without leading zeros. |
| `MacroText.KeptUse` | src/hdl_kgraph/parser/preprocessor.py:427-442 | A directive, an unknown name and a macro being expanded stay as they are written. |
| `MacroText.ObjectUse` | src/hdl_kgraph/parser/preprocessor.py:443-450 | The next use of a macro without parameters contributes its body, operators applied and expanded in turn with its name on the stack, and the text goes on behind the name. |
| `MacroText.CallUse` | src/hdl_kgraph/parser/preprocessor.py:443-479 | A call contributes its text, expanded in turn with its name on the stack, and what follows goes on behind the closing parenthesis. |
| `MacroText.CallReplacementIs` | src/hdl_kgraph/parser/preprocessor.py:478-511 | That text: the body with each parameter replaced by the trimmed argument between the top-level commas, by its default or by nothing, and the operators applied. |
| `MacroText.UnclosedUse` | src/hdl_kgraph/parser/preprocessor.py:457-474 | Without arguments that open, and close on the line, only the use's name stays, and the blanks behind it go. |
| `MacroText.AddExample` | src/hdl_kgraph/parser/preprocessor.py:495-499 | A macro ADD(a) with body `a+1`, called with ` x `, becomes `x+1`, whatever follows. |
| `MacroScan.FilledWord` | src/hdl_kgraph/parser/preprocessor.py:495-499 | A whole word of a body gives way to its bound text, which is not looked at again, or stays when unbound; what stands before and after is replaced independently. |
| `MacroScan.FilledOther` | src/hdl_kgraph/parser/preprocessor.py:495-499 | Characters outside words stay. |
| `MacroScan.BindIs` | src/hdl_kgraph/parser/preprocessor.py:482-494 | The i-th parameter is bound to its non-empty argument, else to its default, else to nothing; of two of one name the later counts. |
| `MacroScan.ScanParensIff` | src/hdl_kgraph/parser/preprocessor.py:518-534 | The scan ends at the first parenthesis outside strings that leaves more closed than opened, and fails exactly when there is none. |
| `MacroScan.SplitIsAtTopCommas` | src/hdl_kgraph/parser/preprocessor.py:537-560 | Arguments are cut at exactly the commas outside brackets and strings. |
| `MacroScan.EscapedQuote` | src/hdl_kgraph/parser/preprocessor.py:500-501 | The operator that writes an escaped quote, wherever the first backtick stands. |
| `MacroScan.Pasted` | src/hdl_kgraph/parser/preprocessor.py:500-501 | Token pasting drops a double backtick. |
| `MacroScan.LoneBacktick` | src/hdl_kgraph/parser/preprocessor.py:500-501 | A backtick before any other character stays, so uses nested in a body survive. |
| `MacroExpansion.DepthLimitUnreachable` | src/hdl_kgraph/parser/preprocessor.py:410-451 | With at least as many levels as table names, every depth limit gives the same expansion: the limit branch is unreachable. |
| `MacroExpansion.StackShorterThanTable` | src/hdl_kgraph/parser/preprocessor.py:430-447 | A stack of distinct defined names is shorter than the table when one more defined name is about to be pushed. |
| `MacroExpansion.Pushed` | src/hdl_kgraph/parser/preprocessor.py:430-447 | Pushing keeps the stack names distinct and defined and shrinks the termination measure. |
| `Preprocessor.Machine.Process` | src/hdl_kgraph/parser/preprocessor.py:231-271 | The line loop, with continued defines and nested includes, computes the recursive `Run` of its logical lines. |
| `Preprocessor.Machine.Preprocess` | src/hdl_kgraph/parser/preprocessor.py:213-227 | One unit against the shared macro table: fresh stack, output, line map and log, and whether a conditional was left open. |
| `Grouping.GroupIsPartition` | src/hdl_kgraph/parser/preprocessor.py:231-271 | The logical lines follow each other from the first line to the last; a define takes exactly the lines that end in a backslash and the one after them, any other line stands alone. |
| `Grouping.NoneInside` | src/hdl_kgraph/parser/preprocessor.py:242-250 | No logical line starts inside a define's continuation. |
| `Grouping.HeldOnce` | src/hdl_kgraph/parser/preprocessor.py:231-271 | Every physical line belongs to exactly one logical line. |
| `Grouping.SplitJoins` | src/hdl_kgraph/parser/preprocessor.py:266-270 | The output lines of an expanded text, joined by newlines, are that text. |
| `Blocks.UnitIsBlockEvaluation` | src/hdl_kgraph/parser/preprocessor.py:213-380 | In either mode, a unit leaves the output, line map, table, log and headers of a recursive evaluation of its blocks that knows no frame stack: an arm is compiled when selected, or as an alternative, and stamped so, when both mode has seen a test on an undefined name. Spliced headers must close what they open. |
| `LineMap.RunContinues` | src/hdl_kgraph/parser/preprocessor.py:213-227 | Nested includes and multi-line expansions keep output and line map of equal length, extend both, and keep the log equal to the table's changes. |
| `LineMap.UnitAlignedAndLogged` | src/hdl_kgraph/parser/preprocessor.py:164-169 | For a whole unit: as many origins as lines, and replaying its log gives the table it leaves. |
| `LineMap.FileCovered` | src/hdl_kgraph/parser/preprocessor.py:231-284 | The origins a file's own invocation emits are nondecreasing and cover every source line from 1 to the last. |
| `LineMap.IncludedAreShown` | src/hdl_kgraph/parser/preprocessor.py:341-380 | The headers a unit records as included are, but for unreadable and empty ones, exactly the other files whose lines its map shows. |
| `Conditionals.ParseRoundTrip` | src/hdl_kgraph/parser/preprocessor.py:312-339 | Every directive stream, well nested or not, parses into a block tree that flattens back to it. |
| `Conditionals.SelectModeIsBlockEvaluation` | src/hdl_kgraph/parser/preprocessor.py:231-380 | In select mode the frame-stack machine emits the lines and leaves the table of the recursive evaluation of that tree (IEEE 1800-2017 section 22.6), spliced headers included; each header the run splices must close the groups it opens. |
| `Conditionals.ClosedFilesClose` | src/hdl_kgraph/parser/preprocessor.py:341-380 | The text alone can show it: no include, or only closed files to include. |
| `Conditionals.UnclosedHeaderLeaks` | src/hdl_kgraph/parser/preprocessor.py:312-339 | The premise is needed: a header with one endif, spliced inside a group, makes the machine run the define of the untaken arm. |
| `BothBranches.EmitsAlike` | src/hdl_kgraph/parser/preprocessor.py:273-277 | Select mode emits exactly where both mode emits without ambiguity. |
| `BothBranches.AgreesIff` | src/hdl_kgraph/parser/preprocessor.py:231-339 | The exact condition for every stream, from any states in step: at every line, those of spliced headers included, the two modes have the same table and take the same arms, if and only if no line that both mode runs in an ambiguous region changes the table, and no header spliced there changes the open groups or emits a certain line. |
| `BothBranches.UnitsAgreeIff` | src/hdl_kgraph/parser/preprocessor.py:213-227 | The same for whole units over any table. |
| `BothBranches.BothExtendsSelectOnUnits` | src/hdl_kgraph/parser/preprocessor.py:18-24 | Under that condition alone, the unstamped lines of both mode are exactly the lines of select mode and the final tables are equal; redefinitions and dead or unconditional defines are all allowed. |
| `Alternatives.AltBlock` | src/hdl_kgraph/parser/preprocessor.py:273-380 | Under an ambiguous group any block, with any headers that close what they open, emits nothing certain and leaves the open groups as they were. |
| `Alternatives.UncertainLineIff` | src/hdl_kgraph/parser/preprocessor.py:341-380 | So in an alternative arm a line, or a header that closes what it opens, is safe if and only if it leaves the table unchanged. |
| `Alternatives.AgreesIffKept` | src/hdl_kgraph/parser/preprocessor.py:231-380 | With such headers the two modes agree at every position if and only if no alternative changes the table. |
| `Alternatives.TablesAgreeIff` | src/hdl_kgraph/parser/preprocessor.py:286-310 | The tables alone decide: text and arms agree everywhere, headers included, if and only if the tables of the two runs do. |
| `Alternatives.FixedTablesExtend` | src/hdl_kgraph/parser/preprocessor.py:18-24 | A source without define and undef lines is extended conservatively, whatever its conditionals and includes. |
| `BothBranches.GuardIsSafeIff` | src/hdl_kgraph/parser/preprocessor.py:18-24 | Anywhere: the opening lines of an include guard or fallback meet the condition if and only if they do not stand in an alternative arm whose table lacks the name; the rest falls on the lines behind them. |
| `BothBranches.GuardedUnitsAreSafe` | src/hdl_kgraph/parser/preprocessor.py:18-24 | A unit that is one guard around text, or a lone fallback, meets the condition over every table. |
| `Alternatives.GuardedHeaderIff` | src/hdl_kgraph/parser/preprocessor.py:341-380 | Splicing a guarded header of text is safe if and only if the include does not stand in an alternative arm while the guard's name is undefined. |
| `Alternatives.GuardInAlternativeArm` | src/hdl_kgraph/parser/preprocessor.py:18-24 | Concrete unit, a guarded header included under a flag and then again: select mode emits its text, both mode emits no certain line of it. |
| `BothBranches.DefinesBreakTheExtension` | src/hdl_kgraph/parser/preprocessor.py:286-310 | Where the condition fails the extension can fail: a concrete five-line stream. |
| `BothBranches.AtMostOneArmSelected` | src/hdl_kgraph/parser/preprocessor.py:312-339 | In either mode, in every run of a unit and through its headers: a group selected at some depth, left for another arm of its chain, is followed by no other selected arm of that chain. |
| `Replay.ReplaySimulates` | src/hdl_kgraph/pipeline.py:882-924 | If each clean unit's log is what preprocessing it there would record, replay has the full build's macro table and skips the same files at every position; the sets differ by a characterised extra set. |
| `Replay.NeverBoth` | src/hdl_kgraph/pipeline.py:910-924 | At every position of the full build and of the update, whatever the stored logs say, no file is both processed and consumed. |
| `Replay.SetsAgreeIff` | src/hdl_kgraph/pipeline.py:1278-1304 | The states agree entirely if and only if no clean unit of another language was replayed. |
| `Replay.CleanCUnitDiffers` | src/hdl_kgraph/pipeline.py:565-587 | They need not: a clean C file is marked processed by the replay only. |
| `Replay.PureSvAgrees` | src/hdl_kgraph/pipeline.py:1278-1304 | In a SystemVerilog tree the update and the full build coincide at every position. |
| `Replay.Execute` | src/hdl_kgraph/pipeline.py:882-924 | The pass-1 loop computes the specified state and the logs of exactly the files it preprocesses. |
| `Skips.SkippedIff` | src/hdl_kgraph/pipeline.py:882-924 | In a full build a file is skipped if and only if an earlier SystemVerilog file that was not skipped splices it. |
| `Skips.ProcessedIff` | src/hdl_kgraph/pipeline.py:882-924 | Exactly the SystemVerilog files that are not skipped are preprocessed on their own. |
| `Skips.TableThreads` | src/hdl_kgraph/pipeline.py:882-924 | The macro table threads through exactly those files, in order. |
| `Skips.UpdateSkippedIff` | src/hdl_kgraph/pipeline.py:1278-1304 | An update skips a file if and only if an earlier one it did not skip splices it, by its stored log when that one is clean. |
| `Skips.UpdateTableThreads` | src/hdl_kgraph/pipeline.py:1278-1304 | A clean unit changes the table by its stored log, a changed one by its preprocessing, a skipped one not at all. |
| `Skips.LogsIff` | src/hdl_kgraph/pipeline.py:882-924 | The new logs are exactly those of the changed SystemVerilog files that are not skipped, as preprocessed at their places. |
| `CleanLogs.RunFrame` | src/hdl_kgraph/parser/preprocessor.py:231-380 | What a run depends on: over any table that defines the same tested names, and whatever the dirty files now hold, the run of a file outside the closure logs the same events and headers. |
| `CleanLogs.CleanFileKeepsLog` | src/hdl_kgraph/incremental.py:183-215 | So a file outside the closure keeps its stored log where the names it tests are defined as before. |
| `CleanLogs.KeptIsFaithful` | src/hdl_kgraph/pipeline.py:1278-1304 | At every position of an update the replay hypothesis follows from that. |
| `CleanLogs.UpdateIsFullBuild` | src/hdl_kgraph/pipeline.py:1373-1440 | Re-preprocessing only the closure then ends with the full build's macro table and skips the same files. |
| `CleanLogs.TestedMacroIsMissed` | src/hdl_kgraph/parser/preprocessor.py:312-339 | Concrete two-file edit where it does not: a dropped define that another unit only tests. |
| `DirtyClosure.Dependents` | src/hdl_kgraph/incremental.py:195-213 | The direct dependents of one file, none missed, each with a true reason. |
| `DirtyClosure.DirtyClosure` | src/hdl_kgraph/incremental.py:183-215 | Exactly the least set containing the seeds and closed under reverse include and macro use; every other file's reason names a dependency on a file dirtied earlier. |
| `Normalize.InnermostMatches` | src/hdl_kgraph/parser/sv_normalize.py:97-109 | The innermost open parenthesis on the scanner's stack is the one that matches by depth, and there is one exactly when a match exists. |
| `Normalize.CastAtExact` | src/hdl_kgraph/parser/sv_normalize.py:111-128 | The scanner's lookup at a tick finds exactly the size casts whose type is a matched call group. |
| `Normalize.EditSource` | src/hdl_kgraph/parser/sv_normalize.py:111-128 | Every insertion belongs to such a cast: an opening parenthesis at its name or a closing one at its tick. |
| `Normalize.EditsMade` | src/hdl_kgraph/parser/sv_normalize.py:111-128 | Every such cast has both parentheses inserted. |
| `Normalize.FindCasts` | src/hdl_kgraph/parser/sv_normalize.py:57-134 | The single scanning loop collects exactly those insertions, at distinct positions. |
| `Normalize.NormalizeSource` | src/hdl_kgraph/parser/sv_normalize.py:34-147 | Sorting and applying the insertions yields the text woven with exactly those edits, or the text itself when there are none. |
| `Normalize.RewriteIsConservative` | src/hdl_kgraph/parser/sv_normalize.py:10-18 | Erasing the insertions restores the text; newline count and final code-level depth are unchanged. |
| `Normalize.RewriteKeepsPlaces` | src/hdl_kgraph/parser/sv_normalize.py:15-18 | Every original character keeps its lexical mode (comment, string, code) and its line. |
| `Normalize.RewriteNeverDips` | src/hdl_kgraph/parser/sv_normalize.py:10-18 | Insertions are parentheses in code, and no prefix depth falls below the original's. |
| `Normalize.WrapsNameIffAdjacent` | src/hdl_kgraph/parser/sv_normalize.py:122-128 | The inserted parenthesis takes in the callee's name if and only if the name touches its argument list. |
| `Normalize.BlankBeforeArguments` | src/hdl_kgraph/parser/sv_normalize.py:122-128 | Concrete input with a blank there: only the arguments are wrapped. |
| `Lexing.LineComments` | src/hdl_kgraph/parser/sv_normalize.py:63-87 | A line comment takes everything up to the newline out of the code, and nothing behind it. |
| `Lexing.BlockComments` | src/hdl_kgraph/parser/sv_normalize.py:68-91 | A block comment ends at the first closing mark behind its opening one, and code follows. |
| `Lexing.Strings` | src/hdl_kgraph/parser/sv_normalize.py:75-95 | A string ends at its first quote that is not escaped, and code follows. |
| `Dependence.ScopeEncloses` | src/hdl_kgraph/graph/analysis.py:240-252 | A node that is no unit is enclosed by what encloses the first scope on record to declare it. |
| `Dependence.FileAffects` | src/hdl_kgraph/graph/analysis.py:268-281 | A change to a file affects exactly its includers, the users of its macros and the units it declares. |
| `Dependence.NodeAffects` | src/hdl_kgraph/graph/analysis.py:283-294 | A change to any other node affects exactly the units that instantiate, import, use or bind it, what extends or implements it, and, for an architecture, its entity. |
| `Dependence.PrecedesIff` | src/hdl_kgraph/graph/analysis.py:331-331 | The report is ordered by distance, the text of the kind, the name and the id. |
| `Impact.EnclosingUnit` | src/hdl_kgraph/graph/analysis.py:240-252 | Returns the first unit up the declaring chain if there is one, and None exactly when there is none, cyclic chains included. |
| `Impact.ImpactDependents` | src/hdl_kgraph/graph/analysis.py:255-294 | Exactly the (node, edge kind) pairs that a change to the node affects. |
| `Impact.NothingBeyond` | src/hdl_kgraph/graph/analysis.py:309-330 | Beyond an empty layer no node has a distance. |
| `Impact.ImpactRadius` | src/hdl_kgraph/graph/analysis.py:297-331 | Each affected non-seed is reported once with its shortest distance and a dependence that pulled it in, exactly when the distance is within max_depth (any when not positive), sorted by distance, kind, name and id. |
| `Impact.ReportIsDetermined` | src/hdl_kgraph/graph/analysis.py:297-331 | Hence two reports of one search list the same nodes at the same distances in the same order, however seeds and edges are listed. |
| `Enrich.WithEdgeMerges` | src/hdl_kgraph/graph/builder.py:336-354 | An edge is either appended or upgrades the first edge of its source, target and kind. |
| `Enrich.EdgesIdempotent` | src/hdl_kgraph/graph/builder.py:336-354 | Merging a list of edges a second time changes nothing, several updates to one edge included. |
| `Enrich.ApplyTwice` | src/hdl_kgraph/enrich/runner.py:70-98 | Applying a delta twice leaves the graph of applying it once. |
| `Enrich.ApplyOnlyGrows` | src/hdl_kgraph/enrich/runner.py:1-7 | No node or edge is removed, no edge moves or changes key, no confidence is lowered, no attribute name is lost. |
| `Enrich.LiveGraph.AddOrUpgradeEdge` | src/hdl_kgraph/graph/builder.py:336-354 | The search loop upgrades the first match or appends, and says which. |
| `Enrich.LiveGraph.ApplyDelta` | src/hdl_kgraph/enrich/runner.py:70-98 | The mutating loops compute the specified graph and counts; upgrades with a missing endpoint are skipped. |
| `Enriched.FirstBecomes` | src/hdl_kgraph/graph/builder.py:336-354 | After a list is merged, the first edge of a key is as sure as the surest that the edge or the list says and has each attribute as the list names it last, else as before; other edges stay. |
| `Enriched.NewBecomes` | src/hdl_kgraph/graph/builder.py:336-354 | Every added edge is the only one of a key that was missing, and is what the list says about it. |
| `Enriched.MissingEndpoint` | src/hdl_kgraph/enrich/runner.py:81-82 | An upgrade with an endpoint that neither the graph nor the delta has might as well not be in the delta. |
| `Enriched.LoneMissing` | src/hdl_kgraph/enrich/runner.py:81-82 | Alone it leaves the graph as it is. |
| `Enriched.NewNodeIs` | src/hdl_kgraph/graph/builder.py:325-333 | A missing node comes in as its first entry says; a present one is kept. |
| `Enriched.AnnotatedIs` | src/hdl_kgraph/enrich/runner.py:96-98 | An annotation overrides the attributes it names, the last one winning, and changes nothing else. |
| `Prune.Requeue` | src/hdl_kgraph/mcp/server.py:113-121 | Popping from the front and appending children visits a forest level by level. |
| `Prune.TreeArena.CountTree` | src/hdl_kgraph/mcp/server.py:105-106 | The recursive count is the size of the tree. |
| `Prune.TreeArena.PruneTree` | src/hdl_kgraph/mcp/server.py:109-127 | In-place pruning keeps exactly the first min(total, max(1, max_nodes)) nodes in breadth-first order, each with its kept children in order and marked if it lost any; kept plus omitted is the original size. |
| `EagerIndex.EagerDefsAreTheLinkers` | src/hdl_kgraph/graph/builder.py:1213-1255 | Dropping the dirty files, reindexing and splicing on the linker itself leave the nodes and, up to order, both definition indexes that the lazy ones are measured against. |
| `LazyIndex.DefsAgree` | src/hdl_kgraph/graph/bounded_link.py:335-366 | The definitions of a key are the same, up to order, whatever order the store returns rows in; with `GetDefs` and `EagerDefsAreTheLinkers`, the lazy answer is the linker's. |
| `LazyIndex.KidsAgreeIff` | src/hdl_kgraph/graph/bounded_link.py:369-402 | Children agree with the eager index for every parent if and only if no splice repeats a stored DECLARES edge. |
| `LazyIndex.ResplicedHeaderDuplicates` | src/hdl_kgraph/graph/bounded_link.py:159-170 | Concrete store and splice where it does: the lazy index lists the child twice. |
| `LazyIndex.ParentAgreesIff` | src/hdl_kgraph/graph/bounded_link.py:405-426 | The declaring scope agrees, whatever order the eager side reads the store in, if and only if the last scope spliced for the child is also the last one spliced that the store does not hold or, when there is none of those, all its stored declarers and any repeated splice name one scope. |
| `Answers.NodeAnswered` | src/hdl_kgraph/graph/bounded_link.py:296-332 | The node of an id is its surviving row, else the first spliced, else none. |
| `Answers.StoredKidsAre` | src/hdl_kgraph/graph/bounded_link.py:380-399 | The stored children of a scope are, in row order, exactly the ends of its edges between surviving nodes. |
| `Answers.SplicedAre` | src/hdl_kgraph/graph/bounded_link.py:159-170 | The spliced edges are the DECLARES splices, in order, each where it first occurs. |
| `Answers.ParentAnswered` | src/hdl_kgraph/graph/bounded_link.py:405-426 | The declaring scope is that of the last edge spliced into the child, else of the first stored one between surviving nodes. |
| `LazyIndex.LazyIndexes.GetNode` | src/hdl_kgraph/graph/bounded_link.py:296-332 | Memo, negative memo and store together answer as the eager node map, also for ids spliced after a miss. |
| `LazyIndex.LazyIndexes.GetDefs` | src/hdl_kgraph/graph/bounded_link.py:343-363 | Memoised store rows plus overlay are the surviving and the spliced definitions of the key. |
| `LazyIndex.LazyIndexes.GetKids` | src/hdl_kgraph/graph/bounded_link.py:380-399 | Memoised store rows plus overlay are the rows of the stored and the spliced children. |
| `LazyIndex.LazyIndexes.SpliceNode` | src/hdl_kgraph/graph/bounded_link.py:152-158 | Splicing a node keeps all four indexes consistent with the splice history; a known id is left alone. |
| `LazyIndex.LazyIndexes.SpliceArc` | src/hdl_kgraph/graph/bounded_link.py:159-170 | Splicing a DECLARES edge, once, keeps them consistent. |
| `LazyIndex.ServeAll` | src/hdl_kgraph/graph/bounded_link.py:296-426 | Any interleaving of splices and lookups is answered as by the eager indexes, lists up to order. |

## Left out

Premises of the link theorems:

- One owning unit per node: a header spliced into several units, so that a node's file is
  not its unit's path, is not modelled; neither are units whose local edges dangle.
- Edge kinds: CONNECTS, PARAMETERIZES, DRIVES, READS and the other scoped dataflow
  references, stub children, TEST_COVERS derivation, file references, cocotb, constraint, script, and
  foreign-function references are not in the link model. The child and parent indexes appear only
  in `LazyIndex`.
- VHDL library, architecture and configuration scoping and SystemVerilog binds: the incremental path
  falls back to a full link for them; the model keeps only the fallback on VHDL presence.
- Graph order: nodes and edges are sets (edge sequences where first-match matters, in
  `Enrich`, `Impact` and `LazyIndex`, follow insertion order).
- Merge: a unit's content hash stands for its content; the report is not modelled.

Admitted weaker statements:

- Linking.Linker.Reindex: the child and parent indexes seeded beside the definitions are not fields of this linker; `LazyIndex` treats them.
- Database.Design.Update: of the fallbacks to a full link only the one on VHDL is modelled; binds, cocotb, constraints and enrichment state are not.
- Merge.RunMerge: the source gate (root mismatch, elaborated sources), adapter data and extra files are not modelled.
- Conditionals.SelectModeIsBlockEvaluation: the headers a run splices must close what they open. The stack is shared by a unit and its headers, so one that does not can end its includer's group (`UnclosedHeaderLeaks`); there is no converse, since such a header may also do no harm.
- Alternatives.TablesAgreeIff: for headers that close what they open; `BothBranches.AgreesIff` is the condition for all others.
- Alternatives.GuardedHeaderIff: the guard encloses text only; for any other body `BothBranches.GuardIsSafeIff` leaves the condition on the body.
- MacroScan.Pasted: not where a backslash or a third backtick follows; before a quote `MacroScan.PastedQuote` holds.
- Grouping.GroupIsPartition: whether a line continues a define is a flag of the line; a blank line behind a doubled backslash, which the code would also read past, is not told apart.
- Skips.SkippedIff: for distinct file paths, as discovery lists them.
- CleanLogs.CleanFileKeepsLog: include arguments are spelled out, not macros, and includes resolve as before; the closure's treatment of newly resolvable includes is not part of this model.
- LazyIndex.DefsAgree: two row orders of one specification, which `GetDefs` and `EagerIndex` tie to the two implementations.
- Impact.ImpactRadius: the choice among several declaring parents is first in edge order.
- Enrich.LiveGraph.AddOrUpgradeEdge: endpoints are taken to exist, as its documentation asks of callers.

Form:

- `Prune`: the nested dictionaries are one mutable table of child lists keyed by id; ids are distinct,
  so a node shared by two parents is excluded.
- `Enrich`, `Impact`, `LazyIndex`: a multigraph is a map of nodes and a sequence of edges in insertion order.
- `LazyIndex`: the four lazy dictionaries are the fields of one object.
- `UnionFind`, `Aliases`, `Cdc`: net ids are strings, and `Cdc` takes nets that are already alias roots.

Not modelled at all:

- Text-level detail: Unicode case folding and identifier classes (ASCII is used), regular
  expressions, path resolution, tree-sitter walkers, hashing, JSON.
- The use log of macros, warnings lists, timings, telemetry counters, and the order in which reports are printed.
- SQLite: the store is an immutable relation whose rows come in any order; the scoped delta
  write and the stub-neighbourhood hydration of the bounded link are not part of this model.
- Clock tables, reset trees and SDC evidence: declared-safe crossings enter as a parameter.
- networkx metrics, export, visualisation, the command line, MCP transport, watch mode, process pools.
- Idempotence of the size-cast rewrite, and repeated runs of several enrichment backends whose
  deltas depend on one another's nodes.
