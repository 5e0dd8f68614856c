# Models of the graph optimiser, the run queue, the rate limiter and rank fusion

This project models, in Dafny, the algorithmic parts of the intelliqx repository whose
correctness is not visible from any one function, and proves what they guarantee.

* **Graph optimiser** (`Digraph`, `Lists`, `Sgir`, `GraphIndex`, `DeadNodes`, `Inlining`, `Splitting`,
  `CycleBreaking`, `Levels`, `Branches`, `Signatures`, `Duplicates`). A software graph is a list of layers, each a
  list of typed nodes and edges; passes rewrite it. The merged view of all layers is a set of
  arcs, and reachability is the existence of a path.
* **Verification gate and pipeline** (`Verification`, `TraceSpec`, `Gate`, `GateLimit`, `GateBound`, `Pipeline`,
  `NoInvention`, `WellFormedRuns`, `KeptChain`, `SingleLayerRuns`, `UnseenCycle`, `SplitRun`,
  `Realisable`, `Counterexamples`).
  The bounded trace search, the verdict it supports, and what four gated passes in a row preserve,
  lose and invent.
* **Layer builders** (`Entities`, `CallGraph`, `StateTransition`, `SecurityGraph`), which establish
  the well-formedness the passes rely on.
* **Run queue** (`RunStore`, `RunWorker`, `RunQueue`, `RunResults`, `RunDrain`, `Sums`). The store
  as a class, the worker's use of it, and a transition system of any number of workers, clients,
  expiry sweeps and crashes.
* **Token bucket** (`RateLimit`), **rank fusion** (`Fusion`, `FusionSpec`) and **path
  normalisation** (`PathNorm`).

Loops and updates in place are methods, each proved equal to a specification function or state;
the theorems are lemmas about those functions and about all executions. What each main operation
does is also written out in terms of its input alone (`PrunesExactly`, `InlinesExactly`,
`SplitsExactly`, `CleansExactly`, `RunsThrough`, `FullTrace`, `Decided`, `FusesExactly`), with the
thresholds as numbers, and proved of it.

Conventions and assumptions:

* The dictionary of layers is a sequence in insertion order with distinct tags (`Keyed`). Python's
  order of iteration over a set is a parameter, any fixed listing of the set (`IsListing`).
  networkx's strongly connected components, simple cycles and acyclicity test are a record of
  functions with a contract (`CycleBreaking.Valid`): simple cycles are complete up to rotation and
  include self-loops. `Realisable` shows both contracts can be met.
* "Part ids are fresh" (`PartsFresh`, `PartIdsFresh`) says no existing id is the id of a part of a
  split node.
* A store method is one atomic step, since each runs under one lock and one immediate transaction.
  Clock readings are parameters. Numbers that Python holds as floats are reals.

Where the code does not do what its names or comments say, the code is modelled and the exact
condition is proved. The trace check protects what the recorded traces visit
(`TracedStaysReachable`), not all that an entry point reaches: a descendant is safe over every
accepted pass and every order of sets exactly if the search cannot help coming to it
(`GateProtectsExactly`). So an entry point with at most ten declared descendants keeps everything
below it (`GateSound`), and where those descendants are acyclic ten is exactly the limit
(`GateExactBelow`; `StarGateExact` for each order of a star). Inlining keeps exactly the walks
that never pass two inlined nodes in a row (`InliningReachability`), so it keeps reachability
exactly if every longer chain has a detour, and leaves edges to inlined nodes exactly if
candidates chain behind a survivor (`InliningPreservesMeaningExactly`), so where none do, all
reachability is kept (`InliningKeepsReachability`); such a chain can cut survivors off
(`ChainDangles`), need not (`LoopDanglesOnly`), and can outlast a whole run
(`RunKeepsWellFormedExactly`, `RunDangles`). Splitting sends incoming edges to the last part and
outgoing edges from the first, which cuts every walk through a split node (`SplitReachability`,
`SplitSevers`). Cycle breaking misses cycles none of whose nodes is declared (`CyclesBroken`,
`UndeclaredCycleStays`). Components reported as "independent branches" are not independent
(`BranchIndependentExactly`, `DependentBranch`). In a run the inlining pass is kept only if
another layer still declares every inlined id (`KeptInliningLosesNoId`), so a single layer is
never inlined, and with unique ids never split. If it is well-formed and every declared entry
point has at most ten declared descendants, all four passes come to the first (`SingleLayerRun`);
with more, cleaning can break a cycle the check does not see (`RunBreaksUnseenCycle`). A cancelled
run that a worker still holds can be overwritten and even invoked again (`CancellationStands`,
`CancellationSafe`, `CancellationUndone`).

## Model

| member | source | states |
|---|---|---|
| `GraphIndexing.GraphIndex.Build` | libs/intelliqx-graph/src/intelliqx_graph/query.py:45-74 | every layer gets its own graph, endpoints of edges included, and the cached merge is dropped |
| `GraphIndexing.GraphIndex.MergedGraph` | libs/intelliqx-graph/src/intelliqx_graph/query.py:300-315 | the cached or fresh merge is the union of the layer graphs, and is cached |
| `GraphIndexing.GraphIndex.ReachableFrom` | libs/intelliqx-graph/src/intelliqx_graph/query.py:95-104 | exactly the nodes reachable over all layers, never the start; nothing for a start outside the graph |
| `GraphIndexing.GraphIndex.FindDeadNodes` | libs/intelliqx-graph/src/intelliqx_graph/query.py:114-130 | exactly the merged nodes that no entry point is or reaches; unknown entry points contribute nothing |
| `GraphIndexing.DescendantsOf` | libs/intelliqx-graph/src/intelliqx_graph/query.py:104 | the search returns exactly the descendants of a node |
| `DeadNodes.RemoveDeadNodes` | libs/intelliqx-graph/src/intelliqx_graph/optimization/passes.py:50-74 | in each layer exactly the nodes that some known entry point is or reaches stay, unchanged and in order, and of the edges those without a dead declared end; ids the index does not know are left alone |
| `DeadNodes.DeadRemovalExact` | libs/intelliqx-graph/src/intelliqx_graph/optimization/passes.py:50-74 | what stays declared is what was declared and live, and every live node keeps exactly its merged-graph descendants, for any entry points |
| `DeadNodes.NothingDeadLeft` | libs/intelliqx-graph/src/intelliqx_graph/optimization/passes.py:50-74 | a second removal would find nothing declared to remove |
| `DeadNodes.StaleIndexExact` | libs/intelliqx-graph/src/intelliqx_graph/optimization/pipeline.py:55-65 | the index built before removal gives every survivor the same per-layer successors and fan-out as one rebuilt after it |
| `DeadNodes.PruneKeepsWellFormed` | libs/intelliqx-graph/src/intelliqx_graph/optimization/passes.py:37-74 | removal keeps ids unique and leaves no edge dangling |
| `Inlining.InlineTrivialNodes` | libs/intelliqx-graph/src/intelliqx_graph/optimization/passes.py:149-206 | in each layer a node goes exactly if one with its id has one indexed successor, complexity neither exponential nor unknown, and neither side effects nor failure modes; other nodes and the edges between them stay in order, and behind them stand exactly the edges that go on from one into a node that goes to the target of its first edge, with the type of the entering edge |
| `Inlining.InlineOneExactly` | libs/intelliqx-graph/src/intelliqx_graph/optimization/passes.py:149-215 | the same of the specification, for every layer and every order of sets |
| `Inlining.InlineLayerArcs` | libs/intelliqx-graph/src/intelliqx_graph/optimization/passes.py:164-204 | an output arc is an input arc between survivors or a bypass of one inlined node to its first target, nothing else |
| `Inlining.DanglingExactly` | libs/intelliqx-graph/src/intelliqx_graph/optimization/passes.py:173-202 | no output edge dangles if and only if no survivor leads to a candidate whose first target is a candidate |
| `Inlining.AvoidsExactly` | libs/intelliqx-graph/src/intelliqx_graph/optimization/passes.py:173-202 | no output edge touches an inlined node if and only if candidates do not chain behind a survivor, whatever else the layer leaves undeclared |
| `Inlining.InliningReachability` | libs/intelliqx-graph/src/intelliqx_graph/optimization/passes.py:149-206 | between ids that stay, declared or not, reachability afterwards is reachability along walks that never pass two inlined nodes in a row |
| `Inlining.InliningKeepsReachabilityExactly` | libs/intelliqx-graph/src/intelliqx_graph/optimization/passes.py:149-206 | reachability between ids that stay is kept if and only if wherever two or more inlined nodes in a row lead from one survivor to another, a walk leads that passes no two in a row |
| `Inlining.InliningPreservesMeaningExactly` | libs/intelliqx-graph/src/intelliqx_graph/optimization/passes.py:149-206 | on every layer with exact fan-out, edges to inlined nodes are left exactly if candidates chain behind a survivor, reachability between the other ids is kept exactly if every chain of two or more inlined nodes between survivors has a detour, and where nothing chains both hold |
| `Inlining.InlineInventsNothing` | libs/intelliqx-graph/src/intelliqx_graph/optimization/passes.py:149-206 | every output arc is a walk of the input layer |
| `Counterexamples.ChainDangles` | libs/intelliqx-graph/src/intelliqx_graph/optimization/passes.py:173-202 | on s -> c -> d -> t with c and d simple the output keeps an edge from s to the deleted d, and t is no longer reachable from s |
| `Counterexamples.LoopDanglesOnly` | libs/intelliqx-graph/src/intelliqx_graph/optimization/passes.py:173-202 | on s -> c -> d -> c with c and d simple an edge to a deleted node is left but no reachability is lost |
| `Splitting.ReduceComplexityPass` | libs/intelliqx-graph/src/intelliqx_graph/optimization/passes.py:336-387 | in each layer every cubic or exponential node is replaced by two linear parts and every other stays; each edge keeps its place and type, leaving the first part and arriving at the last; behind them each split id has one control edge between its parts |
| `Splitting.SplitLayerExactly` | libs/intelliqx-graph/src/intelliqx_graph/optimization/passes.py:336-416 | the same of the specification, for every layer |
| `Splitting.SplitContracts` | libs/intelliqx-graph/src/intelliqx_graph/optimization/passes.py:356-384 | with parts contracted the output edges are the input edges in order, then exactly one self-edge per split node |
| `Splitting.SplitReachability` | libs/intelliqx-graph/src/intelliqx_graph/optimization/passes.py:356-372 | between unsplit nodes reachability afterwards is reachability along walks that avoid every split node |
| `Splitting.PartsAreEnds` | libs/intelliqx-graph/src/intelliqx_graph/optimization/passes.py:356-384 | no edge enters a first part and none leaves a last part |
| `Splitting.SplitReachesParts` | libs/intelliqx-graph/src/intelliqx_graph/optimization/passes.py:356-384 | an unsplit node reaches the last part of x if and only if a walk that avoids split nodes leads to an unsplit predecessor of x, and never the first part |
| `Splitting.SplitReachesFromParts` | libs/intelliqx-graph/src/intelliqx_graph/optimization/passes.py:356-384 | the first part of x reaches an unsplit node if and only if such a walk leads there from an unsplit successor of x, and the last part reaches none |
| `Splitting.SplitReachesBetweenParts` | libs/intelliqx-graph/src/intelliqx_graph/optimization/passes.py:356-384 | a first part reaches a last part if and only if they belong to one node, an edge joined the nodes, or a walk that avoids split nodes led from a successor of the one to a predecessor of the other |
| `Splitting.SplitKeepsWellFormedExactly` | libs/intelliqx-graph/src/intelliqx_graph/optimization/passes.py:336-416 | a well-formed layer stays well-formed if and only if no part id is the id of an unsplit node |
| `Splitting.PartIdInjective` | libs/intelliqx-graph/src/intelliqx_graph/optimization/passes.py:390-394 | a part id determines the node and the part |
| `Counterexamples.SplitSevers` | libs/intelliqx-graph/src/intelliqx_graph/optimization/passes.py:356-372 | b -> h -> a with h cubic: the layer stays well-formed but a is no longer reachable from b |
| `CycleBreaking.SelectCycleBreakEdge` | libs/intelliqx-graph/src/intelliqx_graph/optimization/passes.py:312-328 | the arc leaving the first declared node on the cycle than which no declared node on it is more complex; none exactly if no node of the cycle is declared |
| `Sgir.RankOrder` | libs/intelliqx-graph/src/intelliqx_graph/optimization/passes.py:18-27 | constant < logarithmic < linear < linearithmic < quadratic < cubic < exponential < unknown |
| `CycleBreaking.CleanDependencyCycles` | libs/intelliqx-graph/src/intelliqx_graph/optimization/passes.py:279-309 | in every layer nodes stay, and the edges that go are exactly those along an arc that, on some listed cycle of a component of two or more nodes, leaves the first of the most complex declared nodes |
| `CycleBreaking.RemovedIsCut` | libs/intelliqx-graph/src/intelliqx_graph/optimization/passes.py:279-328 | an arc is removed if and only if some cycle of a component of two or more nodes is cut there |
| `CycleBreaking.CyclesBroken` | libs/intelliqx-graph/src/intelliqx_graph/optimization/passes.py:279-328 | no two nodes of the output reach each other if and only if every cycle of two or more nodes had a declared node |
| `CycleBreaking.CyclesBrokenWhenDeclared` | libs/intelliqx-graph/src/intelliqx_graph/optimization/passes.py:279-328 | on layers without dangling edges no cycle through two or more nodes survives |
| `CycleBreaking.RemovedOnCycle` | libs/intelliqx-graph/src/intelliqx_graph/optimization/passes.py:291-306 | every removed edge lay on a cycle of the input inside a component of two or more nodes, so edges between components survive |
| `CycleBreaking.SelfLoopRemoved` | libs/intelliqx-graph/src/intelliqx_graph/optimization/passes.py:293-301 | a self-loop is removed if and only if its node is declared and lies on a longer cycle too |
| `Counterexamples.UndeclaredCycleStays` | libs/intelliqx-graph/src/intelliqx_graph/optimization/passes.py:317-322 | a cycle of two undeclared nodes is left alone |
| `Counterexamples.DearerLosesEdge` | libs/intelliqx-graph/src/intelliqx_graph/optimization/passes.py:312-328 | of two nodes that call each other the more complex one loses its edge and the other keeps it |
| `Counterexamples.LinearLosesEdge` | libs/intelliqx-graph/src/intelliqx_graph/optimization/passes.py:312-328 | a linear node loses its edge to a constant one |
| `Counterexamples.DependentBranch` | libs/intelliqx-graph/src/intelliqx_graph/optimization/passes.py:233-248 | two nodes that call each other are reported as a branch although each reaches the other |
| `Levels.ParallelLevels` | libs/intelliqx-graph/src/intelliqx_graph/optimization/passes.py:253-271 | terminates on every graph; level k is exactly the set of nodes whose longest incoming path has k arcs, up to the first empty level |
| `Levels.LevelsOfDag` | libs/intelliqx-graph/src/intelliqx_graph/optimization/passes.py:253-271 | on an acyclic graph the levels partition the nodes, the index of a level is the longest path ending there, and no node of a level reaches another |
| `Levels.LevelIsAntichain` | libs/intelliqx-graph/src/intelliqx_graph/optimization/passes.py:253-271 | no node of a level reaches another, in any graph |
| `Branches.ParallelizeIndependentBranches` | libs/intelliqx-graph/src/intelliqx_graph/optimization/passes.py:220-250 | each branch is listed once, and a set is listed if and only if it is a large enough level or component of the indexed graph of some layer |
| `Branches.BranchIndependentExactly` | libs/intelliqx-graph/src/intelliqx_graph/optimization/passes.py:233-248 | the nodes of a branch are pairwise independent if and only if its graph is acyclic |
| `Digraph.BfsComponent` | libs/intelliqx-graph/src/intelliqx_graph/optimization/passes.py:130-141 | exactly the forward-reachable set, start included |
| `Signatures.SubgraphSignature` | libs/intelliqx-graph/src/intelliqx_graph/optimization/passes.py:82-98 | the flat list of labels, ends and edge types of the inner edges in sorted order |
| `Signatures.SortSorted` | libs/intelliqx-graph/src/intelliqx_graph/optimization/passes.py:89 | the sort orders edges by source and then target |
| `Signatures.PartsInjective` | libs/intelliqx-graph/src/intelliqx_graph/optimization/passes.py:90-98 | equal part lists come from the same typed edges in the same order, with the same labels |
| `Signatures.SignatureCanonical` | libs/intelliqx-graph/src/intelliqx_graph/optimization/passes.py:82-98 | layers with the same labels and the same inner edges in any order, none parallel, have the same signature |
| `Duplicates.DetectDuplicates` | libs/intelliqx-graph/src/intelliqx_graph/optimization/passes.py:101-127 | the pairs are those of the scanned components: each repeated signature with the first start that had it |
| `Duplicates.EqualSignatures` | libs/intelliqx-graph/src/intelliqx_graph/optimization/passes.py:82-98 | equal signatures of scanned components mean equal node sets, equal labels and equal typed edge sequences |
| `Duplicates.DuplicatesSound` | libs/intelliqx-graph/src/intelliqx_graph/optimization/passes.py:101-127 | every reported pair is a true duplicate of two nodes or more from two different layers, the first one earlier: same nodes, same typed edges, and same types where both declare a node |
| `Duplicates.RepeatedComponentReported` | libs/intelliqx-graph/src/intelliqx_graph/optimization/passes.py:101-127 | if a scanned component of a later layer has the nodes, labels and inner edges, in any order and none parallel, of a scanned component of an earlier layer, its start is reported as a duplicate |
| `Verification.Tracer.DfsTraces` | libs/intelliqx-graph/src/intelliqx_graph/optimization/verification.py:86-117 | adds exactly the specified traces and restores path and visited |
| `Verification.BuildTraceSet` | libs/intelliqx-graph/src/intelliqx_graph/optimization/verification.py:63-83 | the union of the traces of the declared entry points |
| `TraceSpec.TraceSetExactly` | libs/intelliqx-graph/src/intelliqx_graph/optimization/verification.py:63-117 | a trace is recorded if and only if it starts at a declared entry point, follows steps to one of the first ten declared descendants listed, repeats no node but its last, and ends after the given depth, at a visited node, or where nothing is left |
| `Verification.VerificationAgent.Verify` | libs/intelliqx-graph/src/intelliqx_graph/optimization/verification.py:130-193 | the verdict is that no trace is lost and no reachable declared node is removed; the counts match the graphs; the risk is CRITICAL exactly for an improper removal, otherwise HIGH exactly for a rejection, and MEDIUM exactly for an accepted pass of more than fifty changes |
| `TraceSpec.AcceptedExactly` | libs/intelliqx-graph/src/intelliqx_graph/optimization/verification.py:130-165 | a pass is accepted if and only if every such trace of at most fifty steps is one afterwards too and every declared id that an entry point is or reaches stays declared |
| `Gate.TraceShape` | libs/intelliqx-graph/src/intelliqx_graph/optimization/verification.py:86-117 | every recorded trace extends its prefix by the current node and then follows explored steps |
| `Gate.TraceRecorded` | libs/intelliqx-graph/src/intelliqx_graph/optimization/verification.py:98-117 | every call of the search records some trace |
| `Gate.AcceptedTraceSteps` | libs/intelliqx-graph/src/intelliqx_graph/optimization/verification.py:63-165 | each step of a trace recorded before an accepted pass is still a reachable, declared step after it, whatever the branching |
| `Gate.TracedStaysReachable` | libs/intelliqx-graph/src/intelliqx_graph/optimization/verification.py:63-165 | every id on a trace recorded from an entry point before an accepted pass is still declared and reachable from that entry point after it |
| `Gate.GateSound` | libs/intelliqx-graph/src/intelliqx_graph/optimization/verification.py:63-165 | below an entry point with at most ten declared descendants an accepted pass keeps the whole reachability relation among declared ids |
| `Gate.DeadRemovalAccepted` | libs/intelliqx-graph/src/intelliqx_graph/optimization/verification.py:63-165 | dead-node removal changes no trace set and is accepted, for any graph and any entry points |
| `GateLimit.UnexploredLeavesLost` | libs/intelliqx-graph/src/intelliqx_graph/optimization/verification.py:113 | on a hub with more than ten leaves the gate accepts a pass that cuts some of them off |
| `GateLimit.StarGateExact` | libs/intelliqx-graph/src/intelliqx_graph/optimization/verification.py:113 | on a star, under every order of the search, the gate protects the leaves if and only if there are at most ten |
| `GateBound.GateProtectsExactly` | libs/intelliqx-graph/src/intelliqx_graph/optimization/verification.py:63-165 | a declared descendant stays reachable over every accepted pass under every order of sets if and only if its entry point is, within fifty rounds, among the ids that have some declared descendant in the set so far and fewer than ten outside it |
| `GateBound.GuardedStays` | libs/intelliqx-graph/src/intelliqx_graph/optimization/verification.py:63-165 | the same sufficiency for any list of entry points |
| `GateBound.GateExactBelow` | libs/intelliqx-graph/src/intelliqx_graph/optimization/verification.py:104-117 | where the declared descendants of an entry point are acyclic, every accepted pass under every order keeps them if and only if there are at most ten |
| `Pipeline.OptimizationPipeline.ApplyPass` | libs/intelliqx-graph/src/intelliqx_graph/optimization/pipeline.py:88-103 | one report is added; its verdict is the gate's, and the result is kept if it is good and the graph before otherwise |
| `Pipeline.OptimizationPipeline.Run` | libs/intelliqx-graph/src/intelliqx_graph/optimization/pipeline.py:51-86 | four more reports; each stage does to the graph before it what its pass does if its verdict is good, and nothing otherwise; if the third is good no cubic or exponential node is left; duplicates are those of the pruned graph, branches those of the indexed graph |
| `Pipeline.RunStages` | libs/intelliqx-graph/src/intelliqx_graph/optimization/pipeline.py:51-103 | the four stages written out by their verdicts, for every graph |
| `Pipeline.SplitsWhenKept` | libs/intelliqx-graph/src/intelliqx_graph/optimization/pipeline.py:67-73 | if the third verdict is good every node of the result stands for one after inlining, itself or one of its two linear parts, none is cubic or exponential, and every id that had such a node has both parts in that layer; otherwise the nodes are those after inlining |
| `SplitRun.RunSplits` | libs/intelliqx-graph/src/intelliqx_graph/optimization/pipeline.py:67-69 | a cubic node without edges in the call layer that the security layer declares too: the third verdict is good and the run returns it split |
| `Pipeline.PruningKept` | libs/intelliqx-graph/src/intelliqx_graph/optimization/pipeline.py:55-59 | the first pass is never rolled back |
| `Pipeline.InliningReadsExactFanOut` | libs/intelliqx-graph/src/intelliqx_graph/optimization/pipeline.py:63-65 | the fan-out the inlining pass reads from the old index is that of the graph it rewrites |
| `Pipeline.PipelineInliningExact` | libs/intelliqx-graph/src/intelliqx_graph/optimization/pipeline.py:63-65 | in a run, both halves of what inlining promises hold for each layer under the same exact conditions |
| `Pipeline.PipelineInliningReachability` | libs/intelliqx-graph/src/intelliqx_graph/optimization/pipeline.py:63-65 | in a run, reachability between ids that stay is afterwards reachability along walks that never pass two inlined nodes in a row |
| `Pipeline.KeptInliningLosesNoId` | libs/intelliqx-graph/src/intelliqx_graph/optimization/pipeline.py:63-65 | after the inlining stage exactly the declared live ids are still declared |
| `Pipeline.SingleLayerNeverInlined` | libs/intelliqx-graph/src/intelliqx_graph/optimization/pipeline.py:63-65 | a run on a single-layer graph never inlines anything |
| `SingleLayerRuns.SingleLayerNeverSplit` | libs/intelliqx-graph/src/intelliqx_graph/optimization/pipeline.py:51-86 | with unique ids a run on a single layer never splits either: the first three stages come to the first |
| `SingleLayerRuns.SingleLayerRun` | libs/intelliqx-graph/src/intelliqx_graph/optimization/pipeline.py:51-86 | on a well-formed single layer whose entry points are within the trace bound the whole run is the removal of dead nodes |
| `UnseenCycle.RunBreaksUnseenCycle` | libs/intelliqx-graph/src/intelliqx_graph/optimization/pipeline.py:51-86 | on one well-formed layer with nothing dead, where an entry point leads to ten leaves and to two nodes that call each other and are listed last, the whole run breaks the cycle |
| `Pipeline.RunInventsNothing` | libs/intelliqx-graph/src/intelliqx_graph/optimization/pipeline.py:51-86 | with split parts contracted, every walk of an optimised layer is a walk of the same input layer |
| `Pipeline.RunInventsNoReachability` | libs/intelliqx-graph/src/intelliqx_graph/optimization/pipeline.py:51-86 | the same over the merged graph |
| `Pipeline.StageKeeps` | libs/intelliqx-graph/src/intelliqx_graph/optimization/pipeline.py:88-103 | a gated stage keeps the reachability relation below an entry point within the trace bound |
| `Pipeline.FirstStagesShrink` | libs/intelliqx-graph/src/intelliqx_graph/optimization/pipeline.py:55-65 | the first two stages only shrink what any id reaches |
| `Pipeline.RunLosesNothing` | libs/intelliqx-graph/src/intelliqx_graph/optimization/pipeline.py:51-86 | over a whole run, an entry point within the trace bound before it and after splitting keeps the reachability relation below it |
| `Pipeline.RunLosesNothingFromInput` | libs/intelliqx-graph/src/intelliqx_graph/optimization/pipeline.py:51-86 | the same from a bound on the input alone: at most ten ids, counting each splittable declared descendant with its two parts |
| `Pipeline.BranchesStayIndependent` | libs/intelliqx-graph/src/intelliqx_graph/optimization/pipeline.py:75 | branches of acyclic layers, computed on the input, are still independent in the optimised layers |
| `NoInvention.PruneInventsNothing` | libs/intelliqx-graph/src/intelliqx_graph/optimization/passes.py:50-74 | dead-node removal invents no walk and no node |
| `NoInvention.SplitInventsNothing` | libs/intelliqx-graph/src/intelliqx_graph/optimization/passes.py:336-387 | splitting, with parts contracted, invents no walk |
| `NoInvention.CleanInventsNothing` | libs/intelliqx-graph/src/intelliqx_graph/optimization/passes.py:279-309 | cycle breaking invents no walk |
| `WellFormedRuns.InliningKeepsWellFormedExactly` | libs/intelliqx-graph/src/intelliqx_graph/optimization/passes.py:149-206 | inlining keeps a well-formed layer well-formed if and only if candidates do not chain behind a survivor |
| `WellFormedRuns.WellFormedAfterInlining` | libs/intelliqx-graph/src/intelliqx_graph/optimization/pipeline.py:55-65 | after two stages every layer is well-formed if and only if inlining was rolled back or had no such chain |
| `WellFormedRuns.RunKeepsWellFormedExactly` | libs/intelliqx-graph/src/intelliqx_graph/optimization/pipeline.py:51-86 | a whole run on well-formed layers ends with well-formed layers if and only if inlining was rolled back or had no such chain |
| `KeptChain.RunDangles` | libs/intelliqx-graph/src/intelliqx_graph/optimization/pipeline.py:51-86 | on the four-node chain and a second layer with the same ids and edges and side effects everywhere, the gate keeps the inlining and the run, begun with well-formed layers, does not end with them |
| `KeptChain.SomeRunDangles` | libs/intelliqx-graph/src/intelliqx_graph/optimization/pipeline.py:51-86 | such runs on well-formed layers exist |
| `Realisable.SomeNetworkX` | libs/intelliqx-graph/src/intelliqx_graph/optimization/passes.py:289-296 | a component list, a complete cycle list and an acyclicity test exist for every graph |
| `Realisable.SomeListing` | libs/intelliqx-graph/src/intelliqx_graph/optimization/verification.py:104-113 | an order of iteration over sets exists |
| `CallGraph.FindCallTarget` | libs/intelliqx-graph/src/intelliqx_graph/optimization/layers/call_graph.py:91-105 | the first declared entity of the name; if there is none, the declared member of the caller's class; otherwise none |
| `CallGraph.FirstNamedMeans` | libs/intelliqx-graph/src/intelliqx_graph/optimization/layers/call_graph.py:91-98 | resolution by name succeeds if and only if a declared entity has the name, and yields a declared id |
| `CallGraph.Build` | libs/intelliqx-graph/src/intelliqx_graph/optimization/layers/call_graph.py:26-88 | unique ids, no dangling edge, for each callable id exactly the first node it brings, and exactly the edges of the calls that resolve to another node, in the order of entities and calls |
| `SecurityGraph.DetectAuthPatterns` | libs/intelliqx-graph/src/intelliqx_graph/optimization/layers/security_graph.py:181-191 | the first matching pattern of each name, each once, in order of appearance |
| `SecurityGraph.FoundMeans` | libs/intelliqx-graph/src/intelliqx_graph/optimization/layers/security_graph.py:181-191 | a pattern is found if and only if it is the first one some name contains, and no pattern twice |
| `SecurityGraph.Build` | libs/intelliqx-graph/src/intelliqx_graph/optimization/layers/security_graph.py:73-163 | unique ids, no dangling edge, for each id of a callable entity, found concern or sensitive reference exactly the first node it brings, and exactly their edges in order |
| `StateTransition.ResolveIds` | libs/intelliqx-graph/src/intelliqx_graph/optimization/layers/state_transition.py:195-202 | every declared entity of the name, in order |
| `StateTransition.FindClassId` | libs/intelliqx-graph/src/intelliqx_graph/optimization/layers/state_transition.py:205-211 | the first declared class of the name |
| `StateTransition.Build` | libs/intelliqx-graph/src/intelliqx_graph/optimization/layers/state_transition.py:45-192 | unique ids, no dangling edge, for each id of a class, lifecycle or event method exactly the first node it brings; the edges are the lifecycle and event edges, each as far as its ends are declared by then, and then the resolved inheritance edges, all in order |
| `Entities.FirstEachMeans` | libs/intelliqx-graph/src/intelliqx_graph/optimization/layers/call_graph.py:36-58 | what a builder keeps of the nodes it meets: distinct ids, each with the first node that had it |
| `RunStore.StateStore.Enqueue` | libs/intelliqx-service/src/intelliqx_service/state.py:143-176 | inserts a pending row exactly if the id is free |
| `RunStore.StateStore.ClaimNext` | libs/intelliqx-service/src/intelliqx_service/state.py:178-220 | takes an oldest pending run with one more attempt, or fails it when that exceeds its budget; nothing else changes |
| `RunStore.StateStore.Complete` | libs/intelliqx-service/src/intelliqx_service/state.py:222-250 | overwrites status, output, error and duration of an existing row whatever its status |
| `RunStore.StateStore.Requeue` | libs/intelliqx-service/src/intelliqx_service/state.py:252-264 | makes an existing row pending with the given attempt count whatever its status, keeping its creation time |
| `RunStore.StateStore.Cancel` | libs/intelliqx-service/src/intelliqx_service/state.py:266-293 | cancels exactly pending and running rows and reports it |
| `RunStore.StateStore.CloseExpired` | libs/intelliqx-service/src/intelliqx_service/state.py:303-322 | deletes exactly the running rows older than the time to live and counts them |
| `RunWorker.RecordOutcome` | libs/intelliqx-service/src/intelliqx_service/app.py:238-258 | "ok" stores SUCCEEDED with the response's output and duration and no error; otherwise at the last attempt FAILED with the error text and no output, before it PENDING with one more attempt; other rows stay |
| `RunWorker.ProcessClaim` | libs/intelliqx-service/src/intelliqx_service/app.py:195-221 | an exception fails the run with its message, a response is recorded |
| `RunWorker.WorkerLoop` | libs/intelliqx-service/src/intelliqx_service/app.py:180-192 | a worker alone at the store touches only pending runs, and enough polls leave none pending |
| `RunQueue.NextInv` | libs/intelliqx-service/src/intelliqx_service/state.py:143-322 | every step of every participant keeps the queue invariant |
| `RunQueue.MutualExclusion` | libs/intelliqx-service/src/intelliqx_service/state.py:178-264 | in every interleaving no run has two holders, and a held run's row is running, cancelled or gone, never pending |
| `RunQueue.HeldClaims` | libs/intelliqx-service/src/intelliqx_service/state.py:208-217 | a worker is handed what was submitted, and the attempt number its claim number implies |
| `RunQueue.AttemptAccounting` | libs/intelliqx-service/src/intelliqx_service/state.py:198-217 | the kth claim of a run carries attempt 2k-1; with M retries it is invoked at most (M+1)/2 times and its count never exceeds M+1 |
| `RunQueue.FinalStep` | libs/intelliqx-service/src/intelliqx_service/state.py:222-322 | a succeeded or failed run has no holder and no step deletes it or changes its row |
| `RunQueue.FinalForever` | libs/intelliqx-service/src/intelliqx_service/state.py:222-322 | the same over every execution |
| `RunResults.ResultsExactly` | libs/intelliqx-service/src/intelliqx_service/app.py:195-258 | over every execution a run has succeeded if and only if a holder settled it with an "ok" response, and then stores that response; it has failed if and only if one claim too many, an exception or a bad response at the last attempt failed it, and then stores that error |
| `RunQueue.CancelledStep` | libs/intelliqx-service/src/intelliqx_service/state.py:236-281 | a cancelled row is never deleted, and changes exactly when a worker that still holds the run settles it |
| `RunQueue.CancellationStands` | libs/intelliqx-service/src/intelliqx_service/state.py:236-281 | over an execution a cancellation stands if and only if no holder settles the run afterwards |
| `RunQueue.CancellationSafe` | libs/intelliqx-service/src/intelliqx_service/state.py:236-281 | a cancellation stands over every execution from a state if and only if no worker holds the run in it |
| `RunQueue.UnheldCancellationStands` | libs/intelliqx-service/src/intelliqx_service/state.py:266-293 | once no worker holds it, a cancelled run stays cancelled |
| `RunQueue.CancellationUndone` | libs/intelliqx-service/src/intelliqx_service/state.py:252-281 | an execution in which a cancelled run is queued again and invoked a second time |
| `RunQueue.NoOvertaking` | libs/intelliqx-service/src/intelliqx_service/state.py:188-194 | while a pending run waits, no strictly younger run is claimed, present or submitted later; requeued runs keep their place |
| `RunQueue.LaterSubmissionsWait` | libs/intelliqx-service/src/intelliqx_service/state.py:188-194 | with an advancing clock no later submission is claimed while an earlier run still waits |
| `RunDrain.WorkShrinks` | libs/intelliqx-service/src/intelliqx_service/app.py:180-258 | every step that changes something, other than a submission, decreases one measure |
| `RunDrain.WorkWithinBudget` | libs/intelliqx-service/src/intelliqx_service/app.py:180-258 | over every execution the working steps are bounded by 3 * ((M + 1) / 2) + 1 for each run submitted with M retries, and by one if M < 1 |
| `RunDrain.BudgetReached` | libs/intelliqx-service/src/intelliqx_service/app.py:180-258 | for every M an execution reaches that bound, and in it the run is invoked (M + 1) / 2 times, the most AttemptAccounting allows |
| `RunDrain.StuckIsQuiet` | libs/intelliqx-service/src/intelliqx_service/app.py:180-192 | no worker can move if and only if nothing is pending and nothing is held |
| `RunDrain.WorkersDrain` | libs/intelliqx-service/src/intelliqx_service/app.py:180-258 | workers left to themselves stop after boundedly many steps, with nothing pending or held |
| `RateLimit.RateLimiter.Try` | libs/intelliqx-tools/src/intelliqx_tools/rate_limit.py:55-68 | one turn under the lock refills by elapsed time up to the capacity and takes a token if there is one |
| `RateLimit.RateLimiter.Acquire` | libs/intelliqx-tools/src/intelliqx_tools/rate_limit.py:35-70 | polls, other callers taking turns in between, until the first grant; every earlier poll is refused |
| `RateLimit.RefillIs` | libs/intelliqx-tools/src/intelliqx_tools/rate_limit.py:53-60 | the refill is elapsed seconds times rate over sixty |
| `RateLimit.Spending` | libs/intelliqx-tools/src/intelliqx_tools/rate_limit.py:35-70 | over any interleaving of keys and callers, grants plus what is left never exceed what there was plus the refill |
| `RateLimit.TokensInRange` | libs/intelliqx-tools/src/intelliqx_tools/rate_limit.py:59-64 | a bucket always holds between zero and its rate |
| `RateLimit.WindowBound` | libs/intelliqx-tools/src/intelliqx_tools/rate_limit.py:35-70 | grants of a key in any window are at most its rate plus rate * seconds / 60 |
| `RateLimit.SinceCreation` | libs/intelliqx-tools/src/intelliqx_tools/rate_limit.py:33-70 | grants since the bucket was created are at most rate * seconds / 60 |
| `RateLimit.BurstExact` | libs/intelliqx-tools/src/intelliqx_tools/rate_limit.py:55-68 | at one instant a bucket with n whole tokens grants exactly n of any larger number of attempts |
| `RateLimit.RefusedOnlyBriefly` | libs/intelliqx-tools/src/intelliqx_tools/rate_limit.py:55-70 | while no caller of a key is granted, whatever other keys do in between, less than one token has been refilled by its last attempt |
| `RateLimit.NeverBelowOne` | libs/intelliqx-tools/src/intelliqx_tools/rate_limit.py:55-66 | a key whose rate is below one is never granted anything, in any history |
| `Fusion.Hybrid` | libs/intelliqx-okf/src/intelliqx_okf/index.py:247-294 | accumulates both rankings, sorts stably, keeps the top rows present in the table and scales by the largest score; `FusedExactly` writes the result out |
| `FusionSpec.FusedExactly` | libs/intelliqx-okf/src/intelliqx_okf/index.py:247-294 | for lists that name each row once: the rows ranked by score and then by first appearance, the first top of them that the table has, with their scores divided by the greatest |
| `FusionSpec.ScoreFormula` | libs/intelliqx-okf/src/intelliqx_okf/index.py:257-278 | a row at text place i and vector place j at distance d scores (1 - weight) / (61 + i) + weight * c / (61 + j), with c = 1 - d within [0, 1] and nothing for an absent place |
| `FusionSpec.TextDecides` | libs/intelliqx-okf/src/intelliqx_okf/index.py:264-266 | at weight 0 a row of the text list scores more than any later or absent one |
| `FusionSpec.VectorsDecide` | libs/intelliqx-okf/src/intelliqx_okf/index.py:274-277 | at weight 1 a row of the vector list nearer than distance 1 scores more than any later or absent one |
| `Fusion.Read` | libs/intelliqx-okf/src/intelliqx_okf/index.py:296-318 | rejects exactly a top below one or a weight outside [0, 1] |
| `Fusion.HitsExactly` | libs/intelliqx-okf/src/intelliqx_okf/index.py:279-294 | the hits are exactly the best rows still in the table, with scores in [0, 1] |
| `Fusion.HitsDescending` | libs/intelliqx-okf/src/intelliqx_okf/index.py:279-294 | at most top hits, in non-increasing score order |
| `Fusion.PassedOver` | libs/intelliqx-okf/src/intelliqx_okf/index.py:281 | a candidate is passed over only for a full list of candidates that score no lower |
| `Fusion.AheadScoresNoLower` | libs/intelliqx-okf/src/intelliqx_okf/index.py:257-278 | a row ahead of another in both lists never scores lower, for every weight in [0, 1] |
| `Fusion.AheadHitsFirst` | libs/intelliqx-okf/src/intelliqx_okf/index.py:257-294 | if a row is ahead of another in both lists and in the table, and the other is a hit, then it is a hit too and comes first |
| `Fusion.ScoreAt` | libs/intelliqx-okf/src/intelliqx_okf/index.py:264-278 | a list that names a row once contributes exactly the share of its place |
| `PathNorm.NormalisePath` | libs/intelliqx-okf/src/intelliqx_okf/bundle.py:186-196 | the rewriting loop terminates for every string, at a fixed point equal to the segment-wise normal form |
| `PathNorm.SubKeeps` | libs/intelliqx-okf/src/intelliqx_okf/bundle.py:186-195 | one substitution pass changes no segment but "." segments that are not last |
| `PathNorm.NormalisedSegments` | libs/intelliqx-okf/src/intelliqx_okf/bundle.py:189-196 | the result's segments are the input's without the "." segments that are not last, in order; only the last may be "." |
| `PathNorm.NormalisedIdempotent` | libs/intelliqx-okf/src/intelliqx_okf/bundle.py:189-196 | normalising twice is normalising once |
| `PathNorm.NormalIffFixed` | libs/intelliqx-okf/src/intelliqx_okf/bundle.py:192-196 | a string is normal if and only if a pass leaves it alone |

## Left out

- Edge weights, labels and metadata, optimisation notes, and every node field except id, type, complexity, side effects and failure modes: no modelled decision reads them.
- Community detection, subgraph isomorphism, critical paths, topological orders and the cached high-fan lists of the index: library calls or plain lookups. Only the merged view is memoised in the model.
- Findings texts and the run summary; the risk level and the counts are modelled.
- Splitting into a number of parts other than the default two, which no caller asks for.
- Inlining thresholds other than the default in the whole pass; `InliningPreservesMeaningExactly` holds for every threshold.
- RateLimit.RateLimiter.Acquire: stops when the watched polls end, since a key whose rate is below one is never granted and the original then polls forever.
- RunWorker.WorkerLoop: one worker alone; interleavings are covered by the transition system.
- RunQueue: run ids are assumed fresh, as the service generates them; a deleted id is never submitted again.
- RunQueue.LaterSubmissionsWait: the clock is read before the lock is taken, so stamps may disagree with insertion order; the lemma speaks of stamps.
- Fusion: the full-text and the vector search are inputs; the written-out result and dominance are stated for lists with distinct rows, dominance also for neighbours in order of distance.
- Float rounding, in fusion and in the token bucket.
- The link resolver's edges, which loops over links and looks targets up; only the normalisation it relies on is modelled.
- The dependency, data-flow, control-flow, resource and deployment builders, which repeat the same scheme.
- SQL text, SQLite pragmas, HTTP routes, authentication, agent invocation, tracing, logging, storage back ends, YAML and embeddings: foreign calls or input and output.
- Rows read back by `get`, which is a lookup.
