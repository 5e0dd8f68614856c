/** pipeline.py: the four gated passes in order, and what a whole run preserves. */
module Pipeline {
  import opened Digraph
  import opened Lists
  import opened Sgir
  import opened GraphIndexing
  import opened DeadNodes
  import opened Inlining
  import opened Splitting
  import opened CycleBreaking
  import opened Branches
  import opened Levels
  import opened Verification
  import opened Gate
  import opened NoInvention
  import opened Duplicates

  /** A pass is kept exactly if the gate accepts it. */
  ghost function Gated(before: Software, after: Software, eps: seq<Id>, order: set<Id> -> seq<Id>): Software {
    if Accepts(before, after, eps, order) then after else before
  }

  ghost function AfterPruning(g: Software, eps: seq<Id>, order: set<Id> -> seq<Id>): Software {
    Gated(g, RemoveDead(g, g, eps), eps, order)
  }

  ghost function Inlined(h: Software, graphs: map<GraphLayer, DiGraph>, eps: seq<Id>, order: set<Id> -> seq<Id>): Software {
    Gated(h, InlineTrivial(h, graphs, order), eps, order)
  }

  /** The inlining pass reads the index of the original graph. */
  ghost function AfterInlining(g: Software, eps: seq<Id>, order: set<Id> -> seq<Id>): Software {
    Inlined(AfterPruning(g, eps, order), LayerGraphs(g.layers), eps, order)
  }

  ghost function SplitUp(h: Software, eps: seq<Id>, order: set<Id> -> seq<Id>): Software {
    Gated(h, ReduceComplexity(h), eps, order)
  }

  ghost function Cleaned(h: Software, eps: seq<Id>, order: set<Id> -> seq<Id>, nx: NetworkX): Software {
    Gated(h, CleanCycles(h, nx), eps, order)
  }

  ghost function AfterSplitting(g: Software, eps: seq<Id>, order: set<Id> -> seq<Id>): Software {
    SplitUp(AfterInlining(g, eps, order), eps, order)
  }

  ghost function Optimized(g: Software, eps: seq<Id>, order: set<Id> -> seq<Id>, nx: NetworkX): Software {
    Cleaned(AfterSplitting(g, eps, order), eps, order, nx)
  }

  // --------------------------------------------------------- the pipeline

  ghost predicate SameTags(g: Software, h: Software) {
    |g.layers| == |h.layers| && forall i | 0 <= i < |g.layers| :: g.layers[i].tag == h.layers[i].tag
  }

  ghost function Verdicts(reports: seq<Report>): seq<bool> {
    seq(|reports|, i requires 0 <= i < |reports| => reports[i].behaviorPreserved)
  }

  lemma VerdictsSnoc(reports: seq<Report>, r: Report)
    ensures Verdicts(reports + [r]) == Verdicts(reports) + [r.behaviorPreserved]
  {
  }

  lemma BothVerdicts(before: seq<bool>, between: seq<bool>, after: seq<bool>, first: bool, second: bool)
    requires between == before + [first] && after == between + [second]
    ensures after == before + ([first] + [second])
  {
  }

  method Judge(before: Software, result: Software, eps: seq<Id>, order: set<Id> -> seq<Id>) returns (report: Report)
    requires before.Keyed() && result.Keyed()
    ensures report.behaviorPreserved == Accepts(before, result, eps, order)
  {
    var agent := new VerificationAgent(before, result, eps);
    report := agent.Verify(order);
  }

  ghost function FirstVerdicts(g: Software, eps: seq<Id>, order: set<Id> -> seq<Id>): seq<bool> {
    var h := AfterPruning(g, eps, order);
    [Accepts(g, RemoveDead(g, g, eps), eps, order)] + [Accepts(h, InlineTrivial(h, LayerGraphs(g.layers), order), eps, order)]
  }

  ghost function LastVerdicts(g: Software, eps: seq<Id>, order: set<Id> -> seq<Id>, nx: NetworkX): seq<bool> {
    var h := SplitUp(g, eps, order);
    [Accepts(g, ReduceComplexity(g), eps, order)] + [Accepts(h, CleanCycles(h, nx), eps, order)]
  }

  /** The first stage is never rolled back. */
  lemma PruningKept(g: Software, eps: seq<Id>, order: set<Id> -> seq<Id>)
    requires IsListing(order)
    ensures AfterPruning(g, eps, order) == RemoveDead(g, g, eps)
  {
    DeadRemovalAccepted(g, eps, order);
  }

  // ----------------------------------------- the stages, in terms of nodes

  ghost predicate PrunesAll(g: Software, h: Software, entryPoints: seq<Id>) {
    |h.layers| == |g.layers| && forall i | 0 <= i < |g.layers| :: PrunesExactly(g.layers[i], h.layers[i], g, entryPoints)
  }

  ghost predicate InlinesAll(g: Software, h: Software, graphs: map<GraphLayer, DiGraph>) {
    |h.layers| == |g.layers| && forall i | 0 <= i < |g.layers| :: InlinesExactly(g.layers[i], h.layers[i], graphs)
  }

  ghost predicate SplitsAll(g: Software, h: Software) {
    |h.layers| == |g.layers| && forall i | 0 <= i < |g.layers| :: SplitsExactly(g.layers[i], h.layers[i])
  }

  ghost predicate CleansAll(g: Software, h: Software, nx: NetworkX) {
    |h.layers| == |g.layers| && forall i | 0 <= i < |g.layers| :: CleansExactly(g.layers[i], h.layers[i], nx)
  }

  ghost function GateOf(eps: seq<Id>, order: set<Id> -> seq<Id>): (Software, Software) -> bool {
    (before: Software, result: Software) => Accepts(before, result, eps, order)
  }

  /** The stage's result is kept if the gate accepts it, otherwise the graph before. */
  ghost predicate KeptIf(verdict: bool, before: Software, result: Software, kept: Software, gate: (Software, Software) -> bool) {
    verdict == gate(before, result) && kept == if verdict then result else before
  }

  ghost predicate PruningGated(verdict: bool, before: Software, kept: Software, eps: seq<Id>, gate: (Software, Software) -> bool) {
    exists result :: PrunesAll(before, result, eps) && KeptIf(verdict, before, result, kept, gate)
  }

  ghost predicate InliningGated(verdict: bool, before: Software, kept: Software, graphs: map<GraphLayer, DiGraph>,
                                gate: (Software, Software) -> bool) {
    exists result :: InlinesAll(before, result, graphs) && KeptIf(verdict, before, result, kept, gate)
  }

  ghost predicate SplittingGated(verdict: bool, before: Software, kept: Software, gate: (Software, Software) -> bool) {
    exists result :: SplitsAll(before, result) && KeptIf(verdict, before, result, kept, gate)
  }

  ghost predicate CleaningGated(verdict: bool, before: Software, kept: Software, nx: NetworkX, gate: (Software, Software) -> bool) {
    exists result :: CleansAll(before, result, nx) && KeptIf(verdict, before, result, kept, gate)
  }

  /** The graphs after each stage, and the verdicts on the stages. */
  datatype Stages = Stages(pruned: Software, pruningGood: bool, inlined: Software, inliningGood: bool,
                           split: Software, splittingGood: bool, cleaned: Software, cleaningGood: bool)

  /** Each stage does to the graph before it what its pass does, or nothing, by its verdict. */
  ghost predicate RunsThrough(graph: Software, st: Stages, eps: seq<Id>, nx: NetworkX, gate: (Software, Software) -> bool) {
    && PruningGated(st.pruningGood, graph, st.pruned, eps, gate)
    && InliningGated(st.inliningGood, st.pruned, st.inlined, LayerGraphs(graph.layers), gate)
    && SplittingGated(st.splittingGood, st.inlined, st.split, gate)
    && CleaningGated(st.cleaningGood, st.split, st.cleaned, nx, gate)
  }

  /** The nodes of m stand for those of l. */
  ghost predicate NodesStand(l: Layer, m: Layer) {
    forall x :: x in m.nodes <==> exists n :: n in l.nodes && StandsFor(x, n)
  }

  lemma NoneTooDear(l: Layer, m: Layer)
    requires NodesStand(l, m)
    ensures forall x | x in m.nodes :: !x.complexity.CUBIC? && !x.complexity.EXPONENTIAL?
  {
  }

  lemma SplitStands(before: Software, kept: Software, good: bool, gate: (Software, Software) -> bool)
    requires SplittingGated(good, before, kept, gate)
    ensures good ==> |kept.layers| == |before.layers| && forall i | 0 <= i < |before.layers| :: NodesStand(before.layers[i], kept.layers[i])
    ensures !good ==> kept == before
  {
    var result :| SplitsAll(before, result) && KeptIf(good, before, result, kept, gate);
    forall i | 0 <= i < |before.layers| ensures NodesStand(before.layers[i], result.layers[i]) {
      assert SplitsExactly(before.layers[i], result.layers[i]);
    }
  }

  lemma CleanKeepsNodes(before: Software, kept: Software, good: bool, nx: NetworkX, gate: (Software, Software) -> bool)
    requires CleaningGated(good, before, kept, nx, gate)
    ensures |kept.layers| == |before.layers| && forall i | 0 <= i < |before.layers| :: kept.layers[i].nodes == before.layers[i].nodes
  {
    var result :| CleansAll(before, result, nx) && KeptIf(good, before, result, kept, gate);
    forall i | 0 <= i < |before.layers| ensures result.layers[i].nodes == before.layers[i].nodes {
      assert CleansExactly(before.layers[i], result.layers[i], nx);
    }
  }

  lemma SameNodesStand(l: Layer, m: Layer, k: Layer)
    requires NodesStand(l, m) && k.nodes == m.nodes
    ensures NodesStand(l, k)
  {
  }

  /** An id with a cubic or exponential node has its two parts afterwards. */
  lemma PartsInstead(l: Layer, m: Layer, v: Id)
    requires NodesStand(l, m) && IsSplit(l, v)
    ensures v + "__part0" in NodeIds(m) && v + "__part1" in NodeIds(m)
  {
    var n :| n in l.nodes && n.id == v && TooDear(n);
    var x := Node(v + "__part0", n.nodeType, LINEAR, n.sideEffects, n.failureModes);
    var y := Node(v + "__part1", n.nodeType, LINEAR, n.sideEffects, n.failureModes);
    assert StandsFor(x, n) && StandsFor(y, n);
    assert x in m.nodes && y in m.nodes;
  }

  /** If the verdict on splitting was good, the result has in every layer the nodes that stand for
      those after inlining, so no cubic or exponential one but its two parts; otherwise it has just
      those nodes. */
  lemma SplitsWhenKept(graph: Software, st: Stages, eps: seq<Id>, nx: NetworkX, gate: (Software, Software) -> bool, i: nat)
    requires RunsThrough(graph, st, eps, nx, gate) && i < |st.inlined.layers|
    ensures |st.cleaned.layers| == |st.inlined.layers|
    ensures st.splittingGood ==> NodesStand(st.inlined.layers[i], st.cleaned.layers[i])
    ensures st.splittingGood ==> forall x | x in st.cleaned.layers[i].nodes :: !x.complexity.CUBIC? && !x.complexity.EXPONENTIAL?
    ensures st.splittingGood ==>
              forall v | IsSplit(st.inlined.layers[i], v) :: {v + "__part0", v + "__part1"} <= NodeIds(st.cleaned.layers[i])
    ensures !st.splittingGood ==> st.cleaned.layers[i].nodes == st.inlined.layers[i].nodes
  {
    SplitStands(st.inlined, st.split, st.splittingGood, gate);
    CleanKeepsNodes(st.split, st.cleaned, st.cleaningGood, nx, gate);
    if st.splittingGood {
      SameNodesStand(st.inlined.layers[i], st.split.layers[i], st.cleaned.layers[i]);
      NoneTooDear(st.inlined.layers[i], st.cleaned.layers[i]);
      forall v | IsSplit(st.inlined.layers[i], v) ensures {v + "__part0", v + "__part1"} <= NodeIds(st.cleaned.layers[i]) {
        PartsInstead(st.inlined.layers[i], st.cleaned.layers[i], v);
      }
    }
  }

  lemma NoneDearLeft(graph: Software, st: Stages, eps: seq<Id>, nx: NetworkX, gate: (Software, Software) -> bool)
    requires RunsThrough(graph, st, eps, nx, gate) && st.splittingGood
    ensures forall i, x | 0 <= i < |st.cleaned.layers| && x in st.cleaned.layers[i].nodes ::
              !x.complexity.CUBIC? && !x.complexity.EXPONENTIAL?
  {
    SplitStands(st.inlined, st.split, st.splittingGood, gate);
    CleanKeepsNodes(st.split, st.cleaned, st.cleaningGood, nx, gate);
    forall i | 0 <= i < |st.cleaned.layers|
      ensures forall x | x in st.cleaned.layers[i].nodes :: !x.complexity.CUBIC? && !x.complexity.EXPONENTIAL?
    {
      SplitsWhenKept(graph, st, eps, nx, gate, i);
    }
  }

  lemma FourVerdicts(reports: seq<Report>, before: seq<bool>, first: seq<bool>, last: seq<bool>)
    requires Verdicts(reports) == before + first + last && |first| == |last| == 2
    ensures |reports| == |before| + 4
    ensures forall k | 0 <= k < |before| :: reports[k].behaviorPreserved == before[k]
    ensures reports[|before|].behaviorPreserved == first[0] && reports[|before| + 1].behaviorPreserved == first[1]
    ensures reports[|before| + 2].behaviorPreserved == last[0] && reports[|before| + 3].behaviorPreserved == last[1]
  {
    assert |Verdicts(reports)| == |reports|;
    forall k | 0 <= k < |reports| ensures reports[k].behaviorPreserved == (before + first + last)[k] {
      assert Verdicts(reports)[k] == (before + first + last)[k];
    }
  }

  lemma PruningStages(g: Software, eps: seq<Id>, order: set<Id> -> seq<Id>)
    ensures PruningGated(Accepts(g, RemoveDead(g, g, eps), eps, order), g, AfterPruning(g, eps, order), eps, GateOf(eps, order))
  {
    RemoveDeadExactly(g, g, eps);
    assert PrunesAll(g, RemoveDead(g, g, eps), eps);
  }

  lemma InliningStages(h: Software, graphs: map<GraphLayer, DiGraph>, eps: seq<Id>, order: set<Id> -> seq<Id>)
    requires IsListing(order)
    ensures InliningGated(Accepts(h, InlineTrivial(h, graphs, order), eps, order), h, Inlined(h, graphs, eps, order), graphs, GateOf(eps, order))
  {
    InlineTrivialExactly(h, graphs, order);
    assert InlinesAll(h, InlineTrivial(h, graphs, order), graphs);
  }

  lemma SplittingStages(h: Software, eps: seq<Id>, order: set<Id> -> seq<Id>)
    ensures SplittingGated(Accepts(h, ReduceComplexity(h), eps, order), h, SplitUp(h, eps, order), GateOf(eps, order))
  {
    ReduceComplexityExactly(h);
    assert SplitsAll(h, ReduceComplexity(h));
  }

  lemma CleaningStages(h: Software, eps: seq<Id>, order: set<Id> -> seq<Id>, nx: NetworkX)
    ensures CleaningGated(Accepts(h, CleanCycles(h, nx), eps, order), h, Cleaned(h, eps, order, nx), nx, GateOf(eps, order))
  {
    CleanCyclesExactly(h, nx);
    assert CleansAll(h, CleanCycles(h, nx), nx);
  }

  ghost function StagesOf(g: Software, eps: seq<Id>, order: set<Id> -> seq<Id>, nx: NetworkX): Stages {
    var first, last := FirstVerdicts(g, eps, order), LastVerdicts(AfterInlining(g, eps, order), eps, order, nx);
    Stages(AfterPruning(g, eps, order), first[0], AfterInlining(g, eps, order), first[1],
           AfterSplitting(g, eps, order), last[0], Optimized(g, eps, order, nx), last[1])
  }

  /** What the four stages of a run compute is what their passes and verdicts say. */
  lemma RunStages(g: Software, eps: seq<Id>, order: set<Id> -> seq<Id>, nx: NetworkX)
    requires IsListing(order)
    ensures RunsThrough(g, StagesOf(g, eps, order, nx), eps, nx, GateOf(eps, order))
  {
    PruningStages(g, eps, order);
    InliningStages(AfterPruning(g, eps, order), LayerGraphs(g.layers), eps, order);
    SplittingStages(AfterInlining(g, eps, order), eps, order);
    CleaningStages(AfterSplitting(g, eps, order), eps, order, nx);
  }

  class OptimizationPipeline {
    const graph: Software
    const graphIndex: GraphIndex
    const entryPoints: seq<Id>
    var reports: seq<Report>
    var duplicatePairs: seq<(Id, Id)>
    var parallelBranches: seq<seq<Id>>

    constructor (graph: Software, graphIndex: GraphIndex, entryPoints: seq<Id>)
      ensures this.graph == graph && this.graphIndex == graphIndex && this.entryPoints == entryPoints
      ensures reports == [] && duplicatePairs == [] && parallelBranches == []
    {
      this.graph, this.graphIndex, this.entryPoints := graph, graphIndex, entryPoints;
      reports, duplicatePairs, parallelBranches := [], [], [];
    }

    /** Judges the result of one pass, records the report, keeps or rolls back. */
    method ApplyPass(before: Software, result: Software, order: set<Id> -> seq<Id>) returns (kept: Software)
      requires before.Keyed() && SameTags(before, result)
      modifies this`reports
      ensures kept == Gated(before, result, entryPoints, order) && kept.Keyed()
      ensures |reports| == |old(reports)| + 1 && reports[..|old(reports)|] == old(reports)
      ensures KeptIf(reports[|old(reports)|].behaviorPreserved, before, result, kept, GateOf(entryPoints, order))
      ensures Verdicts(reports) == Verdicts(old(reports)) + [Accepts(before, result, entryPoints, order)]
    {
      var report := Judge(before, result, entryPoints, order);
      VerdictsSnoc(reports, report);
      reports := reports + [report];
      kept := if report.behaviorPreserved then result else before;
    }

    method PruningStage(order: set<Id> -> seq<Id>) returns (working: Software)
      requires graphIndex.Valid() && graphIndex.sg == graph
      modifies this`reports, graphIndex`mergedCache
      ensures graphIndex.Valid()
      ensures Verdicts(reports) == Verdicts(old(reports)) + [Accepts(graph, RemoveDead(graph, graph, entryPoints), entryPoints, order)]
      ensures working == AfterPruning(graph, entryPoints, order) && working.Keyed()
    {
      var pruned := RemoveDeadNodes(graph, graphIndex, entryPoints);
      working := ApplyPass(graph, pruned, order);
    }

    method InliningStage(before: Software, order: set<Id> -> seq<Id>) returns (working: Software)
      requires before.Keyed()
      modifies this`reports
      ensures Verdicts(reports) ==
              Verdicts(old(reports)) + [Accepts(before, InlineTrivial(before, graphIndex.graphs, order), entryPoints, order)]
      ensures working == Inlined(before, graphIndex.graphs, entryPoints, order) && working.Keyed()
    {
      var inlined := InlineTrivialNodes(before, graphIndex, order);
      working := ApplyPass(before, inlined, order);
    }

    method SplittingStage(before: Software, order: set<Id> -> seq<Id>) returns (working: Software)
      requires before.Keyed()
      modifies this`reports
      ensures Verdicts(reports) == Verdicts(old(reports)) + [Accepts(before, ReduceComplexity(before), entryPoints, order)]
      ensures working == SplitUp(before, entryPoints, order) && working.Keyed()
    {
      var split := ReduceComplexityPass(before);
      working := ApplyPass(before, split, order);
    }

    method CleaningStage(before: Software, order: set<Id> -> seq<Id>, nx: NetworkX) returns (working: Software)
      requires before.Keyed()
      modifies this`reports
      ensures Verdicts(reports) == Verdicts(old(reports)) + [Accepts(before, CleanCycles(before, nx), entryPoints, order)]
      ensures working == Cleaned(before, entryPoints, order, nx)
    {
      var cleaned := CleanDependencyCycles(before, nx);
      working := ApplyPass(before, cleaned, order);
    }

    /** Duplicates are looked for in the pruned graph and only reported. */
    method ReportDuplicates(pruned: Software)
      modifies this`duplicatePairs
      ensures duplicatePairs == Pairs(Entries(pruned.layers))
    {
      duplicatePairs := DetectDuplicates(pruned);
    }

    method FirstPasses(order: set<Id> -> seq<Id>) returns (working: Software)
      requires graphIndex.Valid() && graphIndex.sg == graph && IsListing(order)
      modifies this`reports, this`duplicatePairs, graphIndex`mergedCache
      ensures graphIndex.Valid()
      ensures working == AfterInlining(graph, entryPoints, order) && working.Keyed()
      ensures Verdicts(reports) == Verdicts(old(reports)) + FirstVerdicts(graph, entryPoints, order)
      ensures duplicatePairs == Pairs(Entries(AfterPruning(graph, entryPoints, order).layers))
    {
      ghost var before := Verdicts(reports);
      var pruned := PruningStage(order);
      ghost var between := Verdicts(reports);
      ReportDuplicates(pruned);
      working := InliningStage(pruned, order);
      BothVerdicts(before, between, Verdicts(reports), Accepts(graph, RemoveDead(graph, graph, entryPoints), entryPoints, order),
                   Accepts(pruned, InlineTrivial(pruned, graphIndex.graphs, order), entryPoints, order));
    }

    method LastPasses(before: Software, order: set<Id> -> seq<Id>, nx: NetworkX) returns (after: Software)
      requires before.Keyed()
      modifies this`reports
      ensures after == Cleaned(SplitUp(before, entryPoints, order), entryPoints, order, nx)
      ensures Verdicts(reports) == Verdicts(old(reports)) + LastVerdicts(before, entryPoints, order, nx)
    {
      after := SplittingStage(before, order);
      after := CleaningStage(after, order, nx);
    }

    method RunPasses(order: set<Id> -> seq<Id>, nx: NetworkX) returns (after: Software)
      requires graphIndex.Valid() && graphIndex.sg == graph && IsListing(order)
      modifies this, graphIndex`mergedCache
      ensures graphIndex.Valid()
      ensures after == Optimized(graph, entryPoints, order, nx)
      ensures Verdicts(reports) == Verdicts(old(reports)) + FirstVerdicts(graph, entryPoints, order)
                                   + LastVerdicts(AfterInlining(graph, entryPoints, order), entryPoints, order, nx)
      ensures duplicatePairs == Pairs(Entries(AfterPruning(graph, entryPoints, order).layers))
    {
      var working := FirstPasses(order);
      after := LastPasses(working, order, nx);
    }

    method RunFour(order: set<Id> -> seq<Id>, nx: NetworkX) returns (after: Software, ghost st: Stages)
      requires graphIndex.Valid() && graphIndex.sg == graph && IsListing(order)
      modifies this, graphIndex`mergedCache
      ensures graphIndex.Valid()
      ensures after == st.cleaned && st == StagesOf(graph, entryPoints, order, nx)
      ensures var n := |old(reports)|;
              && |reports| == n + 4 && (forall k | 0 <= k < n :: reports[k].behaviorPreserved == old(reports)[k].behaviorPreserved)
              && reports[n].behaviorPreserved == st.pruningGood && reports[n + 1].behaviorPreserved == st.inliningGood
              && reports[n + 2].behaviorPreserved == st.splittingGood && reports[n + 3].behaviorPreserved == st.cleaningGood
      ensures duplicatePairs == Pairs(Entries(st.pruned.layers))
    {
      ghost var before := Verdicts(reports);
      after := RunPasses(order, nx);
      st := StagesOf(graph, entryPoints, order, nx);
      FourVerdicts(reports, before, FirstVerdicts(graph, entryPoints, order),
                   LastVerdicts(AfterInlining(graph, entryPoints, order), entryPoints, order, nx));
    }

    method RunAndReport(order: set<Id> -> seq<Id>, nx: NetworkX) returns (after: Software, ghost st: Stages)
      requires graphIndex.Valid() && graphIndex.sg == graph
      requires IsListing(order) && CycleBreaking.Valid(nx)
      modifies this, graphIndex`mergedCache
      ensures graphIndex.Valid()
      ensures after == st.cleaned && st == StagesOf(graph, entryPoints, order, nx)
      ensures var n := |old(reports)|;
              && |reports| == n + 4 && (forall k | 0 <= k < n :: reports[k].behaviorPreserved == old(reports)[k].behaviorPreserved)
              && reports[n].behaviorPreserved == st.pruningGood && reports[n + 1].behaviorPreserved == st.inliningGood
              && reports[n + 2].behaviorPreserved == st.splittingGood && reports[n + 3].behaviorPreserved == st.cleaningGood
      ensures duplicatePairs == Pairs(Entries(st.pruned.layers))
      ensures forall s :: order(s) in parallelBranches <==> SomeBranch(LayerGraphs(graph.layers), after.layers, s)
    {
      after, st := RunFour(order, nx);
      parallelBranches := ParallelizeIndependentBranches(after, graphIndex, nx, order);
    }

    /** The optimised graph, four more reports, the duplicates of the pruned graph, and the
        branches of the input's layers. Ghost st holds the graph after each stage, by the verdicts. */
    method Run(order: set<Id> -> seq<Id>, nx: NetworkX) returns (after: Software, ghost st: Stages)
      requires graphIndex.Valid() && graphIndex.sg == graph
      requires IsListing(order) && CycleBreaking.Valid(nx)
      modifies this, graphIndex`mergedCache
      ensures graphIndex.Valid()
      ensures after == Optimized(graph, entryPoints, order, nx) == st.cleaned && st == StagesOf(graph, entryPoints, order, nx)
      ensures RunsThrough(graph, st, entryPoints, nx, GateOf(entryPoints, order))
      ensures var n := |old(reports)|;
              && |reports| == n + 4 && (forall k | 0 <= k < n :: reports[k].behaviorPreserved == old(reports)[k].behaviorPreserved)
              && reports[n].behaviorPreserved == st.pruningGood && reports[n + 1].behaviorPreserved == st.inliningGood
              && reports[n + 2].behaviorPreserved == st.splittingGood && reports[n + 3].behaviorPreserved == st.cleaningGood
      ensures reports[|old(reports)| + 2].behaviorPreserved ==>
                forall i, x | 0 <= i < |after.layers| && x in after.layers[i].nodes :: !x.complexity.CUBIC? && !x.complexity.EXPONENTIAL?
      ensures duplicatePairs == Pairs(Entries(st.pruned.layers))
      ensures forall s :: order(s) in parallelBranches <==> SomeBranch(LayerGraphs(graph.layers), after.layers, s)
    {
      after, st := RunAndReport(order, nx);
      RunStages(graph, entryPoints, order, nx);
      if st.splittingGood {
        NoneDearLeft(graph, st, entryPoints, nx, GateOf(entryPoints, order));
      }
    }
  }

  // ------------------------------------------- what the stages look like

  /** The stale index the second stage reads is exact for the graph it rewrites. */
  lemma InliningReadsExactFanOut(g: Software, eps: seq<Id>, order: set<Id> -> seq<Id>, i: nat)
    requires IsListing(order) && g.Keyed() && i < |g.layers|
    ensures var h := AfterPruning(g, eps, order);
            |h.layers| == |g.layers| && ExactFanOut(h.layers[i], LayerGraphs(g.layers))
  {
    PruningKept(g, eps, order);
    var h := RemoveDead(g, g, eps);
    PruneKeyed(g, Dead(g, eps));
    PruneLayerIds(g.layers[i], Dead(g, eps));
    forall n | n in h.layers[i].nodes
      ensures FanOut(LayerGraphs(g.layers), n.id, h.layers[i].tag) == OutDegree(LayerGraph(h.layers[i]), n.id)
    {
      StaleIndexExact(g, eps, i, n.id);
      FanOutAt(h, i, n.id);
    }
  }

  /** Hence in a run, inlining any layer has both halves of its meaning under these conditions. */
  lemma PipelineInliningExact(g: Software, eps: seq<Id>, order: set<Id> -> seq<Id>, i: nat)
    requires IsListing(order) && g.Keyed() && i < |g.layers|
    ensures var h := AfterPruning(g, eps, order); var graphs := LayerGraphs(g.layers);
            && |h.layers| == |g.layers|
            && var l := h.layers[i]; var m := InlineOne(l, graphs, order);
               var gone := Candidates(l, graphs, DEFAULT_INLINE_THRESHOLD);
               && (Avoids(m, gone) <==> NoLiveChain(l, gone))
               && (SameReachability(l, m, gone) <==> Detours(LayerArcs(l), gone))
               && (NoLiveChain(l, gone) ==> Detours(LayerArcs(l), gone))
  {
    InliningReadsExactFanOut(g, eps, order, i);
    var h := AfterPruning(g, eps, order);
    InliningPreservesMeaningExactly(h.layers[i], LayerGraphs(g.layers), DEFAULT_INLINE_THRESHOLD, order);
  }

  /** And between ids that stay, it keeps the walks that pass no two inlined nodes in a row. */
  lemma PipelineInliningReachability(g: Software, eps: seq<Id>, order: set<Id> -> seq<Id>, i: nat, u: Id, v: Id)
    requires IsListing(order) && g.Keyed() && i < |g.layers|
    ensures var h := AfterPruning(g, eps, order); var graphs := LayerGraphs(g.layers);
            && |h.layers| == |g.layers|
            && var l := h.layers[i]; var gone := Candidates(l, graphs, DEFAULT_INLINE_THRESHOLD);
               (u !in gone && v !in gone ==>
                 (Reach(LayerArcs(InlineOne(l, graphs, order)), u, v) <==> ReachSpaced(LayerArcs(l), gone, u, v)))
  {
    InliningReadsExactFanOut(g, eps, order, i);
    var l, graphs := AfterPruning(g, eps, order).layers[i], LayerGraphs(g.layers);
    var gone := Candidates(l, graphs, DEFAULT_INLINE_THRESHOLD);
    if u !in gone && v !in gone {
      InliningReachability(l, graphs, DEFAULT_INLINE_THRESHOLD, order, u, v);
    }
  }

  /** In a run, a kept inlining pass un-declares no id: every inlined node must still be
      declared by another layer, or the pass is rolled back. */
  lemma KeptInliningLosesNoId(g: Software, eps: seq<Id>, order: set<Id> -> seq<Id>)
    requires IsListing(order)
    ensures Declared(AfterInlining(g, eps, order)) == Declared(g) * Live(Merged(g), eps)
  {
    PruningKept(g, eps, order);
    DeadRemovalExact(g, eps);
    var h := RemoveDead(g, g, eps);
    NothingDeadLeft(g, eps);
    var m := InlineTrivial(h, LayerGraphs(g.layers), order);
    if Accepts(h, m, eps, order) {
      AcceptedKeepsLiveIds(h, m, eps, order);
      InlineInventsNothingAnywhere(h, LayerGraphs(g.layers), order);
      forall v | v in Declared(m) ensures v in Declared(h) {
        var i := LayerOfId(m, v);
        var n :| n in m.layers[i].nodes && n.id == v;
        assert n in h.layers[i].nodes;
      }
    }
  }

  lemma OneLayerInlined(h: Software, graphs: map<GraphLayer, DiGraph>, order: set<Id> -> seq<Id>)
    requires |h.layers| == 1 && Declared(InlineTrivial(h, graphs, order)) == Declared(h)
    ensures InlineTrivial(h, graphs, order) == h
  {
    var l := h.layers[0];
    var gone := Candidates(l, graphs, DEFAULT_INLINE_THRESHOLD);
    var m := InlineTrivial(h, graphs, order);
    InlineLayerIds(l, gone, order);
    forall v | v in NodeIds(l) ensures v !in gone {
      assert v in Declared(h);
      var i := LayerOfId(m, v);
    }
    assert gone <= NodeIds(l);
    assert m.layers == [l] == h.layers;
  }

  /** So on a graph with a single layer a run never inlines anything. */
  lemma SingleLayerNeverInlined(g: Software, eps: seq<Id>, order: set<Id> -> seq<Id>)
    requires IsListing(order) && |g.layers| == 1
    ensures AfterInlining(g, eps, order) == AfterPruning(g, eps, order)
  {
    KeptInliningLosesNoId(g, eps, order);
    PruningKept(g, eps, order);
    DeadRemovalExact(g, eps);
    var h := AfterPruning(g, eps, order);
    var graphs := LayerGraphs(g.layers);
    if Accepts(h, InlineTrivial(h, graphs, order), eps, order) {
      OneLayerInlined(h, graphs, order);
    }
  }

  // --------------------------------------------------- nothing is invented

  /** Ids of the input that the split parts could be confused with do not exist. */
  ghost predicate PartIdsFresh(g: Software) {
    PartsFresh(AllSplitIds(g), Merged(g).nodes)
  }

  lemma UpToInlining(g: Software, eps: seq<Id>, order: set<Id> -> seq<Id>)
    requires IsListing(order)
    ensures LayersSimulate(AfterInlining(g, eps, order), g, x => x)
    ensures NoNewNodes(g, AfterInlining(g, eps, order))
  {
    var g1, g2 := AfterPruning(g, eps, order), AfterInlining(g, eps, order);
    SameLayers(g);
    PruneInventsNothing(g, Dead(g, eps));
    SameLayers(g1);
    InlineInventsNothingAnywhere(g1, LayerGraphs(g.layers), order);
    LayersCompose(g2, g1, g, x => x, x => x, x => x);
  }

  /** Contracting split parts, every walk after the splitting stage is a walk of the input. */
  lemma UpToSplitting(g: Software, eps: seq<Id>, order: set<Id> -> seq<Id>)
    requires IsListing(order) && PartIdsFresh(g)
    ensures LayersSimulate(AfterSplitting(g, eps, order), g, v => Contract(AllSplitIds(g), v))
  {
    var c := v => Contract(AllSplitIds(g), v);
    var g2, g3 := AfterInlining(g, eps, order), AfterSplitting(g, eps, order);
    UpToInlining(g, eps, order);
    SplitInventsNothing(g2, AllSplitIds(g));
    LayersCompose(g3, g2, g, c, x => x, c);
  }

  /** No run invents reachability: contracting split parts, every walk of an optimised layer
      is a walk of the same input layer. */
  lemma RunInventsNothing(g: Software, eps: seq<Id>, order: set<Id> -> seq<Id>, nx: NetworkX)
    requires IsListing(order) && PartIdsFresh(g)
    ensures LayersSimulate(Optimized(g, eps, order, nx), g, v => Contract(AllSplitIds(g), v))
  {
    var c := v => Contract(AllSplitIds(g), v);
    var g3, g4 := AfterSplitting(g, eps, order), Optimized(g, eps, order, nx);
    UpToSplitting(g, eps, order);
    SameLayers(g3);
    CleanInventsNothing(g3, nx);
    LayersCompose(g4, g3, g, x => x, c, c);
  }

  /** In particular over the merged graph. */
  lemma RunInventsNoReachability(g: Software, eps: seq<Id>, order: set<Id> -> seq<Id>, nx: NetworkX, u: Id, v: Id)
    requires IsListing(order) && PartIdsFresh(g)
    requires Reach(Arcs(Optimized(g, eps, order, nx)), u, v)
    ensures Reach(Arcs(g), Contract(AllSplitIds(g), u), Contract(AllSplitIds(g), v))
  {
    var c := w => Contract(AllSplitIds(g), w);
    RunInventsNothing(g, eps, order, nx);
    MergedSimulates(Optimized(g, eps, order, nx), g, c);
    ReachSimulated(Arcs(Optimized(g, eps, order, nx)), Arcs(g), c, u, v);
  }

  lemma BranchNodesOfLayer(l: Layer, s: set<Id>)
    requires IsBranch(LayerGraph(l), s)
    ensures s <= LayerGraph(l).nodes
  {
  }

  /** The branches a run reports are computed on the input graph; those of acyclic layers are
      still independent in the optimised one. */
  lemma BranchesStayIndependent(g: Software, eps: seq<Id>, order: set<Id> -> seq<Id>, nx: NetworkX, i: nat, s: set<Id>)
    requires IsListing(order) && g.Keyed() && PartIdsFresh(g) && i < |g.layers|
    requires Acyclic(LayerGraph(g.layers[i])) && IsBranch(LayerGraph(g.layers[i]), s)
    ensures Antichain(LayerArcs(g.layers[i]), s)
    ensures var h := Optimized(g, eps, order, nx);
            |h.layers| == |g.layers| && Antichain(LayerArcs(h.layers[i]), s)
  {
    var h := Optimized(g, eps, order, nx);
    var l := g.layers[i];
    var c := w => Contract(AllSplitIds(g), w);
    LayerGraphWellFormed(l);
    BranchIndependentExactly(LayerGraph(l), s);
    RunInventsNothing(g, eps, order, nx);
    forall u, v | u in s && v in s && u != v ensures !Reach(LayerArcs(h.layers[i]), u, v) {
      if Reach(LayerArcs(h.layers[i]), u, v) {
        ReachSimulated(LayerArcs(h.layers[i]), LayerArcs(l), c, u, v);
        BranchNodesOfLayer(l, s);
        assert u in Merged(g).nodes && v in Merged(g).nodes;
        ContractFresh(AllSplitIds(g), Merged(g).nodes, u);
        ContractFresh(AllSplitIds(g), Merged(g).nodes, v);
      }
    }
  }

  // ------------------------------------------------------ nothing is lost

  /** The trace check follows everything an entry point reaches. */
  ghost predicate WithinTraceBound(g: Software, ep: Id) {
    |DeclaredDescendants(g, ep)| <= MAX_TRACE_BRANCHING
  }

  lemma KeepsItself(g: Software, ep: Id)
    requires ep in Declared(g)
    ensures KeepsBelow(g, g, ep)
  {
  }

  /** One gated stage, kept or not. */
  lemma StageKeeps(before: Software, after: Software, eps: seq<Id>, order: set<Id> -> seq<Id>, ep: Id)
    requires IsListing(order) && ep in eps && ep in Declared(before) && WithinTraceBound(before, ep)
    ensures KeepsBelow(before, Gated(before, after, eps, order), ep)
  {
    if Accepts(before, after, eps, order) {
      GateSound(before, after, eps, order, ep);
    } else {
      KeepsItself(before, ep);
    }
  }

  lemma KeepsTrans(g: Software, h: Software, k: Software, ep: Id)
    requires KeepsBelow(g, h, ep) && KeepsBelow(h, k, ep)
    ensures KeepsBelow(g, k, ep)
  {
  }

  lemma NodesShrink(g: Software, h: Software)
    requires NoNewNodes(g, h)
    ensures Declared(h) <= Declared(g) && Merged(h).nodes <= Merged(g).nodes
  {
    forall v | v in Declared(h) ensures v in Declared(g) {
      var i := LayerOfId(h, v);
      var n :| n in h.layers[i].nodes && n.id == v;
      assert n in g.layers[i].nodes;
    }
  }

  lemma BelowShrinks(g: Software, h: Software, u: Id)
    requires LayersSimulate(h, g, x => x) && NoNewNodes(g, h)
    ensures DeclaredDescendants(h, u) <= DeclaredDescendants(g, u)
  {
    MergedSimulates(h, g, x => x);
    NodesShrink(g, h);
    forall v | v in DeclaredDescendants(h, u) ensures v in DeclaredDescendants(g, u) {
      ReachSimulated(Arcs(h), Arcs(g), x => x, u, v);
    }
  }

  /** The first two stages only shrink what an id reaches. */
  lemma FirstStagesShrink(g: Software, eps: seq<Id>, order: set<Id> -> seq<Id>, u: Id)
    requires IsListing(order)
    ensures DeclaredDescendants(AfterPruning(g, eps, order), u) <= DeclaredDescendants(g, u)
    ensures DeclaredDescendants(AfterInlining(g, eps, order), u) <= DeclaredDescendants(g, u)
  {
    PruningKept(g, eps, order);
    PruneInventsNothing(g, Dead(g, eps));
    UpToInlining(g, eps, order);
    BelowShrinks(g, AfterPruning(g, eps, order), u);
    BelowShrinks(g, AfterInlining(g, eps, order), u);
  }

  /** Gate soundness over a whole run: if an entry point has at most ten declared descendants in
      the input, and again after splitting, then below it the whole reachability relation
      among declared ids is kept. */
  lemma RunLosesNothing(g: Software, eps: seq<Id>, order: set<Id> -> seq<Id>, nx: NetworkX, ep: Id)
    requires IsListing(order) && ep in eps && ep in Declared(g)
    requires WithinTraceBound(g, ep) && WithinTraceBound(AfterSplitting(g, eps, order), ep)
    ensures KeepsBelow(g, Optimized(g, eps, order, nx), ep)
  {
    var g1, g2 := AfterPruning(g, eps, order), AfterInlining(g, eps, order);
    var g3, g4 := AfterSplitting(g, eps, order), Optimized(g, eps, order, nx);
    FirstStagesShrink(g, eps, order, ep);
    SubsetSize(DeclaredDescendants(g1, ep), DeclaredDescendants(g, ep));
    SubsetSize(DeclaredDescendants(g2, ep), DeclaredDescendants(g, ep));
    StageKeeps(g, RemoveDead(g, g, eps), eps, order, ep);
    StageKeeps(g1, InlineTrivial(g1, LayerGraphs(g.layers), order), eps, order, ep);
    StageKeeps(g2, ReduceComplexity(g2), eps, order, ep);
    StageKeeps(g3, CleanCycles(g3, nx), eps, order, ep);
    KeepsTrans(g, g1, g2, ep);
    KeepsTrans(g, g2, g3, ep);
    KeepsTrans(g, g3, g4, ep);
  }

  // ------------------------------------------- a bound on the input alone

  /** The declared descendants of an entry point and the parts that these and the entry point
      could be split into. */
  ghost function WithParts(g: Software, ep: Id): set<Id> {
    DeclaredDescendants(g, ep)
    + set x, first: bool | x in (DeclaredDescendants(g, ep) + {ep}) * AllSplitIds(g) :: PartId(x, first)
  }

  /** After splitting an id is one of the input or a part of a node the input would split. */
  lemma DeclaredAfterSplitting(g: Software, eps: seq<Id>, order: set<Id> -> seq<Id>, v: Id)
    requires IsListing(order) && v in Declared(AfterSplitting(g, eps, order))
    ensures v in Declared(g) || exists x, first :: x in AllSplitIds(g) && x in Declared(g) && v == PartId(x, first)
  {
    var h, k := AfterInlining(g, eps, order), AfterSplitting(g, eps, order);
    UpToInlining(g, eps, order);
    var i := LayerOfId(k, v);
    assert k == h || k == ReduceComplexity(h);
    if v !in NodeIds(h.layers[i]) {
      SplitLayerIds(h.layers[i], v);
      var x, first :| x in SplitIds(h.layers[i].nodes) && v == PartId(x, first);
      var n :| n in h.layers[i].nodes && NeedsSplit(n) && n.id == x;
      assert n in g.layers[i].nodes;
      assert x in AllSplitIds(g) && x in Declared(g);
    } else {
      var n :| n in h.layers[i].nodes && n.id == v;
      assert n in g.layers[i].nodes;
    }
  }

  lemma DescendantsAfterSplitting(g: Software, eps: seq<Id>, order: set<Id> -> seq<Id>, ep: Id)
    requires IsListing(order) && PartIdsFresh(g) && ep in Declared(g)
    ensures DeclaredDescendants(AfterSplitting(g, eps, order), ep) <= WithParts(g, ep)
  {
    var k, split := AfterSplitting(g, eps, order), AllSplitIds(g);
    var c := w => Contract(split, w);
    UpToSplitting(g, eps, order);
    MergedSimulates(k, g, c);
    MergedWellFormed(g);
    ContractFresh(split, Merged(g).nodes, ep);
    forall v | v in DeclaredDescendants(k, ep) ensures v in WithParts(g, ep) {
      ReachSimulated(Arcs(k), Arcs(g), c, ep, v);
      DeclaredAfterSplitting(g, eps, order, v);
      if v in Declared(g) {
        ContractFresh(split, Merged(g).nodes, v);
      } else {
        var x, first :| x in split && x in Declared(g) && v == PartId(x, first);
        ContractPart(split, x, first);
      }
    }
  }

  /** A bound on the input is enough: counting each declared descendant that could be split
      together with its two parts, at most ten. */
  lemma RunLosesNothingFromInput(g: Software, eps: seq<Id>, order: set<Id> -> seq<Id>, nx: NetworkX, ep: Id)
    requires IsListing(order) && PartIdsFresh(g) && ep in eps && ep in Declared(g)
    requires |WithParts(g, ep)| <= MAX_TRACE_BRANCHING
    ensures KeepsBelow(g, Optimized(g, eps, order, nx), ep)
  {
    DescendantsAfterSplitting(g, eps, order, ep);
    SubsetSize(DeclaredDescendants(g, ep), WithParts(g, ep));
    SubsetSize(DeclaredDescendants(AfterSplitting(g, eps, order), ep), WithParts(g, ep));
    RunLosesNothing(g, eps, order, nx, ep);
  }
}
