/** Well-formedness from the layer builders through a whole run of the pipeline. */
module WellFormedRuns {
  import opened Digraph
  import opened Sgir
  import opened DeadNodes
  import opened Inlining
  import opened Splitting
  import opened CycleBreaking
  import opened Verification
  import opened NoInvention
  import opened Pipeline

  ghost predicate AllWellFormed(g: Software) {
    forall i | 0 <= i < |g.layers| :: WellFormedLayer(g.layers[i])
  }

  /** Inlining keeps a well-formed layer well-formed exactly if no candidate behind a
      surviving node leads to another candidate. */
  lemma InliningKeepsWellFormedExactly(l: Layer, gone: set<Id>, order: set<Id> -> seq<Id>)
    requires IsListing(order) && WellFormedLayer(l)
    ensures WellFormedLayer(InlineLayer(l, gone, order)) <==> NoLiveChain(l, gone)
  {
    DanglingExactly(l, gone, order);
    if gone != {} {
      FilterUnique(NodeOutside(gone), l);
    }
  }

  /** The inlining pass of a run, kept or not. */
  ghost predicate NoLiveChains(g: Software, eps: seq<Id>, order: set<Id> -> seq<Id>) {
    forall i | 0 <= i < |AfterPruning(g, eps, order).layers| ::
      NoLiveChain(AfterPruning(g, eps, order).layers[i],
                  Candidates(AfterPruning(g, eps, order).layers[i], LayerGraphs(g.layers), DEFAULT_INLINE_THRESHOLD))
  }

  ghost predicate InliningKept(g: Software, eps: seq<Id>, order: set<Id> -> seq<Id>) {
    var h := AfterPruning(g, eps, order);
    Accepts(h, InlineTrivial(h, LayerGraphs(g.layers), order), eps, order)
  }

  lemma PrunedWellFormed(g: Software, eps: seq<Id>, order: set<Id> -> seq<Id>)
    requires IsListing(order) && AllWellFormed(g)
    ensures AllWellFormed(AfterPruning(g, eps, order))
  {
    PruningKept(g, eps, order);
    forall i | 0 <= i < |g.layers| ensures WellFormedLayer(PruneLayer(g.layers[i], Dead(g, eps))) {
      PruneKeepsWellFormed(g.layers[i], Dead(g, eps));
    }
  }

  lemma InlinedWellFormed(h: Software, graphs: map<GraphLayer, DiGraph>, order: set<Id> -> seq<Id>)
    requires IsListing(order) && AllWellFormed(h)
    ensures AllWellFormed(InlineTrivial(h, graphs, order)) <==>
              forall i | 0 <= i < |h.layers| :: NoLiveChain(h.layers[i], Candidates(h.layers[i], graphs, DEFAULT_INLINE_THRESHOLD))
  {
    var m := InlineTrivial(h, graphs, order);
    forall i | 0 <= i < |h.layers|
      ensures WellFormedLayer(m.layers[i]) <==> NoLiveChain(h.layers[i], Candidates(h.layers[i], graphs, DEFAULT_INLINE_THRESHOLD))
    {
      InliningKeepsWellFormedExactly(h.layers[i], Candidates(h.layers[i], graphs, DEFAULT_INLINE_THRESHOLD), order);
    }
  }

  /** After the inlining stage every layer is well-formed exactly if the stage was rolled
      back or no candidates chained behind a surviving node. */
  lemma WellFormedAfterInlining(g: Software, eps: seq<Id>, order: set<Id> -> seq<Id>)
    requires IsListing(order) && AllWellFormed(g)
    ensures AllWellFormed(AfterInlining(g, eps, order)) <==> !InliningKept(g, eps, order) || NoLiveChains(g, eps, order)
  {
    PrunedWellFormed(g, eps, order);
    InlinedWellFormed(AfterPruning(g, eps, order), LayerGraphs(g.layers), order);
  }

  lemma SplitAllWellFormed(h: Software, eps: seq<Id>, order: set<Id> -> seq<Id>)
    requires AllWellFormed(h)
    requires forall i | 0 <= i < |h.layers| :: PartsFresh(SplitIds(h.layers[i].nodes), NodeIds(h.layers[i]))
    ensures AllWellFormed(SplitUp(h, eps, order))
  {
    forall i | 0 <= i < |h.layers| ensures WellFormedLayer(SplitLayer(h.layers[i])) {
      assert UnsplitIds(h.layers[i].nodes) <= NodeIds(h.layers[i]);
      SplitKeepsWellFormedExactly(h.layers[i]);
    }
  }

  lemma CleanAllWellFormed(h: Software, eps: seq<Id>, order: set<Id> -> seq<Id>, nx: NetworkX)
    requires AllWellFormed(h)
    ensures AllWellFormed(Cleaned(h, eps, order, nx))
  {
    forall i | 0 <= i < |h.layers| ensures WellFormedLayer(CleanLayer(h.layers[i], nx)) {
    }
  }

  // ------------------------------------------- what a kept chain leaves behind

  /** An undeclared id that is entered and that nothing leaves. */
  ghost predicate LooseEnd(l: Layer, d: Id) {
    && d !in NodeIds(l)
    && (exists u :: (u, d) in LayerArcs(l))
    && (forall a | a in LayerArcs(l) :: a.0 != d)
  }

  lemma LooseEndDangles(l: Layer, d: Id)
    requires LooseEnd(l, d)
    ensures !NoDangling(l)
  {
    var u :| (u, d) in LayerArcs(l);
    var e :| e in l.edges && (e.source, e.target) == (u, d);
  }

  lemma ChainLeavesLooseEnd(l: Layer, gone: set<Id>, order: set<Id> -> seq<Id>) returns (d: Id)
    requires IsListing(order) && !NoLiveChain(l, gone)
    ensures LooseEnd(InlineLayer(l, gone, order), d)
  {
    var m := InlineLayer(l, gone, order);
    var s, c :| (s, c) in LayerArcs(l) && s !in gone && c in gone && FirstTarget(l, c).Some?
                && FirstTarget(l, c).value in gone;
    d := FirstTarget(l, c).value;
    BypassArc(l, gone, order, c, (s, d));
    InlineLayerIds(l, gone, order);
    forall a | a in LayerArcs(m) ensures a.0 != d {
      InlineLayerArcs(l, gone, order, a);
    }
  }

  /** Splitting neither declares a loose end nor gives it a way out, and still enters it. */
  lemma SplitKeepsLooseEnd(l: Layer, d: Id)
    requires LooseEnd(l, d) && PartsFresh(SplitIds(l.nodes), {d})
    ensures LooseEnd(SplitLayer(l), d)
  {
    var m, split := SplitLayer(l), SplitIds(l.nodes);
    assert d !in split;
    if d in NodeIds(m) {
      SplitLayerIds(l, d);
    }
    var u :| (u, d) in LayerArcs(l);
    SplitArcShape(l, RedirectArc(split, (u, d)));
    assert RedirectArc(split, (u, d)).1 == d;
    forall a | a in LayerArcs(m) ensures a.0 != d {
      SplitArcShape(l, a);
    }
  }

  /** The arc into a loose end lies on no cycle, so cleaning keeps it. */
  lemma CleanKeepsLooseEnd(l: Layer, nx: NetworkX, d: Id)
    requires CycleBreaking.Valid(nx) && LooseEnd(l, d)
    ensures LooseEnd(CleanLayer(l, nx), d)
  {
    var m := CleanLayer(l, nx);
    var u :| (u, d) in LayerArcs(l);
    if (u, d) !in LayerArcs(m) {
      RemovedOnCycle(l, nx, (u, d));
      var w := ReachFirst(LayerArcs(l), d, u);
    }
    assert NodeIds(m) == NodeIds(l);
  }

  /** A loose end survives the last two stages, kept or not. */
  lemma LooseEndStays(h: Software, eps: seq<Id>, order: set<Id> -> seq<Id>, nx: NetworkX, i: nat, d: Id)
    requires CycleBreaking.Valid(nx) && i < |h.layers| && LooseEnd(h.layers[i], d)
    requires PartsFresh(SplitIds(h.layers[i].nodes), {d})
    ensures !AllWellFormed(Cleaned(SplitUp(h, eps, order), eps, order, nx))
  {
    SplitKeepsLooseEnd(h.layers[i], d);
    var k := SplitUp(h, eps, order);
    assert LooseEnd(k.layers[i], d);
    CleanKeepsLooseEnd(k.layers[i], nx, d);
    var m := Cleaned(k, eps, order, nx);
    assert LooseEnd(m.layers[i], d);
    LooseEndDangles(m.layers[i], d);
  }

  lemma LooseEndFresh(g: Software, h: Software, i: nat, d: Id)
    requires NoNewNodes(g, h) && PartIdsFresh(g) && i < |h.layers| && LooseEnd(h.layers[i], d)
    ensures PartsFresh(SplitIds(h.layers[i].nodes), {d})
  {
    var u :| (u, d) in LayerArcs(h.layers[i]);
    LayerGraphWellFormed(h.layers[i]);
    assert d in LayerGraph(h.layers[i]).nodes;
    assert d in LayerGraph(g.layers[i]).nodes;
    assert d in Merged(g).nodes;
    forall x | x in SplitIds(h.layers[i].nodes) ensures x in AllSplitIds(g) {
      var n :| n in h.layers[i].nodes && NeedsSplit(n) && n.id == x;
      assert n in g.layers[i].nodes;
    }
  }

  lemma KeptChainStays(g: Software, eps: seq<Id>, order: set<Id> -> seq<Id>, nx: NetworkX)
    requires IsListing(order) && CycleBreaking.Valid(nx) && PartIdsFresh(g)
    requires InliningKept(g, eps, order) && !NoLiveChains(g, eps, order)
    ensures !AllWellFormed(Optimized(g, eps, order, nx))
  {
    var k, h := AfterPruning(g, eps, order), AfterInlining(g, eps, order);
    var i :| 0 <= i < |k.layers|
             && !NoLiveChain(k.layers[i], Candidates(k.layers[i], LayerGraphs(g.layers), DEFAULT_INLINE_THRESHOLD));
    var d := ChainLeavesLooseEnd(k.layers[i], Candidates(k.layers[i], LayerGraphs(g.layers), DEFAULT_INLINE_THRESHOLD), order);
    assert LooseEnd(h.layers[i], d);
    UpToInlining(g, eps, order);
    LooseEndFresh(g, h, i, d);
    LooseEndStays(h, eps, order, nx, i, d);
  }

  /** A run on well-formed layers ends with well-formed layers, unless it kept an inlining
      pass that left an edge to an inlined node. */
  lemma RunKeepsWellFormed(g: Software, eps: seq<Id>, order: set<Id> -> seq<Id>, nx: NetworkX)
    requires IsListing(order) && AllWellFormed(g) && PartIdsFresh(g)
    requires InliningKept(g, eps, order) ==> NoLiveChains(g, eps, order)
    ensures AllWellFormed(Optimized(g, eps, order, nx))
  {
    WellFormedAfterInlining(g, eps, order);
    UpToInlining(g, eps, order);
    var h := AfterInlining(g, eps, order);
    SplitAllWellFormed(h, eps, order);
    CleanAllWellFormed(AfterSplitting(g, eps, order), eps, order, nx);
  }

  /** A run on well-formed layers ends with well-formed layers exactly if inlining was rolled
      back or had no candidates that chain behind a surviving node. */
  lemma RunKeepsWellFormedExactly(g: Software, eps: seq<Id>, order: set<Id> -> seq<Id>, nx: NetworkX)
    requires IsListing(order) && CycleBreaking.Valid(nx) && AllWellFormed(g) && PartIdsFresh(g)
    ensures AllWellFormed(Optimized(g, eps, order, nx)) <==> !InliningKept(g, eps, order) || NoLiveChains(g, eps, order)
  {
    if !InliningKept(g, eps, order) || NoLiveChains(g, eps, order) {
      RunKeepsWellFormed(g, eps, order, nx);
    } else {
      KeptChainStays(g, eps, order, nx);
    }
  }
}
