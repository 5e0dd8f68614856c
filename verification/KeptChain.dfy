/** A whole run that ends with a dangling edge: a second layer hides from the gate what
    inlining does to the first. */
module KeptChain {
  import opened Digraph
  import opened Lists
  import opened Sgir
  import opened DeadNodes
  import opened Inlining
  import opened Splitting
  import opened CycleBreaking
  import opened Verification
  import opened Gate
  import opened NoInvention
  import opened Pipeline
  import opened WellFormedRuns
  import opened Counterexamples
  import opened Realisable

  function Busy(id: Id): Node {
    Node(id, FUNCTION, CONSTANT, ["io"], [])
  }

  /** The same walk in another layer, where every node has a side effect. */
  function Shadow(s: Id, c: Id, d: Id, t: Id): Layer {
    Layer(DataFlowLayer, [Busy(s), Busy(c), Busy(d), Busy(t)], [Call(s, c), Call(c, d), Call(d, t)])
  }

  /** A well-formed layer with arcs E whose nodes, declared or not, are V. */
  ghost predicate Spans(l: Layer, E: set<Arc>, V: set<Id>) {
    WellFormedLayer(l) && LayerArcs(l) == E && NodeIds(l) == V && LayerGraph(l).nodes == V
  }

  lemma LineFacts(l: Layer, s: Id, c: Id, d: Id, t: Id)
    requires Distinct([s, c, d, t]) && |l.nodes| == 4
    requires l.nodes[0].id == s && l.nodes[1].id == c && l.nodes[2].id == d && l.nodes[3].id == t
    requires l.edges == [Call(s, c), Call(c, d), Call(d, t)]
    ensures Spans(l, {(s, c), (c, d), (d, t)}, {s, c, d, t})
  {
    var ids := [s, c, d, t];
    assert forall i | 0 <= i < 4 :: l.nodes[i].id == ids[i];
    IdsOf(l, 0);
    IdsOf(l, 1);
    IdsOf(l, 2);
    IdsOf(l, 3);
    ArcsOfThree(l, Call(s, c), Call(c, d), Call(d, t));
  }

  lemma ArcsOfTwoLayers(l: Layer, m: Layer)
    ensures Arcs(Software([l, m])) == LayerArcs(l) + LayerArcs(m)
  {
    var g := Software([l, m]);
    assert g.layers[0] == l && g.layers[1] == m;
    forall a | a in LayerArcs(l) ensures a in Arcs(g) {
      ArcFromLayer(g, 0, a);
    }
    forall a | a in LayerArcs(m) ensures a in Arcs(g) {
      ArcFromLayer(g, 1, a);
    }
    forall a | a in Arcs(g) ensures a in LayerArcs(l) + LayerArcs(m) {
      var i, e := LayerOfArc(g, a);
    }
  }

  lemma IdsOfTwoLayers(l: Layer, m: Layer)
    ensures Declared(Software([l, m])) == NodeIds(l) + NodeIds(m)
  {
    var g := Software([l, m]);
    assert g.layers[0] == l && g.layers[1] == m;
    forall v | v in Declared(g) ensures v in NodeIds(l) + NodeIds(m) {
      var i := LayerOfId(g, v);
    }
    forall v | v in NodeIds(l) ensures v in Declared(g) {
      var n :| n in g.layers[0].nodes && n.id == v;
    }
    forall v | v in NodeIds(m) ensures v in Declared(g) {
      var n :| n in g.layers[1].nodes && n.id == v;
    }
  }

  lemma NodesOfTwoLayers(l: Layer, m: Layer)
    ensures Merged(Software([l, m])).nodes == LayerGraph(l).nodes + LayerGraph(m).nodes
  {
    var g := Software([l, m]);
    assert g.layers[0] == l && g.layers[1] == m;
    forall v | v in LayerGraph(l).nodes ensures v in Merged(g).nodes {
      assert v in LayerGraph(g.layers[0]).nodes;
    }
    forall v | v in LayerGraph(m).nodes ensures v in Merged(g).nodes {
      assert v in LayerGraph(g.layers[1]).nodes;
    }
  }

  lemma OfTwoLayers(l: Layer, m: Layer)
    ensures var g := Software([l, m]);
            && Arcs(g) == LayerArcs(l) + LayerArcs(m) && Declared(g) == NodeIds(l) + NodeIds(m)
            && Merged(g).nodes == LayerGraph(l).nodes + LayerGraph(m).nodes
  {
    ArcsOfTwoLayers(l, m);
    IdsOfTwoLayers(l, m);
    NodesOfTwoLayers(l, m);
  }

  /** If everything is reached from s, the first pass removes nothing. */
  lemma NothingPruned(l: Layer, m: Layer, E: set<Arc>, V: set<Id>, s: Id)
    requires Spans(l, E, V) && Spans(m, E, V) && s in V && forall v | v in V :: Reach(E, s, v)
    ensures var g := Software([l, m]); RemoveDead(g, g, [s]) == g
  {
    OfTwoLayers(l, m);
    assert Arcs(Software([l, m])) == E && Merged(Software([l, m])).nodes == V;
    AllLive(Software([l, m]), s);
  }

  lemma SameDescendants(g: Software, h: Software, E: set<Arc>, F: set<Arc>, V: set<Id>)
    requires Arcs(g) == E && Arcs(h) == F && Merged(g).nodes == V && Merged(h).nodes == V
    requires forall u, v :: Reach(F, u, v) <==> Reach(E, u, v)
    ensures forall u :: Descendants(Merged(g), u) == Descendants(Merged(h), u)
  {
  }

  /** Arcs that are walks already add no reachability. */
  lemma SameReach(E: set<Arc>, F: set<Arc>)
    requires Simulates(F, E, x => x)
    ensures forall u, v :: Reach(F + E, u, v) <==> Reach(E, u, v)
  {
    forall a | a in F + E ensures Reach(E, a.0, a.1) {
      if a in E {
        ReachArc(E, a.0, a.1);
      }
    }
    forall u, v ensures Reach(F + E, u, v) <==> Reach(E, u, v) {
      if Reach(F + E, u, v) {
        ReachSimulated(F + E, E, x => x, u, v);
      }
      if Reach(E, u, v) {
        ReachMonotone(E, F + E, u, v);
      }
    }
  }

  /** Through the second layer every node still reaches what it reached. */
  lemma SameView(l: Layer, m: Layer, E: set<Arc>, V: set<Id>, gone: set<Id>, order: set<Id> -> seq<Id>)
    requires IsListing(order) && LayerArcs(l) == E && LayerArcs(m) == E
    requires NodeIds(l) <= NodeIds(m) && LayerGraph(l).nodes == V && LayerGraph(m).nodes == V
    ensures var g := Software([l, m]); var h := Software([InlineLayer(l, gone, order), m]);
            Declared(h) == Declared(g) && forall u :: Descendants(Merged(g), u) == Descendants(Merged(h), u)
  {
    var k := InlineLayer(l, gone, order);
    OfTwoLayers(l, m);
    OfTwoLayers(k, m);
    InlineLayerIds(l, gone, order);
    InlineNodes(l, gone, order);
    InlineInventsNothing(l, gone, order);
    SameReach(E, LayerArcs(k));
    SameDescendants(Software([l, m]), Software([k, m]), E, LayerArcs(k) + E, V);
  }

  lemma FromTheStart(E: set<Arc>, s: Id, c: Id, d: Id, t: Id)
    requires E == {(s, c), (c, d), (d, t)}
    ensures forall v | v in {s, c, d, t} :: Reach(E, s, v)
  {
    ReachRefl(E, s);
    ReachArc(E, s, c);
    ReachArc(E, c, d);
    ReachTrans(E, s, c, d);
    ChainWalk(E, s, c, d, t);
  }

  lemma IndexOfTwo(l: Layer, m: Layer)
    requires l.tag != m.tag
    ensures var graphs := LayerGraphs([l, m]); l.tag in graphs && graphs[l.tag] == LayerGraph(l)
  {
    var g := Software([l, m]);
    assert g.layers[..2] == g.layers;
    LayerGraphsAt(g, 2, 0);
  }

  /** Only the first layer has nodes to inline. */
  lemma FirstInlined(l: Layer, m: Layer, graphs: map<GraphLayer, DiGraph>, order: set<Id> -> seq<Id>)
    requires forall n | n in m.nodes :: n.sideEffects != []
    ensures InlineTrivial(Software([l, m]), graphs, order) == Software([InlineOne(l, graphs, order), m])
  {
    assert Candidates(m, graphs, DEFAULT_INLINE_THRESHOLD) == {};
    var h := InlineTrivial(Software([l, m]), graphs, order);
    assert h.layers == [h.layers[0], h.layers[1]];
  }

  lemma NothingToSplit(l: Layer, m: Layer)
    requires forall n | n in l.nodes || n in m.nodes :: !NeedsSplit(n)
    ensures PartIdsFresh(Software([l, m]))
  {
    assert AllSplitIds(Software([l, m])) == {};
  }

  /** Well-formed twin layers, all reached from s, with nothing to inline in the second and
      nothing to split. */
  ghost predicate Shadowed(l: Layer, m: Layer, E: set<Arc>, V: set<Id>, s: Id) {
    && l.tag != m.tag && Spans(l, E, V) && Spans(m, E, V)
    && s in V && (forall v | v in V :: Reach(E, s, v))
    && (forall n | n in m.nodes :: n.sideEffects != [])
    && (forall n | n in l.nodes || n in m.nodes :: !NeedsSplit(n))
  }

  /** And the candidates of the first layer chain behind a survivor. */
  ghost predicate HiddenChain(l: Layer, m: Layer, E: set<Arc>, V: set<Id>, s: Id) {
    && Shadowed(l, m, E, V, s)
    && !NoLiveChain(l, Candidates(l, LayerGraphs([l, m]), DEFAULT_INLINE_THRESHOLD))
  }

  lemma PlainInput(l: Layer, m: Layer)
    requires l.tag != m.tag && WellFormedLayer(l) && WellFormedLayer(m)
    requires forall n | n in l.nodes || n in m.nodes :: !NeedsSplit(n)
    ensures var g := Software([l, m]); g.Keyed() && AllWellFormed(g) && PartIdsFresh(g)
  {
    NothingToSplit(l, m);
  }

  lemma HiddenChainAccepted(l: Layer, m: Layer, E: set<Arc>, V: set<Id>, s: Id, order: set<Id> -> seq<Id>)
    requires HiddenChain(l, m, E, V, s) && IsListing(order)
    ensures var g := Software([l, m]); Accepts(g, InlineTrivial(g, LayerGraphs(g.layers), order), [s], order)
  {
    var g := Software([l, m]);
    var gone := Candidates(l, LayerGraphs([l, m]), DEFAULT_INLINE_THRESHOLD);
    SameView(l, m, E, V, gone, order);
    FirstInlined(l, m, LayerGraphs([l, m]), order);
    SameViewAccepted(g, Software([InlineLayer(l, gone, order), m]), [s], order);
  }

  lemma HiddenChainKept(l: Layer, m: Layer, E: set<Arc>, V: set<Id>, s: Id, order: set<Id> -> seq<Id>)
    requires HiddenChain(l, m, E, V, s) && IsListing(order)
    ensures InliningKept(Software([l, m]), [s], order) && !NoLiveChains(Software([l, m]), [s], order)
  {
    var g := Software([l, m]);
    PruningKept(g, [s], order);
    NothingPruned(l, m, E, V, s);
    HiddenChainAccepted(l, m, E, V, s, order);
    assert AfterPruning(g, [s], order).layers[0] == l;
  }

  /** On a hidden chain the gate keeps the inlining, and the run ends with a dangling edge. */
  lemma HiddenChainDangles(l: Layer, m: Layer, E: set<Arc>, V: set<Id>, s: Id, order: set<Id> -> seq<Id>, nx: NetworkX)
    requires HiddenChain(l, m, E, V, s) && IsListing(order) && CycleBreaking.Valid(nx)
    ensures var g := Software([l, m]);
            && g.Keyed() && AllWellFormed(g) && PartIdsFresh(g)
            && InliningKept(g, [s], order) && !AllWellFormed(Optimized(g, [s], order, nx))
  {
    var g := Software([l, m]);
    PlainInput(l, m);
    HiddenChainKept(l, m, E, V, s, order);
    RunKeepsWellFormedExactly(g, [s], order, nx);
  }

  lemma TwofoldNodes(s: Id, c: Id, d: Id, t: Id)
    ensures forall n | n in Chained(s, c, d, t).nodes :: !NeedsSplit(n)
    ensures forall n | n in Shadow(s, c, d, t).nodes :: !NeedsSplit(n) && n.sideEffects != []
  {
  }

  lemma TwofoldShadowed(s: Id, c: Id, d: Id, t: Id)
    requires Distinct([s, c, d, t])
    ensures Shadowed(Chained(s, c, d, t), Shadow(s, c, d, t), {(s, c), (c, d), (d, t)}, {s, c, d, t}, s)
  {
    var l, m := Chained(s, c, d, t), Shadow(s, c, d, t);
    LineFacts(l, s, c, d, t);
    LineFacts(m, s, c, d, t);
    FromTheStart({(s, c), (c, d), (d, t)}, s, c, d, t);
    TwofoldNodes(s, c, d, t);
  }

  lemma LiveChain(s: Id, c: Id, d: Id, t: Id, gone: set<Id>)
    requires Distinct([s, c, d, t]) && c in gone && d in gone && s !in gone
    ensures !NoLiveChain(Chained(s, c, d, t), gone)
  {
    var l := Chained(s, c, d, t);
    ArcsOfThree(l, Call(s, c), Call(c, d), Call(d, t));
    ChainedFirst(l, s, c, d, t);
    assert (s, c) in LayerArcs(l);
  }

  lemma TwofoldChains(s: Id, c: Id, d: Id, t: Id)
    requires Distinct([s, c, d, t])
    ensures var l := Chained(s, c, d, t);
            !NoLiveChain(l, Candidates(l, LayerGraphs([l, Shadow(s, c, d, t)]), DEFAULT_INLINE_THRESHOLD))
  {
    var l, m := Chained(s, c, d, t), Shadow(s, c, d, t);
    IndexOfTwo(l, m);
    ChainedCandidates(LayerGraphs([l, m]), s, c, d, t);
    LiveChain(s, c, d, t, Candidates(l, LayerGraphs([l, m]), DEFAULT_INLINE_THRESHOLD));
  }

  /** So a run on the well-formed chain and its shadow does not end well-formed. */
  lemma RunDangles(s: Id, c: Id, d: Id, t: Id, order: set<Id> -> seq<Id>, nx: NetworkX)
    requires Distinct([s, c, d, t]) && IsListing(order) && CycleBreaking.Valid(nx)
    ensures var g := Software([Chained(s, c, d, t), Shadow(s, c, d, t)]);
            && g.Keyed() && AllWellFormed(g) && PartIdsFresh(g)
            && InliningKept(g, [s], order) && !AllWellFormed(Optimized(g, [s], order, nx))
  {
    TwofoldShadowed(s, c, d, t);
    TwofoldChains(s, c, d, t);
    HiddenChainDangles(Chained(s, c, d, t), Shadow(s, c, d, t), {(s, c), (c, d), (d, t)}, {s, c, d, t}, s, order, nx);
  }

  /** Such runs exist, whatever networkx and the order of sets do within their contracts. */
  lemma SomeRunDangles() returns (g: Software, eps: seq<Id>, order: set<Id> -> seq<Id>, nx: NetworkX)
    ensures IsListing(order) && CycleBreaking.Valid(nx) && g.Keyed() && AllWellFormed(g) && PartIdsFresh(g)
    ensures !AllWellFormed(Optimized(g, eps, order, nx))
  {
    order := SomeListing();
    nx := SomeNetworkX();
    var ids := ["s", "c", "d", "t"];
    assert ids[0][0] != ids[1][0] && ids[0][0] != ids[2][0] && ids[1][0] != ids[2][0] && ids[3][0] !in "scd";
    g, eps := Software([Chained("s", "c", "d", "t"), Shadow("s", "c", "d", "t")]), ["s"];
    RunDangles("s", "c", "d", "t", order, nx);
  }
}
