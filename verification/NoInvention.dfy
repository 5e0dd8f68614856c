/** No pass invents reachability: renaming split parts back to the node they came
    from, every walk of an output layer is a walk of the same input layer. */
module NoInvention {
  import opened Digraph
  import opened Sgir
  import opened DeadNodes
  import opened Inlining
  import opened Splitting
  import opened CycleBreaking

  /** Ids of all nodes, in any layer, that the complexity pass would split. */
  ghost function AllSplitIds(g: Software): set<Id> {
    set i, n | 0 <= i < |g.layers| && n in g.layers[i].nodes && NeedsSplit(n) :: n.id
  }

  /** Layer by layer, g's arcs are walks of h once ids are renamed by c. */
  ghost predicate LayersSimulate(g: Software, h: Software, c: Id -> Id) {
    && |g.layers| == |h.layers|
    && forall i | 0 <= i < |g.layers| :: Simulates(LayerArcs(g.layers[i]), LayerArcs(h.layers[i]), c)
  }

  /** h's nodes and edge endpoints, layer by layer, are among g's. */
  ghost predicate NoNewNodes(g: Software, h: Software) {
    && |g.layers| == |h.layers|
    && forall i | 0 <= i < |g.layers| ::
         && (forall n | n in h.layers[i].nodes :: n in g.layers[i].nodes)
         && LayerGraph(h.layers[i]).nodes <= LayerGraph(g.layers[i]).nodes
  }

  lemma SimulatesSubset(E: set<Arc>, F: set<Arc>)
    requires E <= F
    ensures Simulates(E, F, x => x)
  {
    forall a | a in E ensures Reach(F, a.0, a.1) {
      ReachArc(F, a.0, a.1);
    }
  }

  lemma SimulatesCompose(E: set<Arc>, F: set<Arc>, G: set<Arc>, c: Id -> Id, d: Id -> Id, cd: Id -> Id)
    requires Simulates(E, F, c) && Simulates(F, G, d)
    requires forall v :: cd(v) == d(c(v))
    ensures Simulates(E, G, cd)
  {
    forall a | a in E ensures Reach(G, cd(a.0), cd(a.1)) {
      ReachSimulated(F, G, d, c(a.0), c(a.1));
    }
  }

  lemma LayersCompose(g: Software, h: Software, k: Software, c: Id -> Id, d: Id -> Id, cd: Id -> Id)
    requires LayersSimulate(g, h, c) && LayersSimulate(h, k, d) && forall v :: cd(v) == d(c(v))
    ensures LayersSimulate(g, k, cd)
  {
    forall i | 0 <= i < |g.layers| ensures Simulates(LayerArcs(g.layers[i]), LayerArcs(k.layers[i]), cd) {
      SimulatesCompose(LayerArcs(g.layers[i]), LayerArcs(h.layers[i]), LayerArcs(k.layers[i]), c, d, cd);
    }
  }

  /** Layer-wise walks are walks of the merged graph. */
  lemma MergedSimulates(g: Software, h: Software, c: Id -> Id)
    requires LayersSimulate(g, h, c)
    ensures Simulates(Arcs(g), Arcs(h), c)
  {
    forall a | a in Arcs(g) ensures Reach(Arcs(h), c(a.0), c(a.1)) {
      var i, e := LayerOfArc(g, a);
      forall b | b in LayerArcs(h.layers[i]) ensures b in Arcs(h) {
        ArcFromLayer(h, i, b);
      }
      ReachMonotone(LayerArcs(h.layers[i]), Arcs(h), c(a.0), c(a.1));
    }
  }

  // ------------------------------------------------------------ pass by pass

  lemma SameLayers(g: Software)
    ensures LayersSimulate(g, g, x => x) && NoNewNodes(g, g)
  {
    forall i | 0 <= i < |g.layers| ensures Simulates(LayerArcs(g.layers[i]), LayerArcs(g.layers[i]), x => x) {
      SimulatesSubset(LayerArcs(g.layers[i]), LayerArcs(g.layers[i]));
    }
  }

  lemma SmallerLayer(l: Layer, m: Layer)
    requires LayerArcs(m) <= LayerArcs(l) && NodeIds(m) <= NodeIds(l)
    ensures LayerGraph(m).nodes <= LayerGraph(l).nodes
  {
    EndpointsOfArcs(l);
    EndpointsOfArcs(m);
  }

  lemma PruneInventsNothing(g: Software, dead: set<Id>)
    ensures LayersSimulate(Prune(g, dead), g, x => x) && NoNewNodes(g, Prune(g, dead))
  {
    var h := Prune(g, dead);
    forall i | 0 <= i < |g.layers|
      ensures Simulates(LayerArcs(h.layers[i]), LayerArcs(g.layers[i]), x => x)
      ensures forall n | n in h.layers[i].nodes :: n in g.layers[i].nodes
      ensures LayerGraph(h.layers[i]).nodes <= LayerGraph(g.layers[i]).nodes
    {
      PruneLayerIds(g.layers[i], dead);
      PruneLayerArcs(g.layers[i], dead);
      SimulatesSubset(LayerArcs(h.layers[i]), LayerArcs(g.layers[i]));
      SmallerLayer(g.layers[i], h.layers[i]);
    }
  }

  lemma CleanInventsNothing(g: Software, nx: NetworkX)
    ensures LayersSimulate(CleanCycles(g, nx), g, x => x)
  {
    var h := CleanCycles(g, nx);
    forall i | 0 <= i < |g.layers| ensures Simulates(LayerArcs(h.layers[i]), LayerArcs(g.layers[i]), x => x) {
      SimulatesSubset(LayerArcs(h.layers[i]), LayerArcs(g.layers[i]));
    }
  }

  lemma InlineNodes(l: Layer, gone: set<Id>, order: set<Id> -> seq<Id>)
    requires IsListing(order)
    ensures LayerGraph(InlineLayer(l, gone, order)).nodes <= LayerGraph(l).nodes
  {
    var m := InlineLayer(l, gone, order);
    InlineLayerIds(l, gone, order);
    EndpointsOfArcs(m);
    EndpointsOfArcs(l);
    LayerGraphWellFormed(l);
    forall a | a in LayerArcs(m) ensures a.0 in LayerGraph(l).nodes && a.1 in LayerGraph(l).nodes {
      InlineLayerArcs(l, gone, order, a);
      if c :| Bypasses(l, gone, c, a) {
        BypassWalk(l, gone, c, a);
        assert (a.0, c) in LayerGraph(l).arcs && (c, a.1) in LayerGraph(l).arcs;
      }
    }
  }

  lemma InlineInventsNothingAnywhere(g: Software, graphs: map<GraphLayer, Digraph.DiGraph>, order: set<Id> -> seq<Id>)
    requires IsListing(order)
    ensures LayersSimulate(InlineTrivial(g, graphs, order), g, x => x) && NoNewNodes(g, InlineTrivial(g, graphs, order))
  {
    var h := InlineTrivial(g, graphs, order);
    forall i | 0 <= i < |g.layers|
      ensures Simulates(LayerArcs(h.layers[i]), LayerArcs(g.layers[i]), x => x)
      ensures forall n | n in h.layers[i].nodes :: n in g.layers[i].nodes
      ensures LayerGraph(h.layers[i]).nodes <= LayerGraph(g.layers[i]).nodes
    {
      var gone := Candidates(g.layers[i], graphs, DEFAULT_INLINE_THRESHOLD);
      InlineInventsNothing(g.layers[i], gone, order);
      InlineNodes(g.layers[i], gone, order);
    }
  }

  lemma ReachOrSelf(E: set<Arc>, u: Id, v: Id)
    requires (u, v) in E || u == v
    ensures Reach(E, u, v)
  {
    if u == v {
      ReachRefl(E, u);
    } else {
      ReachArc(E, u, v);
    }
  }

  /** Splitting, with parts contracted; also when the pass was rolled back. */
  lemma SplitInventsNothing(g: Software, split: set<Id>)
    requires AllSplitIds(g) <= split && forall i | 0 <= i < |g.layers| :: PartsFresh(split, LayerGraph(g.layers[i]).nodes)
    ensures LayersSimulate(ReduceComplexity(g), g, v => Contract(split, v))
    ensures LayersSimulate(g, g, v => Contract(split, v))
  {
    var h := ReduceComplexity(g);
    var c := v => Contract(split, v);
    forall i | 0 <= i < |g.layers|
      ensures Simulates(LayerArcs(h.layers[i]), LayerArcs(g.layers[i]), c)
      ensures Simulates(LayerArcs(g.layers[i]), LayerArcs(g.layers[i]), c)
    {
      var l := g.layers[i];
      assert SplitIds(l.nodes) <= split by {
        forall n | n in l.nodes && NeedsSplit(n) ensures n.id in AllSplitIds(g) {}
      }
      forall a | a in LayerArcs(h.layers[i]) ensures Reach(LayerArcs(l), c(a.0), c(a.1)) {
        SplitLayerArc(l, split, a);
        ReachOrSelf(LayerArcs(l), c(a.0), c(a.1));
      }
      LayerGraphWellFormed(l);
      forall a | a in LayerArcs(l) ensures Reach(LayerArcs(l), c(a.0), c(a.1)) {
        ContractFresh(split, LayerGraph(l).nodes, a.0);
        ContractFresh(split, LayerGraph(l).nodes, a.1);
        ReachOrSelf(LayerArcs(l), a.0, a.1);
      }
    }
  }
}
