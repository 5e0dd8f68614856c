/** query.py: the index over a software graph, with its memoised merged view. */
module GraphIndexing {
  import opened Digraph
  import opened Wrappers
  import opened Sgir

  /** Nodes some entry point is or can reach. An entry point outside the graph
      contributes nothing. */
  ghost function Live(g: DiGraph, entryPoints: seq<Id>): set<Id> {
    set ep, v | ep in entryPoints && ep in g.nodes && v in g.nodes && Reach(g.arcs, ep, v) :: v
  }

  function OutDegree(g: DiGraph, u: Id): nat {
    if u in g.nodes then |set a | a in g.arcs && a.0 == u :: a.1| else 0
  }

  function FanOut(graphs: map<GraphLayer, DiGraph>, u: Id, layer: GraphLayer): nat {
    if layer in graphs then OutDegree(graphs[layer], u) else 0
  }

  /** `nx.descendants`, by breadth-first search over the successor lists. */
  method DescendantsOf(g: DiGraph, u: Id) returns (r: set<Id>)
    requires g.WellFormed()
    ensures r == Descendants(g, u)
  {
    if u !in g.nodes {
      return {};
    }
    var adjacency := map w | w in g.nodes :: set a | a in g.arcs && a.0 == w :: a.1;
    assert ArcsOf(adjacency) == g.arcs by {
      forall a | a in g.arcs ensures a in ArcsOf(adjacency) {
        assert a.0 in adjacency && a.1 in adjacency[a.0];
        assert a == (a.0, a.1);
      }
    }
    var component := BfsComponent(u, adjacency);
    forall v | v in component ensures v in g.nodes {
      ReachInNodes(g, u, v);
    }
    r := component - {u};
  }

  lemma LiveAppend(g: DiGraph, eps: seq<Id>, ep: Id)
    ensures Live(g, eps + [ep]) == Live(g, eps) + (if ep in g.nodes then Descendants(g, ep) + {ep} else {})
  {
    ReachRefl(g.arcs, ep);
  }

  lemma LayerGraphsStep(before: map<GraphLayer, DiGraph>, layers: seq<Layer>, i: nat)
    requires i < |layers|
    ensures before + LayerGraphs(layers[..i + 1]) == (before + LayerGraphs(layers[..i]))[layers[i].tag := LayerGraph(layers[i])]
  {
    assert layers[..i + 1][..i] == layers[..i];
  }

  lemma MergedOfNone()
    ensures Merged(Software([])) == DiGraph({}, {})
  {
  }

  lemma MergedNodesStep(layers: seq<Layer>, i: nat)
    requires i < |layers|
    ensures Merged(Software(layers[..i + 1])).nodes == Merged(Software(layers[..i])).nodes + LayerGraph(layers[i]).nodes
  {
    var less, more := layers[..i], layers[..i + 1];
    forall v ensures v in Merged(Software(more)).nodes <==> v in Merged(Software(less)).nodes || v in LayerGraph(layers[i]).nodes {
      if k :| 0 <= k < |less| && v in LayerGraph(less[k]).nodes {
        assert more[k] == less[k];
      }
      if k :| 0 <= k < |more| && v in LayerGraph(more[k]).nodes && k < i {
        assert less[k] == more[k];
      }
      assert more[i] == layers[i];
    }
  }

  lemma MergedArcsStep(layers: seq<Layer>, i: nat)
    requires i < |layers|
    ensures Arcs(Software(layers[..i + 1])) == Arcs(Software(layers[..i])) + LayerArcs(layers[i])
  {
    var less, more := layers[..i], layers[..i + 1];
    forall a ensures a in Arcs(Software(more)) <==> a in Arcs(Software(less)) || a in LayerArcs(layers[i]) {
      if k, e :| 0 <= k < |less| && e in less[k].edges && (e.source, e.target) == a {
        assert more[k] == less[k];
      }
      if k, e :| 0 <= k < |more| && e in more[k].edges && (e.source, e.target) == a && k < i {
        assert less[k] == more[k];
      }
      assert more[i] == layers[i];
    }
  }

  class GraphIndex {
    const sg: Software
    var graphs: map<GraphLayer, DiGraph>
    var mergedCache: Option<DiGraph>

    /** The per-layer graphs are those of the software graph, and a cached merge
        is the merge. */
    ghost predicate Valid()
      reads this
    {
      && sg.Keyed()
      && graphs == LayerGraphs(sg.layers)
      && (mergedCache.Some? ==> mergedCache.value == Merged(sg))
    }

    constructor (softwareGraph: Software)
      requires softwareGraph.Keyed()
      ensures sg == softwareGraph && Valid()
    {
      sg := softwareGraph;
      graphs := map[];
      mergedCache := None;
      new;
      Build();
    }

    /** Indexes every layer and drops the cached merge. */
    method Build()
      requires sg.Keyed() && (graphs == map[] || graphs == LayerGraphs(sg.layers))
      modifies this
      ensures Valid() && mergedCache == None
    {
      for i := 0 to |sg.layers|
        invariant graphs == old(graphs) + LayerGraphs(sg.layers[..i])
      {
        LayerGraphsStep(old(graphs), sg.layers, i);
        graphs := graphs[sg.layers[i].tag := LayerGraph(sg.layers[i])];
      }
      assert sg.layers[..|sg.layers|] == sg.layers;
      mergedCache := None;
    }

    method MergedGraph() returns (merged: DiGraph)
      requires Valid()
      modifies this`mergedCache
      ensures Valid() && merged == Merged(sg) && mergedCache == Some(merged)
    {
      if mergedCache.Some? {
        return mergedCache.value;
      }
      merged := DiGraph({}, {});
      ghost var layers := sg.layers;
      MergedOfNone();
      for i := 0 to |sg.layers|
        invariant Valid() && merged == Merged(Software(layers[..i]))
      {
        var l := sg.layers[i];
        LayerGraphsAt(sg, |sg.layers|, i);
        assert layers[..|layers|] == layers;
        MergedNodesStep(layers, i);
        MergedArcsStep(layers, i);
        merged := DiGraph(merged.nodes + graphs[l.tag].nodes, merged.arcs + graphs[l.tag].arcs);
      }
      assert layers[..|layers|] == layers;
      mergedCache := Some(merged);
    }

    method ReachableFrom(u: Id) returns (r: set<Id>)
      requires Valid()
      modifies this`mergedCache
      ensures Valid() && r == Descendants(Merged(sg), u)
    {
      var g := MergedGraph();
      MergedWellFormed(sg);
      r := DescendantsOf(g, u);
    }

    /** Exactly the merged nodes that no entry point reaches. */
    method FindDeadNodes(entryPoints: seq<Id>) returns (dead: set<Id>)
      requires Valid()
      modifies this`mergedCache
      ensures Valid() && dead == Merged(sg).nodes - Live(Merged(sg), entryPoints)
    {
      var g := MergedGraph();
      MergedWellFormed(sg);
      var reachable := {};
      for i := 0 to |entryPoints|
        invariant Valid() && reachable == Live(g, entryPoints[..i])
      {
        var ep := entryPoints[i];
        assert entryPoints[..i + 1] == entryPoints[..i] + [ep];
        LiveAppend(g, entryPoints[..i], ep);
        if ep in g.nodes {
          var d := DescendantsOf(g, ep);
          reachable := reachable + d + {ep};
        }
      }
      assert entryPoints[..|entryPoints|] == entryPoints;
      dead := g.nodes - reachable;
    }
  }

  /** The live set is closed under the arcs of the graph. */
  lemma LiveClosed(g: DiGraph, eps: seq<Id>)
    requires g.WellFormed()
    ensures Closed(g.arcs, Live(g, eps))
  {
    forall a | a in g.arcs && a.0 in Live(g, eps) ensures a.1 in Live(g, eps) {
      var ep :| ep in eps && ep in g.nodes && Reach(g.arcs, ep, a.0);
      ReachArc(g.arcs, a.0, a.1);
      ReachTrans(g.arcs, ep, a.0, a.1);
    }
  }
}
