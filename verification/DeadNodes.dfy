/** passes.py, `remove_dead_nodes`. */
module DeadNodes {
  import opened Digraph
  import opened Lists
  import opened Sgir
  import opened GraphIndexing

  ghost function Dead(g: Software, entryPoints: seq<Id>): set<Id> {
    Merged(g).nodes - Live(Merged(g), entryPoints)
  }

  function NodeOutside(gone: set<Id>): Node -> bool {
    (n: Node) => n.id !in gone
  }

  function EdgeOutside(gone: set<Id>): Edge -> bool {
    (e: Edge) => e.source !in gone && e.target !in gone
  }

  function PruneLayer(l: Layer, dead: set<Id>): Layer {
    var gone := dead * NodeIds(l);
    if gone == {} then l else
      Layer(l.tag,
            Filter(NodeOutside(gone), l.nodes),
            Filter(EdgeOutside(gone), l.edges))
  }

  function Prune(g: Software, dead: set<Id>): Software {
    Software(seq(|g.layers|, i requires 0 <= i < |g.layers| => PruneLayer(g.layers[i], dead)))
  }

  /** The graph after dead-code removal, with dead nodes taken from `indexed`. */
  ghost function RemoveDead(g: Software, indexed: Software, entryPoints: seq<Id>): Software {
    Prune(g, Dead(indexed, entryPoints))
  }

  // ------------------------------------------ the pass, in terms of nodes

  /** Some known entry point is v or leads to it. */
  ghost predicate Alive(g: Software, entryPoints: seq<Id>, v: Id) {
    exists ep :: ep in entryPoints && ep in Merged(g).nodes && Reach(Arcs(g), ep, v)
  }

  /** Ids the index does not know are left alone. */
  ghost function NodeLives(indexed: Software, entryPoints: seq<Id>): Node -> bool {
    (n: Node) => n.id in Merged(indexed).nodes ==> Alive(indexed, entryPoints, n.id)
  }

  /** An edge goes with an end that the layer declares and that is dead. */
  ghost function EdgeLives(l: Layer, indexed: Software, entryPoints: seq<Id>): Edge -> bool {
    (e: Edge) => forall n | n in l.nodes && (n.id == e.source || n.id == e.target) :: NodeLives(indexed, entryPoints)(n)
  }

  /** Live nodes and the edges between them stay, in order and unchanged. */
  ghost predicate PrunesExactly(l: Layer, m: Layer, indexed: Software, entryPoints: seq<Id>) {
    && m.tag == l.tag
    && m.nodes == Filter(NodeLives(indexed, entryPoints), l.nodes)
    && m.edges == Filter(EdgeLives(l, indexed, entryPoints), l.edges)
  }

  lemma DeadMeans(indexed: Software, entryPoints: seq<Id>, v: Id)
    ensures v in Dead(indexed, entryPoints) <==> v in Merged(indexed).nodes && !Alive(indexed, entryPoints, v)
  {
  }

  lemma PruneLayerExactly(l: Layer, indexed: Software, entryPoints: seq<Id>)
    ensures PrunesExactly(l, PruneLayer(l, Dead(indexed, entryPoints)), indexed, entryPoints)
  {
    var dead := Dead(indexed, entryPoints);
    var gone := dead * NodeIds(l);
    var lives := NodeLives(indexed, entryPoints);
    forall n | n in l.nodes ensures NodeOutside(gone)(n) == lives(n) {
      DeadMeans(indexed, entryPoints, n.id);
      assert n.id in NodeIds(l);
    }
    forall e | e in l.edges ensures EdgeOutside(gone)(e) == EdgeLives(l, indexed, entryPoints)(e) {
      forall v ensures v in gone <==> exists n :: n in l.nodes && n.id == v && !lives(n) {
        DeadMeans(indexed, entryPoints, v);
      }
    }
    FilterCongruent(NodeOutside(gone), lives, l.nodes);
    FilterCongruent(EdgeOutside(gone), EdgeLives(l, indexed, entryPoints), l.edges);
    if gone == {} {
      FilterAll(NodeOutside(gone), l.nodes);
      FilterAll(EdgeOutside(gone), l.edges);
    }
  }

  lemma RemoveDeadExactly(g: Software, indexed: Software, entryPoints: seq<Id>)
    ensures forall i | 0 <= i < |g.layers| ::
              PrunesExactly(g.layers[i], RemoveDead(g, indexed, entryPoints).layers[i], indexed, entryPoints)
  {
    forall i | 0 <= i < |g.layers|
      ensures PrunesExactly(g.layers[i], RemoveDead(g, indexed, entryPoints).layers[i], indexed, entryPoints)
    {
      PruneLayerExactly(g.layers[i], indexed, entryPoints);
    }
  }

  method PruneOne(layer: Layer, dead: set<Id>) returns (kept: Layer)
    ensures kept == PruneLayer(layer, dead)
  {
    var deadInLayer := dead * NodeIds(layer);
    if deadInLayer == {} {
      return layer;
    }
    var survivingNodes := Filter(NodeOutside(deadInLayer), layer.nodes);
    var survivingEdges := Filter(EdgeOutside(deadInLayer), layer.edges);
    kept := Layer(layer.tag, survivingNodes, survivingEdges);
  }

  method RemoveDeadNodes(graph: Software, index: GraphIndex, entryPoints: seq<Id>) returns (working: Software)
    requires index.Valid()
    modifies index`mergedCache
    ensures index.Valid() && working == RemoveDead(graph, index.sg, entryPoints) && |working.layers| == |graph.layers|
    ensures forall i | 0 <= i < |graph.layers| :: PrunesExactly(graph.layers[i], working.layers[i], index.sg, entryPoints)
  {
    RemoveDeadExactly(graph, index.sg, entryPoints);
    working := graph;
    var dead := index.FindDeadNodes(entryPoints);
    for i := 0 to |graph.layers|
      invariant index.Valid() && |working.layers| == |graph.layers|
      invariant forall k | 0 <= k < i :: working.layers[k] == PruneLayer(graph.layers[k], dead)
      invariant forall k | i <= k < |graph.layers| :: working.layers[k] == graph.layers[k]
    {
      var kept := PruneOne(working.layers[i], dead);
      working := Software(working.layers[i := kept]);
    }
  }

  // ------------------------------------------------------------ one layer

  lemma PruneLayerIds(l: Layer, dead: set<Id>)
    ensures NodeIds(PruneLayer(l, dead)) == NodeIds(l) - dead
    ensures PruneLayer(l, dead).tag == l.tag
  {
    var m := PruneLayer(l, dead);
    forall v | v in NodeIds(l) - dead ensures v in NodeIds(m) {
      var n :| n in l.nodes && n.id == v;
      assert n in m.nodes;
    }
    forall v | v in NodeIds(m) ensures v in NodeIds(l) - dead {
      var n :| n in m.nodes && n.id == v;
      assert n in l.nodes && v in NodeIds(l);
      assert v in dead ==> v in dead * NodeIds(l);
    }
  }

  lemma PruneLayerArcs(l: Layer, dead: set<Id>)
    ensures var gone := dead * NodeIds(l);
            LayerArcs(PruneLayer(l, dead)) == set a | a in LayerArcs(l) && a.0 !in gone && a.1 !in gone
  {
    var m := PruneLayer(l, dead);
    var gone := dead * NodeIds(l);
    forall a | a in LayerArcs(l) && a.0 !in gone && a.1 !in gone ensures a in LayerArcs(m) {
      var e :| e in l.edges && a == (e.source, e.target);
      assert e in m.edges;
    }
    forall a | a in LayerArcs(m) ensures a in LayerArcs(l) && a.0 !in gone && a.1 !in gone {
      var e :| e in m.edges && a == (e.source, e.target);
      assert e in l.edges;
    }
  }

  lemma {:induction false} FilterUnique(keep: Node -> bool, l: Layer)
    requires UniqueIds(l)
    ensures UniqueIds(l.(nodes := Filter(keep, l.nodes)))
    decreases |l.nodes|
  {
    if l.nodes != [] {
      var rest := l.(nodes := l.nodes[1..]);
      FilterUnique(keep, rest);
      forall n | n in Filter(keep, rest.nodes) ensures n.id != l.nodes[0].id {
        var j :| 0 <= j < |rest.nodes| && rest.nodes[j] == n;
        assert n == l.nodes[j + 1];
      }
    }
  }

  /** Pruning keeps a layer well-formed, whatever it removes. */
  lemma PruneKeepsWellFormed(l: Layer, dead: set<Id>)
    requires WellFormedLayer(l)
    ensures WellFormedLayer(PruneLayer(l, dead))
  {
    var gone := dead * NodeIds(l);
    if gone != {} {
      FilterUnique(NodeOutside(gone), l);
    }
    PruneLayerIds(l, dead);
    var m := PruneLayer(l, dead);
    forall e | e in m.edges ensures e.source in NodeIds(m) && e.target in NodeIds(m) {
      assert e in l.edges;
    }
  }

  // ------------------------------------------------------------ all layers

  lemma PruneDeclared(g: Software, dead: set<Id>)
    ensures Declared(Prune(g, dead)) == Declared(g) - dead
  {
    var h := Prune(g, dead);
    forall v | v in Declared(g) - dead ensures v in Declared(h) {
      var i := LayerOfId(g, v);
      PruneLayerIds(g.layers[i], dead);
      assert v in NodeIds(h.layers[i]);
    }
    forall v | v in Declared(h) ensures v in Declared(g) - dead {
      var i := LayerOfId(h, v);
      PruneLayerIds(g.layers[i], dead);
      assert v in NodeIds(g.layers[i]);
    }
  }

  /** Arcs only disappear, and none whose two ends are alive. */
  lemma PruneArcs(g: Software, dead: set<Id>)
    ensures Arcs(Prune(g, dead)) <= Arcs(g)
    ensures forall a | a in Arcs(g) && a.0 !in dead && a.1 !in dead :: a in Arcs(Prune(g, dead))
  {
    var h := Prune(g, dead);
    forall a | a in Arcs(h) ensures a in Arcs(g) {
      var i, e := LayerOfArc(h, a);
      PruneLayerArcs(g.layers[i], dead);
      ArcFromLayer(g, i, a);
    }
    forall a | a in Arcs(g) && a.0 !in dead && a.1 !in dead ensures a in Arcs(h) {
      var i, e := LayerOfArc(g, a);
      PruneLayerArcs(g.layers[i], dead);
      ArcFromLayer(h, i, a);
    }
  }

  lemma LiveArcsKept(g: Software, eps: seq<Id>)
    ensures Closed(Arcs(g), Live(Merged(g), eps))
    ensures forall a | a in Arcs(g) && a.0 in Live(Merged(g), eps) :: a in Arcs(RemoveDead(g, g, eps))
  {
    MergedWellFormed(g);
    LiveClosed(Merged(g), eps);
    PruneArcs(g, Dead(g, eps));
  }

  lemma EndpointsOfArcs(l: Layer)
    ensures forall v :: v in LayerGraph(l).nodes <==>
      v in NodeIds(l) || exists a :: a in LayerArcs(l) && (a.0 == v || a.1 == v)
  {
    forall v | v in LayerGraph(l).nodes && v !in NodeIds(l)
      ensures exists a :: a in LayerArcs(l) && (a.0 == v || a.1 == v)
    {
      var e :| e in l.edges && (e.source == v || e.target == v);
      assert (e.source, e.target) in LayerArcs(l);
    }
    LayerGraphWellFormed(l);
  }

  lemma MergedShrinks(g: Software, dead: set<Id>)
    ensures Merged(Prune(g, dead)).nodes <= Merged(g).nodes
  {
    var h := Prune(g, dead);
    forall v | v in Merged(h).nodes ensures v in Merged(g).nodes {
      var i :| 0 <= i < |h.layers| && v in LayerGraph(h.layers[i]).nodes;
      PruneLayerIds(g.layers[i], dead);
      PruneLayerArcs(g.layers[i], dead);
      EndpointsOfArcs(h.layers[i]);
      EndpointsOfArcs(g.layers[i]);
      LayerGraphWellFormed(g.layers[i]);
      assert v in LayerGraph(g.layers[i]).nodes;
    }
  }

  lemma LiveKeepsDescendants(g: Software, eps: seq<Id>, u: Id)
    requires u in Live(Merged(g), eps)
    ensures Descendants(Merged(RemoveDead(g, g, eps)), u) == Descendants(Merged(g), u)
  {
    var h := RemoveDead(g, g, eps);
    LiveArcsKept(g, eps);
    PruneArcs(g, Dead(g, eps));
    MergedShrinks(g, Dead(g, eps));
    MergedWellFormed(h);
    forall v | v in Descendants(Merged(g), u) ensures v in Descendants(Merged(h), u) {
      ReachWithin(Arcs(g), Arcs(h), Live(Merged(g), eps), u, v);
      var w := ReachFirst(Arcs(h), u, v);
      assert (u, w) in Merged(h).arcs;
      ReachInNodes(Merged(h), u, v);
    }
    forall v | v in Descendants(Merged(h), u) ensures v in Descendants(Merged(g), u) {
      ReachMonotone(Arcs(h), Arcs(g), u, v);
    }
  }

  /** Dead-node removal is exact: what stays declared is what was declared and
      live, and a live node keeps exactly its descendants. */
  lemma DeadRemovalExact(g: Software, eps: seq<Id>)
    ensures var h := RemoveDead(g, g, eps); var live := Live(Merged(g), eps);
            && Declared(h) == Declared(g) * live
            && (forall u | u in live :: Descendants(Merged(h), u) == Descendants(Merged(g), u))
  {
    var h := RemoveDead(g, g, eps);
    var live := Live(Merged(g), eps);
    MergedWellFormed(g);
    PruneDeclared(g, Dead(g, eps));
    forall u | u in live ensures Descendants(Merged(h), u) == Descendants(Merged(g), u) {
      LiveKeepsDescendants(g, eps, u);
    }
  }

  /** After dead-node removal every declared id is live. */
  lemma NothingDeadLeft(g: Software, eps: seq<Id>)
    ensures var h := RemoveDead(g, g, eps); Declared(h) <= Live(Merged(h), eps)
  {
    var h := RemoveDead(g, g, eps);
    DeadRemovalExact(g, eps);
    MergedWellFormed(h);
    forall v | v in Declared(h) ensures v in Live(Merged(h), eps) {
      var ep :| ep in eps && ep in Merged(g).nodes && Reach(Arcs(g), ep, v);
      LiveArcsKept(g, eps);
      ReachRefl(Arcs(g), ep);
      ReachWithin(Arcs(g), Arcs(h), Live(Merged(g), eps), ep, v);
      if ep != v {
        var w := ReachFirst(Arcs(h), ep, v);
        assert (ep, w) in Merged(h).arcs;
      }
    }
  }

  /** Every surviving node keeps exactly its successors within each layer. */
  lemma SuccessorsKept(g: Software, eps: seq<Id>, i: nat, u: Id)
    requires i < |g.layers| && u in NodeIds(RemoveDead(g, g, eps).layers[i])
    ensures forall a: Arc | a.0 == u :: a in LayerArcs(RemoveDead(g, g, eps).layers[i]) <==> a in LayerArcs(g.layers[i])
  {
    var dead := Dead(g, eps);
    PruneLayerIds(g.layers[i], dead);
    PruneLayerArcs(g.layers[i], dead);
    MergedWellFormed(g);
    assert u in Declared(g);
    LiveClosed(Merged(g), eps);
    forall a | a in LayerArcs(g.layers[i]) && a.0 == u ensures a.1 !in dead {
      ArcFromLayer(g, i, a);
    }
  }

  lemma OutDegreeFromSuccessors(g: DiGraph, h: DiGraph, u: Id)
    requires u in g.nodes && u in h.nodes
    requires forall a: Arc | a.0 == u :: a in g.arcs <==> a in h.arcs
    ensures OutDegree(g, u) == OutDegree(h, u)
  {
    assert (set a | a in g.arcs && a.0 == u :: a.1) == (set a | a in h.arcs && a.0 == u :: a.1);
  }

  lemma FanOutAt(g: Software, i: nat, u: Id)
    requires i < |g.layers| && g.Keyed()
    ensures FanOut(LayerGraphs(g.layers), u, g.layers[i].tag) == OutDegree(LayerGraph(g.layers[i]), u)
  {
    LayerGraphsAt(g, |g.layers|, i);
    assert g.layers[..|g.layers|] == g.layers;
  }

  lemma PruneKeyed(g: Software, dead: set<Id>)
    requires g.Keyed()
    ensures Prune(g, dead).Keyed()
  {
    var h := Prune(g, dead);
    forall i | 0 <= i < |g.layers| ensures h.layers[i].tag == g.layers[i].tag {
      PruneLayerIds(g.layers[i], dead);
    }
  }

  /** The index built before dead-node removal still answers for every survivor:
      per layer, the same successors and fan-out as an index rebuilt afterwards. */
  lemma StaleIndexExact(g: Software, eps: seq<Id>, i: nat, u: Id)
    requires i < |g.layers| && g.Keyed()
    requires u in NodeIds(RemoveDead(g, g, eps).layers[i])
    ensures var h := RemoveDead(g, g, eps); var tag := g.layers[i].tag;
            && Successors(LayerArcs(h.layers[i]), u) == Successors(LayerArcs(g.layers[i]), u)
            && FanOut(LayerGraphs(g.layers), u, tag) == FanOut(LayerGraphs(h.layers), u, tag)
  {
    var h := RemoveDead(g, g, eps);
    SuccessorsKept(g, eps, i, u);
    PruneLayerIds(g.layers[i], Dead(g, eps));
    OutDegreeFromSuccessors(LayerGraph(g.layers[i]), LayerGraph(h.layers[i]), u);
    PruneKeyed(g, Dead(g, eps));
    FanOutAt(g, i, u);
    FanOutAt(h, i, u);
  }

  /** If everything is reached from s, nothing is removed. */
  lemma AllLive(g: Software, s: Id)
    requires s in Merged(g).nodes && forall v | v in Merged(g).nodes :: Reach(Arcs(g), s, v)
    ensures RemoveDead(g, g, [s]) == g
  {
    assert s in [s];
    forall v | v in Merged(g).nodes ensures v in Live(Merged(g), [s]) {
    }
    assert Dead(g, [s]) == {};
    assert RemoveDead(g, g, [s]).layers == g.layers;
  }
}
