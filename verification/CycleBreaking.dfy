/** passes.py, `clean_dependency_cycles` and `select_cycle_break_edge`. */
module CycleBreaking {
  import opened Digraph
  import opened Lists
  import opened Wrappers
  import opened Sgir

  const MIN_CYCLE_SCC_SIZE := 2

  /** The three networkx searches the passes call. */
  datatype NetworkX = NetworkX(components: DiGraph -> seq<set<Id>>,
                               simpleCycles: DiGraph -> seq<seq<Id>>,
                               isAcyclic: DiGraph -> bool)

  function Rotate(c: seq<Id>, k: nat): seq<Id>
    requires k <= |c|
  {
    c[k..] + c[..k]
  }

  /** The classes of mutual reachability. */
  ghost predicate IsComponentList(g: DiGraph, cs: seq<set<Id>>) {
    && (forall u | u in g.nodes :: exists i :: 0 <= i < |cs| && u in cs[i])
    && (forall i, u, v | 0 <= i < |cs| && u in cs[i] ::
          u in g.nodes && (v in cs[i] <==> v in g.nodes && Mutual(g.arcs, u, v)))
  }

  ghost predicate HasRotation(cs: seq<seq<Id>>, c: seq<Id>) {
    exists k :: 0 <= k < |c| && Rotate(c, k) in cs
  }

  /** Simple cycles only, and every one up to rotation. Self-loops are simple cycles. */
  ghost predicate IsCycleList(g: DiGraph, cs: seq<seq<Id>>) {
    && (forall c | c in cs :: SimpleCycle(g.arcs, c))
    && (forall c {:trigger HasRotation(cs, c)} | SimpleCycle(g.arcs, c) :: HasRotation(cs, c))
  }

  ghost predicate Valid(nx: NetworkX) {
    forall g: DiGraph | g.WellFormed() ::
      && IsComponentList(g, nx.components(g))
      && IsCycleList(g, nx.simpleCycles(g))
      && (nx.isAcyclic(g) <==> Acyclic(g))
  }

  function Subgraph(g: DiGraph, s: set<Id>): DiGraph {
    DiGraph(g.nodes * s, set a | a in g.arcs && a.0 in s && a.1 in s)
  }

  // ------------------------------------------------------ choosing an edge

  /** `node_map`: of two nodes with one id the later wins. */
  function FindNode(nodes: seq<Node>, id: Id): (r: Option<Node>)
    ensures r.Some? ==> r.value in nodes && r.value.id == id
    ensures r.None? ==> forall n | n in nodes :: n.id != id
  {
    if nodes == [] then None
    else if nodes[|nodes| - 1].id == id then Some(nodes[|nodes| - 1])
    else FindNode(nodes[..|nodes| - 1], id)
  }

  function RankOf(l: Layer, id: Id): Option<nat> {
    match FindNode(l.nodes, id)
    case Some(n) => Some(n.complexity.Rank())
    case None => None
  }

  function Ranks(c: seq<Id>, l: Layer): seq<Option<nat>> {
    seq(|c|, i requires 0 <= i < |c| => RankOf(l, c[i]))
  }

  /** k is the first position holding a greatest rank. */
  ghost predicate FirstWorst(ranks: seq<Option<nat>>, k: nat) {
    && k < |ranks| && ranks[k].Some?
    && forall j | 0 <= j < |ranks| && ranks[j].Some? ::
         ranks[j].value <= ranks[k].value && (j < k ==> ranks[j].value < ranks[k].value)
  }

  function Worst(ranks: seq<Option<nat>>): (r: Option<nat>)
    ensures r.None? <==> forall j | 0 <= j < |ranks| :: ranks[j].None?
    ensures r.Some? ==> FirstWorst(ranks, r.value)
  {
    if ranks == [] then None
    else
      var n := |ranks| - 1;
      var before := Worst(ranks[..n]);
      if ranks[n].Some? && (before.None? || ranks[n].value > ranks[before.value].value) then Some(n) else before
  }

  function CycleArc(c: seq<Id>, k: nat): Arc
    requires k < |c|
  {
    (c[k], c[(k + 1) % |c|])
  }

  /** The arc the pass removes from cycle c, if any node of c is declared. */
  function BreakArc(c: seq<Id>, l: Layer): Option<Arc> {
    match Worst(Ranks(c, l))
    case Some(k) => Some(CycleArc(c, k))
    case None => None
  }

  // ----------------------------------------- the choice, in terms of nodes

  /** n is the node of the id; of two nodes with one id the later counts. */
  ghost predicate Stands(nodes: seq<Node>, id: Id, n: Node) {
    n.id == id && exists i :: 0 <= i < |nodes| && nodes[i] == n && forall j | i < j < |nodes| :: nodes[j].id != id
  }

  lemma StandsBefore(nodes: seq<Node>, last: Node, id: Id, n: Node)
    requires last.id != id
    ensures Stands(nodes + [last], id, n) <==> Stands(nodes, id, n)
  {
    var more := nodes + [last];
    if i :| 0 <= i < |nodes| && nodes[i] == n && forall j | i < j < |nodes| :: nodes[j].id != id {
      assert more[i] == n;
    }
    if i :| 0 <= i < |more| && more[i] == n && n.id == id && forall j | i < j < |more| :: more[j].id != id {
      assert nodes[i] == n;
      forall j | i < j < |nodes| ensures nodes[j].id != id {
        assert more[j] == nodes[j];
      }
    }
  }

  lemma StandsLast(nodes: seq<Node>, last: Node, n: Node)
    ensures Stands(nodes + [last], last.id, n) <==> n == last
  {
    var more := nodes + [last];
    assert more[|nodes|] == last;
  }

  lemma {:induction false} FindNodeStands(nodes: seq<Node>, id: Id, n: Node)
    ensures FindNode(nodes, id) == Some(n) <==> Stands(nodes, id, n)
    decreases |nodes|
  {
    if nodes != [] {
      var k := |nodes| - 1;
      assert nodes == nodes[..k] + [nodes[k]];
      if nodes[k].id == id {
        StandsLast(nodes[..k], nodes[k], n);
      } else {
        FindNodeStands(nodes[..k], id, n);
        StandsBefore(nodes[..k], nodes[k], id, n);
      }
    }
  }

  /** On well-formed layers that is the node with the id. */
  lemma StandsUnique(l: Layer, id: Id, n: Node)
    requires UniqueIds(l)
    ensures Stands(l.nodes, id, n) <==> n in l.nodes && n.id == id
  {
    if n in l.nodes && n.id == id {
      var i :| 0 <= i < |l.nodes| && l.nodes[i] == n;
      assert forall j | i < j < |l.nodes| :: l.nodes[j].id != id;
    }
  }

  /** No node on the cycle is more complex than n at position k, and none before it is as complex. */
  ghost predicate Dearest(nodes: seq<Node>, c: seq<Id>, k: nat, n: Node) {
    forall j, m | 0 <= j < |c| && Stands(nodes, c[j], m) ::
      m.complexity.Rank() <= n.complexity.Rank() && (j < k ==> m.complexity.Rank() < n.complexity.Rank())
  }

  /** Position k holds the first node of greatest complexity among the declared ones. */
  ghost predicate DearestAt(nodes: seq<Node>, c: seq<Id>, k: nat) {
    k < |c| && exists n :: Stands(nodes, c[k], n) && Dearest(nodes, c, k, n)
  }

  lemma RankStands(l: Layer, id: Id, n: Node)
    requires Stands(l.nodes, id, n)
    ensures RankOf(l, id) == Some(n.complexity.Rank())
  {
    FindNodeStands(l.nodes, id, n);
  }

  lemma RankedStands(l: Layer, id: Id) returns (n: Node)
    requires RankOf(l, id).Some?
    ensures Stands(l.nodes, id, n) && RankOf(l, id) == Some(n.complexity.Rank())
  {
    n := FindNode(l.nodes, id).value;
    FindNodeStands(l.nodes, id, n);
  }

  lemma FirstWorstIsDearest(l: Layer, c: seq<Id>, k: nat)
    requires FirstWorst(Ranks(c, l), k)
    ensures DearestAt(l.nodes, c, k)
  {
    var ranks := Ranks(c, l);
    var n := RankedStands(l, c[k]);
    forall j, m | 0 <= j < |c| && Stands(l.nodes, c[j], m)
      ensures m.complexity.Rank() <= n.complexity.Rank() && (j < k ==> m.complexity.Rank() < n.complexity.Rank())
    {
      RankStands(l, c[j], m);
      assert ranks[j] == Some(m.complexity.Rank());
    }
  }

  lemma DearestIsFirstWorst(l: Layer, c: seq<Id>, k: nat)
    requires DearestAt(l.nodes, c, k)
    ensures FirstWorst(Ranks(c, l), k)
  {
    var ranks := Ranks(c, l);
    var n :| Stands(l.nodes, c[k], n) && Dearest(l.nodes, c, k, n);
    RankStands(l, c[k], n);
    forall j | 0 <= j < |ranks| && ranks[j].Some?
      ensures ranks[j].value <= ranks[k].value && (j < k ==> ranks[j].value < ranks[k].value)
    {
      var m := RankedStands(l, c[j]);
    }
  }

  /** Nothing is chosen for a cycle exactly if none of its nodes is declared. */
  lemma NoBreakArc(c: seq<Id>, l: Layer)
    ensures BreakArc(c, l).None? <==> forall v | v in c :: v !in NodeIds(l)
  {
    var ranks := Ranks(c, l);
    forall v ensures RankOf(l, v).None? <==> v !in NodeIds(l) {
    }
    if forall j | 0 <= j < |ranks| :: ranks[j].None? {
      forall v | v in c ensures v !in NodeIds(l) {
        var j :| 0 <= j < |c| && c[j] == v;
        assert ranks[j].None?;
      }
    }
  }

  lemma WorstIs(ranks: seq<Option<nat>>, k: nat)
    requires FirstWorst(ranks, k)
    ensures Worst(ranks) == Some(k)
  {
    assert ranks[k].Some?;
    var w := Worst(ranks).value;
    assert ranks[w].Some? && ranks[k].value == ranks[w].value;
  }

  lemma DearestIsWorst(l: Layer, c: seq<Id>, k: nat)
    requires DearestAt(l.nodes, c, k)
    ensures Worst(Ranks(c, l)) == Some(k)
  {
    DearestIsFirstWorst(l, c, k);
    WorstIs(Ranks(c, l), k);
  }

  lemma BreakArcAt(c: seq<Id>, l: Layer, k: nat)
    requires k < |c| && Worst(Ranks(c, l)) == Some(k)
    ensures BreakArc(c, l) == Some((c[k], c[(k + 1) % |c|]))
  {
  }

  /** The chosen arc leaves the first node of greatest complexity. */
  lemma BreakArcDearest(c: seq<Id>, l: Layer, k: nat)
    requires DearestAt(l.nodes, c, k)
    ensures BreakArc(c, l) == Some((c[k], c[(k + 1) % |c|]))
  {
    DearestIsWorst(l, c, k);
    BreakArcAt(c, l, k);
  }

  lemma SomeDearest(c: seq<Id>, l: Layer) returns (k: nat)
    requires BreakArc(c, l).Some?
    ensures DearestAt(l.nodes, c, k)
  {
    k := Worst(Ranks(c, l)).value;
    FirstWorstIsDearest(l, c, k);
  }

  lemma WorstStep(ranks: seq<Option<nat>>, i: nat)
    requires i < |ranks|
    ensures var before := Worst(ranks[..i]);
            Worst(ranks[..i + 1]) == if ranks[i].Some? && (before.None? || ranks[i].value > ranks[before.value].value)
                                     then Some(i) else before
  {
    assert ranks[..i + 1][..i] == ranks[..i];
  }

  method SelectCycleBreakEdge(cycle: seq<Id>, l: Layer) returns (worst: Option<Arc>)
    ensures worst == BreakArc(cycle, l)
    ensures worst.None? <==> forall v | v in cycle :: v !in NodeIds(l)
    ensures worst.Some? ==> exists k: nat :: DearestAt(l.nodes, cycle, k) && worst.value == (cycle[k], cycle[(k + 1) % |cycle|])
  {
    worst := None;
    var worstComplexity: int := -1;
    ghost var ranks := Ranks(cycle, l);
    ghost var at: Option<nat> := None;
    for i := 0 to |cycle|
      invariant at == Worst(ranks[..i])
      invariant at.None? ==> worst == None && worstComplexity == -1
      invariant at.Some? ==> worst == Some(CycleArc(cycle, at.value)) && worstComplexity == ranks[at.value].value
    {
      WorstStep(ranks, i);
      var source, target := cycle[i], cycle[(i + 1) % |cycle|];
      var node := FindNode(l.nodes, source);
      if node.None? {
        continue;
      }
      var complexity := node.value.complexity.Rank();
      if complexity > worstComplexity {
        worstComplexity := complexity;
        worst := Some((source, target));
        at := Some(i);
      }
    }
    assert ranks[..|cycle|] == ranks;
    NoBreakArc(cycle, l);
    if worst.Some? {
      ghost var k := SomeDearest(cycle, l);
      BreakArcDearest(cycle, l, k);
    }
  }

  // ------------------------------------------------------------- the pass

  function Chosen(c: seq<Id>, l: Layer): set<Arc> {
    match BreakArc(c, l)
    case Some(a) => {a}
    case None => {}
  }

  function BreakArcs(cycles: seq<seq<Id>>, l: Layer): set<Arc> {
    if cycles == [] then {}
    else BreakArcs(cycles[..|cycles| - 1], l) + Chosen(cycles[|cycles| - 1], l)
  }

  /** The arcs removed from one component. */
  function BreaksIn(g: DiGraph, s: set<Id>, l: Layer, nx: NetworkX): set<Arc> {
    if |s| < MIN_CYCLE_SCC_SIZE then {} else BreakArcs(nx.simpleCycles(Subgraph(g, s)), l)
  }

  function ComponentBreaks(g: DiGraph, comps: seq<set<Id>>, l: Layer, nx: NetworkX): set<Arc> {
    if comps == [] then {}
    else
      var s := comps[|comps| - 1];
      ComponentBreaks(g, comps[..|comps| - 1], l, nx) + BreaksIn(g, s, l, nx)
  }

  function RemovedArcs(l: Layer, nx: NetworkX): set<Arc> {
    ComponentBreaks(LayerGraph(l), nx.components(LayerGraph(l)), l, nx)
  }

  function KeptEdge(removed: set<Arc>): Edge -> bool {
    (e: Edge) => (e.source, e.target) !in removed
  }

  function CleanLayer(l: Layer, nx: NetworkX): Layer {
    Layer(l.tag, l.nodes, Filter(KeptEdge(RemovedArcs(l, nx)), l.edges))
  }

  function CleanCycles(g: Software, nx: NetworkX): Software {
    Software(seq(|g.layers|, i requires 0 <= i < |g.layers| => CleanLayer(g.layers[i], nx)))
  }

  method FindEdgesToRemove(l: Layer, nx: NetworkX) returns (removed: set<Arc>)
    ensures removed == RemovedArcs(l, nx)
  {
    var g := LayerGraph(l);
    var comps := nx.components(g);
    removed := {};
    for i := 0 to |comps|
      invariant removed == ComponentBreaks(g, comps[..i], l, nx)
    {
      assert comps[..i + 1][..i] == comps[..i];
      if |comps[i]| < MIN_CYCLE_SCC_SIZE {
        continue;
      }
      var cycles := nx.simpleCycles(Subgraph(g, comps[i]));
      for j := 0 to |cycles|
        invariant removed == ComponentBreaks(g, comps[..i], l, nx) + BreakArcs(cycles[..j], l)
      {
        assert cycles[..j + 1][..j] == cycles[..j];
        var worst := SelectCycleBreakEdge(cycles[j], l);
        if worst.Some? {
          removed := removed + {worst.value};
        }
      }
      assert cycles[..|cycles|] == cycles;
    }
    assert comps[..|comps|] == comps;
  }

  // ------------------------------------------------- which arcs are removed

  lemma {:induction false} InBreakArcs(cycles: seq<seq<Id>>, l: Layer, a: Arc)
    ensures a in BreakArcs(cycles, l) <==> exists c :: c in cycles && BreakArc(c, l) == Some(a)
  {
    if cycles != [] {
      var n := |cycles| - 1;
      assert cycles == cycles[..n] + [cycles[n]];
      InBreakArcs(cycles[..n], l, a);
      if BreakArc(cycles[n], l) == Some(a) {
        assert cycles[n] in cycles;
      }
    }
  }

  /** a is the arc chosen for cycle c of the component s. */
  ghost predicate BreaksCycle(g: DiGraph, s: set<Id>, c: seq<Id>, l: Layer, nx: NetworkX, a: Arc) {
    |s| >= MIN_CYCLE_SCC_SIZE && c in nx.simpleCycles(Subgraph(g, s)) && BreakArc(c, l) == Some(a)
  }

  lemma {:induction false} InSomeComponent(g: DiGraph, comps: seq<set<Id>>, l: Layer, nx: NetworkX, a: Arc)
    ensures a in ComponentBreaks(g, comps, l, nx) <==> exists s :: s in comps && a in BreaksIn(g, s, l, nx)
  {
    if comps != [] {
      var n := |comps| - 1;
      assert comps == comps[..n] + [comps[n]];
      InSomeComponent(g, comps[..n], l, nx, a);
      if a in BreaksIn(g, comps[n], l, nx) {
        assert comps[n] in comps;
      }
    }
  }

  lemma BreakOrigin(g: DiGraph, comps: seq<set<Id>>, l: Layer, nx: NetworkX, a: Arc) returns (s: set<Id>, c: seq<Id>)
    requires a in ComponentBreaks(g, comps, l, nx)
    ensures s in comps && BreaksCycle(g, s, c, l, nx, a)
  {
    InSomeComponent(g, comps, l, nx, a);
    s :| s in comps && a in BreaksIn(g, s, l, nx);
    var cycles := nx.simpleCycles(Subgraph(g, s));
    InBreakArcs(cycles, l, a);
    c :| c in cycles && BreakArc(c, l) == Some(a);
  }

  lemma BreakIncluded(g: DiGraph, comps: seq<set<Id>>, l: Layer, nx: NetworkX, a: Arc, s: set<Id>, c: seq<Id>)
    requires s in comps && BreaksCycle(g, s, c, l, nx, a)
    ensures a in ComponentBreaks(g, comps, l, nx)
  {
    InBreakArcs(nx.simpleCycles(Subgraph(g, s)), l, a);
    InSomeComponent(g, comps, l, nx, a);
  }

  // ------------------------------------------ the pass, in terms of nodes

  /** Some cycle of a component of two or more nodes is broken at a: a leaves the first of its
      nodes of greatest complexity. */
  ghost predicate Cut(l: Layer, nx: NetworkX, a: Arc) {
    exists s, c, k: nat ::
      && s in nx.components(LayerGraph(l)) && |s| >= 2 && c in nx.simpleCycles(Subgraph(LayerGraph(l), s))
      && DearestAt(l.nodes, c, k) && a == (c[k], c[(k + 1) % |c|])
  }

  ghost function Uncut(l: Layer, nx: NetworkX): Edge -> bool {
    (e: Edge) => !Cut(l, nx, (e.source, e.target))
  }

  /** Nodes stay, and edges stay in order unless they are cut. */
  ghost predicate CleansExactly(l: Layer, m: Layer, nx: NetworkX) {
    m.tag == l.tag && m.nodes == l.nodes && m.edges == Filter(Uncut(l, nx), l.edges)
  }

  lemma RemovedIsCut(l: Layer, nx: NetworkX, a: Arc)
    ensures a in RemovedArcs(l, nx) <==> Cut(l, nx, a)
  {
    var g := LayerGraph(l);
    if a in RemovedArcs(l, nx) {
      var s, c := BreakOrigin(g, nx.components(g), l, nx, a);
      var k := SomeDearest(c, l);
      BreakArcDearest(c, l, k);
    }
    if Cut(l, nx, a) {
      var s, c, k: nat :|
        && s in nx.components(g) && |s| >= 2 && c in nx.simpleCycles(Subgraph(g, s))
        && DearestAt(l.nodes, c, k) && a == (c[k], c[(k + 1) % |c|]);
      BreakArcDearest(c, l, k);
      BreakIncluded(g, nx.components(g), l, nx, a, s, c);
    }
  }

  lemma CleanLayerExactly(l: Layer, nx: NetworkX)
    ensures CleansExactly(l, CleanLayer(l, nx), nx)
  {
    forall e | e in l.edges ensures KeptEdge(RemovedArcs(l, nx))(e) == Uncut(l, nx)(e) {
      RemovedIsCut(l, nx, (e.source, e.target));
    }
    FilterCongruent(KeptEdge(RemovedArcs(l, nx)), Uncut(l, nx), l.edges);
  }

  lemma CleanCyclesExactly(g: Software, nx: NetworkX)
    ensures forall i | 0 <= i < |g.layers| :: CleansExactly(g.layers[i], CleanCycles(g, nx).layers[i], nx)
  {
    forall i | 0 <= i < |g.layers| ensures CleansExactly(g.layers[i], CleanCycles(g, nx).layers[i], nx) {
      CleanLayerExactly(g.layers[i], nx);
    }
  }

  method CleanDependencyCycles(graph: Software, nx: NetworkX) returns (working: Software)
    ensures working == CleanCycles(graph, nx) && |working.layers| == |graph.layers|
    ensures forall i | 0 <= i < |graph.layers| :: CleansExactly(graph.layers[i], working.layers[i], nx)
  {
    CleanCyclesExactly(graph, nx);
    working := graph;
    for i := 0 to |graph.layers|
      invariant |working.layers| == |graph.layers|
      invariant forall k | 0 <= k < i :: working.layers[k] == CleanLayer(graph.layers[k], nx)
      invariant forall k | i <= k < |graph.layers| :: working.layers[k] == graph.layers[k]
    {
      var layer := working.layers[i];
      var removed := FindEdgesToRemove(layer, nx);
      var surviving := Filter(KeptEdge(removed), layer.edges);
      working := Software(working.layers[i := Layer(layer.tag, layer.nodes, surviving)]);
    }
  }

  // ------------------------------------------------------ cycles, rotated

  lemma {:induction false} RotateCycle(E: set<Arc>, c: seq<Id>, k: nat)
    requires SimpleCycle(E, c) && k < |c|
    ensures SimpleCycle(E, Rotate(c, k))
  {
    if k == 0 {
      assert Rotate(c, 0) == c;
    } else {
      var r := Rotate(c, k - 1);
      RotateCycle(E, c, k - 1);
      assert Rotate(c, k) == r[1..] + [r[0]];
      PathAppend(E, r[1..], r[0]);
    }
  }

  lemma CycleArcInGraph(E: set<Arc>, c: seq<Id>, k: nat)
    requires SimpleCycle(E, c) && k < |c|
    ensures CycleArc(c, k) in E
  {
    PathNode(E, c, k);
    if k + 1 < |c| {
      assert (k + 1) % |c| == k + 1;
    } else {
      assert (k + 1) % |c| == 0;
    }
  }

  lemma {:induction false} PathInSubgraph(g: DiGraph, s: set<Id>, p: seq<Id>)
    requires IsPath(g.arcs, p) && forall v | v in p :: v in s
    ensures IsPath(Subgraph(g, s).arcs, p)
    decreases |p|
  {
    if |p| > 1 {
      assert p[0] in p && p[1] in p;
      forall v | v in p[1..] ensures v in p {}
      PathInSubgraph(g, s, p[1..]);
    }
  }

  /** A cycle inside s has a listed rotation among the cycles of the subgraph on s. */
  lemma ListedRotation(g: DiGraph, nx: NetworkX, s: set<Id>, c: seq<Id>) returns (k: nat)
    requires Valid(nx) && g.WellFormed() && SimpleCycle(g.arcs, c) && forall v | v in c :: v in s
    ensures k < |c| && Rotate(c, k) in nx.simpleCycles(Subgraph(g, s))
  {
    PathInSubgraph(g, s, c);
    assert c[|c| - 1] in c && c[0] in c;
    var sub := Subgraph(g, s);
    assert SimpleCycle(sub.arcs, c);
    assert HasRotation(nx.simpleCycles(sub), c);
    k :| 0 <= k < |c| && Rotate(c, k) in nx.simpleCycles(sub);
  }

  /** The arc chosen for that rotation is removed when s is a component of two or more nodes. */
  lemma CycleGetsBroken(l: Layer, nx: NetworkX, s: set<Id>, c: seq<Id>) returns (k: nat)
    requires Valid(nx) && SimpleCycle(LayerArcs(l), c) && forall v | v in c :: v in s
    requires s in nx.components(LayerGraph(l)) && |s| >= MIN_CYCLE_SCC_SIZE
    ensures k < |c|
    ensures var r := Rotate(c, k); BreakArc(r, l).Some? ==> BreakArc(r, l).value in RemovedArcs(l, nx)
  {
    var g := LayerGraph(l);
    LayerGraphWellFormed(l);
    k := ListedRotation(g, nx, s, c);
    var r := Rotate(c, k);
    if BreakArc(r, l).Some? {
      BreakIncluded(g, nx.components(g), l, nx, BreakArc(r, l).value, s, r);
    }
  }

  lemma ComponentOfCycle(g: DiGraph, comps: seq<set<Id>>, c: seq<Id>) returns (i: nat)
    requires g.WellFormed() && IsComponentList(g, comps) && SimpleCycle(g.arcs, c)
    ensures i < |comps| && forall v | v in c :: v in comps[i]
  {
    var a := CycleArc(c, 0);
    CycleArcInGraph(g.arcs, c, 0);
    assert c[0] in g.nodes;
    i :| 0 <= i < |comps| && c[0] in comps[i];
    forall v | v in c ensures v in comps[i] {
      var j :| 0 <= j < |c| && c[j] == v;
      CycleMutual(g.arcs, c, 0, j);
      ReachInNodes(g, c[0], v);
    }
  }

  // ------------------------------------------------------------- theorems

  ghost predicate NoMutualPair(E: set<Arc>) {
    forall u, v | u != v :: !Mutual(E, u, v)
  }

  ghost predicate EveryCycleDeclared(l: Layer) {
    forall c | SimpleCycle(LayerArcs(l), c) && |c| >= 2 :: exists v :: v in c && v in NodeIds(l)
  }

  lemma {:induction false} PathMonotone(E: set<Arc>, F: set<Arc>, p: seq<Id>)
    requires IsPath(E, p) && forall i {:trigger p[i]} | 0 <= i < |p| - 1 :: (p[i], p[i + 1]) in F
    ensures IsPath(F, p)
    decreases |p|
  {
    if |p| > 1 {
      assert (p[0], p[0 + 1]) in F;
      forall i {:trigger p[1..][i]} | 0 <= i < |p[1..]| - 1 ensures (p[1..][i], p[1..][i + 1]) in F {
        assert (p[i + 1], p[i + 1 + 1]) in F;
      }
      PathMonotone(E, F, p[1..]);
    }
  }

  lemma CycleMonotone(E: set<Arc>, F: set<Arc>, c: seq<Id>)
    requires SimpleCycle(E, c) && forall a | a in E && a.0 in c :: a in F
    ensures SimpleCycle(F, c)
  {
    forall i {:trigger c[i]} | 0 <= i < |c| - 1 ensures (c[i], c[i + 1]) in F {
      PathNode(E, c, i);
    }
    PathMonotone(E, F, c);
  }

  lemma TwoMembers(s: set<Id>, u: Id, v: Id)
    requires u in s && v in s && u != v
    ensures |s| >= 2
  {
    assert {u, v} <= s && |{u, v}| == 2;
    assert s == {u, v} + (s - {u, v});
  }

  lemma SurvivingCycleUndeclared(l: Layer, nx: NetworkX, c: seq<Id>)
    requires Valid(nx) && SimpleCycle(LayerArcs(CleanLayer(l, nx)), c) && |c| >= 2
    ensures SimpleCycle(LayerArcs(l), c) && forall v | v in c :: v !in NodeIds(l)
  {
    var E := LayerArcs(CleanLayer(l, nx));
    CycleMonotone(E, LayerArcs(l), c);
    var g := LayerGraph(l);
    LayerGraphWellFormed(l);
    var i := ComponentOfCycle(g, nx.components(g), c);
    TwoMembers(nx.components(g)[i], c[0], c[1]);
    var k := CycleGetsBroken(l, nx, nx.components(g)[i], c);
    var r := Rotate(c, k);
    RotateCycle(E, c, k);
    NoBreakArc(r, l);
    if BreakArc(r, l).Some? {
      CycleArcInGraph(E, r, Worst(Ranks(r, l)).value);
    }
    forall v | v in c ensures v !in NodeIds(l) {
    }
  }

  /** Only arcs that leave a declared node are ever removed. */
  lemma RemovedArcDeclared(l: Layer, nx: NetworkX, a: Arc) returns (s: set<Id>, c: seq<Id>, k: nat)
    requires Valid(nx) && a in RemovedArcs(l, nx)
    ensures a.0 in NodeIds(l)
    ensures s in nx.components(LayerGraph(l)) && |s| >= 2
    ensures SimpleCycle(Subgraph(LayerGraph(l), s).arcs, c) && k < |c| && a == CycleArc(c, k)
  {
    var g := LayerGraph(l);
    LayerGraphWellFormed(l);
    s, c := BreakOrigin(g, nx.components(g), l, nx, a);
    var sub := Subgraph(g, s);
    assert IsCycleList(sub, nx.simpleCycles(sub));
    k := Worst(Ranks(c, l)).value;
    assert RankOf(l, c[k]).Some?;
  }

  lemma UndeclaredCycleSurvives(l: Layer, nx: NetworkX, c: seq<Id>)
    requires Valid(nx) && SimpleCycle(LayerArcs(l), c) && forall v | v in c :: v !in NodeIds(l)
    ensures SimpleCycle(LayerArcs(CleanLayer(l, nx)), c)
  {
    forall a | a in LayerArcs(l) && a.0 in c ensures a in LayerArcs(CleanLayer(l, nx)) {
      if a in RemovedArcs(l, nx) {
        var s, d, k := RemovedArcDeclared(l, nx, a);
      }
    }
    CycleMonotone(LayerArcs(l), LayerArcs(CleanLayer(l, nx)), c);
  }

  /** Cycle breaking works exactly when every cycle of two or more nodes has a declared node:
      then, and only then, no two nodes of the output reach each other. */
  lemma CyclesBroken(l: Layer, nx: NetworkX)
    requires Valid(nx)
    ensures NoMutualPair(LayerArcs(CleanLayer(l, nx))) <==> EveryCycleDeclared(l)
  {
    if EveryCycleDeclared(l) {
      forall u, v | u != v ensures !Mutual(LayerArcs(CleanLayer(l, nx)), u, v) {
        if Mutual(LayerArcs(CleanLayer(l, nx)), u, v) {
          var c := CycleThroughTwo(LayerArcs(CleanLayer(l, nx)), u, v);
          SurvivingCycleUndeclared(l, nx, c);
        }
      }
    }
    if !EveryCycleDeclared(l) {
      var c :| SimpleCycle(LayerArcs(l), c) && |c| >= 2 && forall v | v in c :: v !in NodeIds(l);
      UndeclaredCycleSurvives(l, nx, c);
      CycleMutual(LayerArcs(CleanLayer(l, nx)), c, 0, 1);
      assert c[0] != c[1];
    }
  }

  /** On layers without dangling edges the output never has a cycle of two or more nodes. */
  lemma CyclesBrokenWhenDeclared(l: Layer, nx: NetworkX)
    requires Valid(nx) && NoDangling(l)
    ensures NoMutualPair(LayerArcs(CleanLayer(l, nx)))
    ensures NoDangling(CleanLayer(l, nx)) && (UniqueIds(l) ==> UniqueIds(CleanLayer(l, nx)))
  {
    forall c | SimpleCycle(LayerArcs(l), c) && |c| >= 2 ensures exists v :: v in c && v in NodeIds(l) {
      CycleArcInGraph(LayerArcs(l), c, 0);
      var e :| e in l.edges && CycleArc(c, 0) == (e.source, e.target);
      assert c[0] in c && c[0] in NodeIds(l);
    }
    CyclesBroken(l, nx);
  }

  lemma MutualInSubgraph(g: DiGraph, s: set<Id>, u: Id, v: Id)
    requires Mutual(Subgraph(g, s).arcs, u, v)
    ensures Mutual(g.arcs, u, v)
  {
    ReachMonotone(Subgraph(g, s).arcs, g.arcs, u, v);
    ReachMonotone(Subgraph(g, s).arcs, g.arcs, v, u);
  }

  ghost predicate InLargeComponent(l: Layer, u: Id) {
    exists w :: w != u && Mutual(LayerArcs(l), u, w)
  }

  lemma LargeComponent(l: Layer, nx: NetworkX, s: set<Id>, u: Id)
    requires Valid(nx) && s in nx.components(LayerGraph(l)) && u in s
    ensures InLargeComponent(l, u) <==> |s| >= 2
  {
    var g := LayerGraph(l);
    LayerGraphWellFormed(l);
    var comps := nx.components(g);
    var i :| 0 <= i < |comps| && comps[i] == s;
    if |s| >= 2 {
      var w := Another(s, u);
      assert Mutual(LayerArcs(l), u, w);
    }
    if w :| w != u && Mutual(LayerArcs(l), u, w) {
      ReachInNodes(g, u, w);
      TwoMembers(s, u, w);
    }
  }

  /** Every removed edge lay on a cycle of the input, inside a component of two or more nodes:
      edges between different components all survive. */
  lemma RemovedOnCycle(l: Layer, nx: NetworkX, a: Arc)
    requires Valid(nx) && a in LayerArcs(l) - LayerArcs(CleanLayer(l, nx))
    ensures Mutual(LayerArcs(l), a.0, a.1) && InLargeComponent(l, a.0)
  {
    var s, c, k := RemovedArcDeclared(l, nx, a);
    var g := LayerGraph(l);
    CycleMutual(Subgraph(g, s).arcs, c, k, (k + 1) % |c|);
    MutualInSubgraph(g, s, a.0, a.1);
    CycleArcInGraph(Subgraph(g, s).arcs, c, k);
    LargeComponent(l, nx, s, a.0);
  }

  lemma SelfLoopBroken(l: Layer, nx: NetworkX, v: Id)
    requires Valid(nx) && (v, v) in LayerArcs(l) && v in NodeIds(l) && InLargeComponent(l, v)
    ensures (v, v) in RemovedArcs(l, nx)
  {
    var g := LayerGraph(l);
    LayerGraphWellFormed(l);
    var c := [v];
    assert SimpleCycle(LayerArcs(l), c) && Distinct(c);
    var i := ComponentOfCycle(g, nx.components(g), c);
    assert v in c;
    LargeComponent(l, nx, nx.components(g)[i], v);
    var k := CycleGetsBroken(l, nx, nx.components(g)[i], c);
    assert Rotate(c, k) == c;
    NoBreakArc(c, l);
  }

  /** A self-loop is removed exactly if its node is declared and lies on a longer cycle too. */
  lemma SelfLoopRemoved(l: Layer, nx: NetworkX, v: Id)
    requires Valid(nx) && (v, v) in LayerArcs(l)
    ensures (v, v) !in LayerArcs(CleanLayer(l, nx)) <==> v in NodeIds(l) && InLargeComponent(l, v)
  {
    if (v, v) in RemovedArcs(l, nx) {
      RemovedOnCycle(l, nx, (v, v));
      var s, c, k := RemovedArcDeclared(l, nx, (v, v));
    }
    if v in NodeIds(l) && InLargeComponent(l, v) {
      SelfLoopBroken(l, nx, v);
    }
  }
}
