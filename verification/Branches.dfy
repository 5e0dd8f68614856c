/** passes.py, `parallelize_independent_branches`. */
module Branches {
  import opened Digraph
  import opened Lists
  import opened Sgir
  import opened GraphIndexing
  import opened CycleBreaking
  import opened Levels

  const MIN_PARALLEL_BRANCH_SIZE := 2

  /** The graph the pass looks at: the indexed one, however old, when the layer is indexed. */
  function BranchGraph(graphs: map<GraphLayer, DiGraph>, l: Layer): DiGraph {
    if l.tag in graphs then graphs[l.tag] else LayerGraph(l)
  }

  ghost predicate IsComponent(g: DiGraph, s: set<Id>) {
    && s != {}
    && forall u, v | u in s :: u in g.nodes && (v in s <==> v in g.nodes && Mutual(g.arcs, u, v))
  }

  /** A level of an acyclic graph or a strongly connected component, with two nodes or more. */
  ghost predicate IsBranch(g: DiGraph, s: set<Id>) {
    && |s| >= 2
    && ((Acyclic(g) && exists k :: s == LevelSet(g, k)) || IsComponent(g, s))
  }

  ghost predicate SomeBranch(graphs: map<GraphLayer, DiGraph>, layers: seq<Layer>, s: set<Id>) {
    exists i :: 0 <= i < |layers| && IsBranch(BranchGraph(graphs, layers[i]), s)
  }

  /** `branches` lists, in sorted form and without repetition, the sets in `seen`. */
  ghost predicate RecordedAs(branches: seq<seq<Id>>, seen: set<set<Id>>, sorted: set<Id> -> seq<Id>) {
    && Distinct(branches)
    && (forall b | b in branches :: b == sorted(Elements(b)) && Elements(b) in seen)
    && (forall s | s in seen :: sorted(s) in branches)
  }

  method Record(s: set<Id>, seen: set<set<Id>>, branches: seq<seq<Id>>, sorted: set<Id> -> seq<Id>)
    returns (seen': set<set<Id>>, branches': seq<seq<Id>>)
    requires IsListing(sorted) && RecordedAs(branches, seen, sorted)
    ensures RecordedAs(branches', seen', sorted)
    ensures seen' == if |s| >= MIN_PARALLEL_BRANCH_SIZE then seen + {s} else seen
  {
    seen', branches' := seen, branches;
    if |s| >= MIN_PARALLEL_BRANCH_SIZE && s !in seen {
      assert Elements(sorted(s)) == s;
      seen' := seen + {s};
      branches' := branches + [sorted(s)];
    }
  }

  method RecordAll(sets: seq<set<Id>>, seen: set<set<Id>>, branches: seq<seq<Id>>, sorted: set<Id> -> seq<Id>)
    returns (seen': set<set<Id>>, branches': seq<seq<Id>>)
    requires IsListing(sorted) && RecordedAs(branches, seen, sorted)
    ensures RecordedAs(branches', seen', sorted)
    ensures forall s :: s in seen' <==> s in seen || (s in sets && |s| >= MIN_PARALLEL_BRANCH_SIZE)
  {
    seen', branches' := seen, branches;
    for i := 0 to |sets|
      invariant RecordedAs(branches', seen', sorted)
      invariant forall s :: s in seen' <==> s in seen || (s in sets[..i] && |s| >= MIN_PARALLEL_BRANCH_SIZE)
    {
      assert sets[..i + 1] == sets[..i] + [sets[i]];
      seen', branches' := Record(sets[i], seen', branches', sorted);
    }
    assert sets[..|sets|] == sets;
  }

  lemma LevelsComplete(g: DiGraph, levels: seq<set<Id>>)
    requires g.WellFormed() && Acyclic(g) && LevelSet(g, |levels|) == {}
    requires forall k | 0 <= k < |levels| :: levels[k] == LevelSet(g, k) && levels[k] != {}
    ensures forall s | s != {} :: s in levels <==> exists k :: s == LevelSet(g, k)
  {
    forall s, k: nat | s != {} && s == LevelSet(g, k) ensures s in levels {
      var v :| v in s;
      var m := LevelOf(g, |levels|, v);
      if m < k { LevelsDisjoint(g, m, k); }
      if k < m { LevelsDisjoint(g, k, m); }
      assert levels[m] == s;
    }
  }

  lemma ComponentsComplete(g: DiGraph, comps: seq<set<Id>>)
    requires g.WellFormed() && IsComponentList(g, comps)
    ensures forall s | s != {} :: s in comps <==> IsComponent(g, s)
  {
    forall s | s != {} && s in comps ensures IsComponent(g, s) {
      var i :| 0 <= i < |comps| && comps[i] == s;
    }
    forall s | IsComponent(g, s) ensures s in comps {
      var u :| u in s;
      var i :| 0 <= i < |comps| && u in comps[i];
      assert forall v :: v in comps[i] <==> v in g.nodes && Mutual(g.arcs, u, v);
      assert s == comps[i];
    }
  }

  method BranchesOfGraph(g: DiGraph, nx: NetworkX, seen: set<set<Id>>, branches: seq<seq<Id>>, sorted: set<Id> -> seq<Id>)
    returns (seen': set<set<Id>>, branches': seq<seq<Id>>)
    requires g.WellFormed() && Valid(nx) && IsListing(sorted) && RecordedAs(branches, seen, sorted)
    ensures RecordedAs(branches', seen', sorted)
    ensures forall s :: s in seen' <==> s in seen || IsBranch(g, s)
  {
    seen', branches' := seen, branches;
    if nx.isAcyclic(g) {
      var levels := ParallelLevels(g);
      LevelsComplete(g, levels);
      seen', branches' := RecordAll(levels, seen', branches', sorted);
    }
    ComponentsComplete(g, nx.components(g));
    seen', branches' := RecordAll(nx.components(g), seen', branches', sorted);
  }

  /** `seen` holds the branches of the layers. */
  ghost predicate Seen(seen: set<set<Id>>, graphs: map<GraphLayer, DiGraph>, layers: seq<Layer>) {
    forall s :: s in seen <==> SomeBranch(graphs, layers, s)
  }

  lemma SomeBranchSnoc(graphs: map<GraphLayer, DiGraph>, layers: seq<Layer>, l: Layer, s: set<Id>)
    ensures SomeBranch(graphs, layers + [l], s) <==> SomeBranch(graphs, layers, s) || IsBranch(BranchGraph(graphs, l), s)
  {
    if i :| 0 <= i < |layers| && IsBranch(BranchGraph(graphs, layers[i]), s) {
      assert (layers + [l])[i] == layers[i];
    }
    if IsBranch(BranchGraph(graphs, l), s) {
      assert (layers + [l])[|layers|] == l;
    }
  }

  lemma {:induction false} IndexedGraphsWellFormed(layers: seq<Layer>, tag: GraphLayer)
    ensures tag in LayerGraphs(layers) ==> LayerGraphs(layers)[tag].WellFormed()
    decreases |layers|
  {
    if layers != [] {
      IndexedGraphsWellFormed(layers[..|layers| - 1], tag);
      LayerGraphWellFormed(layers[|layers| - 1]);
    }
  }

  lemma BranchGraphWellFormed(sg: Software, graphs: map<GraphLayer, DiGraph>, l: Layer)
    requires graphs == LayerGraphs(sg.layers)
    ensures BranchGraph(graphs, l).WellFormed()
  {
    LayerGraphWellFormed(l);
    IndexedGraphsWellFormed(sg.layers, l.tag);
  }

  method BranchesOfLayer(l: Layer, ghost before: seq<Layer>, ghost sg: Software, graphs: map<GraphLayer, DiGraph>, nx: NetworkX,
                         seen: set<set<Id>>, branches: seq<seq<Id>>, sorted: set<Id> -> seq<Id>)
    returns (seen': set<set<Id>>, branches': seq<seq<Id>>)
    requires graphs == LayerGraphs(sg.layers) && Valid(nx) && IsListing(sorted)
    requires RecordedAs(branches, seen, sorted) && Seen(seen, graphs, before)
    ensures RecordedAs(branches', seen', sorted) && Seen(seen', graphs, before + [l])
  {
    BranchGraphWellFormed(sg, graphs, l);
    seen', branches' := BranchesOfGraph(BranchGraph(graphs, l), nx, seen, branches, sorted);
    forall s ensures s in seen' <==> SomeBranch(graphs, before + [l], s) {
      SomeBranchSnoc(graphs, before, l, s);
    }
  }

  lemma RecordedExactly(branches: seq<seq<Id>>, seen: set<set<Id>>, sorted: set<Id> -> seq<Id>)
    requires RecordedAs(branches, seen, sorted) && IsListing(sorted)
    ensures forall s :: sorted(s) in branches <==> s in seen
  {
    forall s ensures sorted(s) in branches <==> s in seen {
      assert Elements(sorted(s)) == s;
    }
  }

  method ParallelizeIndependentBranches(graph: Software, index: GraphIndex, nx: NetworkX, sorted: set<Id> -> seq<Id>)
    returns (deduped: seq<seq<Id>>)
    requires index.Valid() && Valid(nx) && IsListing(sorted)
    ensures Distinct(deduped) && forall b | b in deduped :: b == sorted(Elements(b))
    ensures forall s :: sorted(s) in deduped <==> SomeBranch(index.graphs, graph.layers, s)
  {
    var seen: set<set<Id>> := {};
    deduped := [];
    for i := 0 to |graph.layers|
      invariant RecordedAs(deduped, seen, sorted) && Seen(seen, index.graphs, graph.layers[..i])
    {
      assert graph.layers[..i + 1] == graph.layers[..i] + [graph.layers[i]];
      seen, deduped := BranchesOfLayer(graph.layers[i], graph.layers[..i], index.sg, index.graphs, nx, seen, deduped, sorted);
    }
    assert graph.layers[..|graph.layers|] == graph.layers;
    RecordedExactly(deduped, seen, sorted);
  }

  lemma TwoOf(s: set<Id>) returns (u: Id, v: Id)
    requires |s| >= 2
    ensures u in s && v in s && u != v
  {
    u :| u in s;
    v := Another(s, u);
  }

  /** A branch is a set of pairwise independent nodes exactly if its graph is acyclic. */
  lemma BranchIndependentExactly(g: DiGraph, s: set<Id>)
    requires g.WellFormed() && IsBranch(g, s)
    ensures Antichain(g.arcs, s) <==> Acyclic(g)
  {
    if k :| s == LevelSet(g, k) {
      LevelIsAntichain(g, k);
    }
    if IsComponent(g, s) {
      var u, v := TwoOf(s);
      assert Mutual(g.arcs, u, v);
      var c := CycleThroughTwo(g.arcs, u, v);
    }
  }
}
