/** passes.py, `parallel_levels`: the level of a node is the length of the longest
    path that ends at it. */
module Levels {
  import opened Digraph
  import opened Lists

  /** Some path of k arcs ends at v. */
  ghost predicate LongPath(g: DiGraph, v: Id, k: nat)
    decreases k
  {
    if k == 0 then v in g.nodes else exists u :: (u, v) in g.arcs && LongPath(g, u, k - 1)
  }

  /** Nodes whose longest incoming path has exactly k arcs. */
  ghost function LevelSet(g: DiGraph, k: nat): set<Id> {
    set v | v in g.nodes && LongPath(g, v, k) && !LongPath(g, v, k + 1)
  }

  ghost predicate Antichain(E: set<Arc>, s: set<Id>) {
    forall u, v | u in s && v in s && u != v :: !Reach(E, u, v)
  }

  function Predecessors(g: DiGraph, v: Id): set<Id> {
    set a | a in g.arcs && a.1 == v :: a.0
  }

  // ------------------------------------------------------------ the method

  /** Successors of the level that are new and have every predecessor settled. */
  ghost function Frontier(g: DiGraph, level: set<Id>, settled: set<Id>): set<Id> {
    set u, s | u in level && s in Successors(g.arcs, u) && s !in settled && Predecessors(g, s) <= settled :: s
  }

  method NextLevel(g: DiGraph, level: set<Id>, settled: set<Id>) returns (next: set<Id>)
    ensures next == Frontier(g, level, settled)
  {
    next := {};
    var todo := level;
    while todo != {}
      invariant todo <= level && next == Frontier(g, level - todo, settled)
      decreases todo
    {
      var node :| node in todo;
      todo := todo - {node};
      var successors := Successors(g.arcs, node);
      ghost var base := next;
      while successors != {}
        invariant successors <= Successors(g.arcs, node)
        invariant next == base + set s | s in Successors(g.arcs, node) - successors && s !in settled && Predecessors(g, s) <= settled
        decreases successors
      {
        var successor :| successor in successors;
        successors := successors - {successor};
        if successor !in settled && Predecessors(g, successor) <= settled {
          next := next + {successor};
        }
      }
    }
    assert level - todo == level;
  }

  /** Nodes of the levels before level k. */
  ghost function Early(g: DiGraph, k: nat): set<Id> {
    set v | v in g.nodes && !LongPath(g, v, k)
  }

  lemma LevelUnsettled(g: DiGraph, k: nat)
    ensures LevelSet(g, k) <= g.nodes - Early(g, k)
  {
  }

  lemma RootsAreLevelZero(g: DiGraph)
    requires g.WellFormed()
    ensures Early(g, 0) == {}
    ensures LevelSet(g, 0) == set v | v in g.nodes && Predecessors(g, v) == {}
  {
    forall v | v in g.nodes ensures LongPath(g, v, 1) <==> Predecessors(g, v) != {} {
      if u :| (u, v) in g.arcs && LongPath(g, u, 0) {
        assert (u, v).0 in Predecessors(g, v);
      }
      if u :| u in Predecessors(g, v) {
        assert (u, v) in g.arcs && LongPath(g, u, 0);
      }
    }
  }

  lemma {:induction false} LongPathShorter(g: DiGraph, v: Id, k: nat)
    requires g.WellFormed() && LongPath(g, v, k + 1)
    ensures LongPath(g, v, k) && v in g.nodes
    decreases k
  {
    var u :| (u, v) in g.arcs && LongPath(g, u, k);
    if k > 0 {
      LongPathShorter(g, u, k - 1);
    }
  }

  lemma EarlyNext(g: DiGraph, i: nat)
    requires g.WellFormed()
    ensures Early(g, i) + LevelSet(g, i) == Early(g, i + 1)
  {
    forall v | v in g.nodes && LongPath(g, v, i + 1) ensures LongPath(g, v, i) {
      LongPathShorter(g, v, i);
    }
  }

  lemma EarlyPredecessors(g: DiGraph, k: nat, s: Id)
    requires g.WellFormed()
    ensures Predecessors(g, s) <= Early(g, k) <==> !LongPath(g, s, k + 1)
  {
    forall u ensures u in Predecessors(g, s) <==> (u, s) in g.arcs {
      assert (u, s) in g.arcs ==> (u, s).0 in Predecessors(g, s);
    }
    if u :| (u, s) in g.arcs && LongPath(g, u, k) {
      assert u in Predecessors(g, s) && u !in Early(g, k);
    }
  }

  lemma FrontierMember(g: DiGraph, i: nat, s: Id)
    requires g.WellFormed()
    ensures s in Frontier(g, LevelSet(g, i), Early(g, i + 1)) <==> s in LevelSet(g, i + 1)
  {
    EarlyPredecessors(g, i + 1, s);
    if s in LevelSet(g, i + 1) {
      var u :| (u, s) in g.arcs && LongPath(g, u, i);
      assert (u, s).0 in Predecessors(g, s) && (u, s).1 in Successors(g.arcs, u);
      assert u in LevelSet(g, i);
    }
  }

  /** One round of the loop advances both the settled set and the level. */
  lemma LevelStep(g: DiGraph, i: nat)
    requires g.WellFormed()
    ensures Early(g, i) + LevelSet(g, i) == Early(g, i + 1)
    ensures Frontier(g, LevelSet(g, i), Early(g, i + 1)) == LevelSet(g, i + 1)
  {
    EarlyNext(g, i);
    var next, level := Frontier(g, LevelSet(g, i), Early(g, i + 1)), LevelSet(g, i + 1);
    forall s ensures s in next <==> s in level {
      FrontierMember(g, i, s);
    }
  }

  /** The levels are, in order, the sets of nodes with longest incoming path 0, 1, 2, ...,
      up to the first such set that is empty. */
  method ParallelLevels(g: DiGraph) returns (levels: seq<set<Id>>)
    requires g.WellFormed()
    ensures forall k | 0 <= k < |levels| :: levels[k] == LevelSet(g, k) && levels[k] != {}
    ensures LevelSet(g, |levels|) == {}
  {
    levels := [];
    var settled := {};
    var current := set v | v in g.nodes && Predecessors(g, v) == {};
    RootsAreLevelZero(g);
    while current != {}
      invariant forall k | 0 <= k < |levels| :: levels[k] == LevelSet(g, k) && levels[k] != {}
      invariant current == LevelSet(g, |levels|)
      invariant settled == Early(g, |levels|)
      decreases g.nodes - settled
    {
      LevelStep(g, |levels|);
      LevelUnsettled(g, |levels|);
      levels := levels + [current];
      settled := settled + current;
      current := NextLevel(g, current, settled);
    }
  }

  // -------------------------------------------------- levels of a DAG are exact

  lemma {:induction false} PathIsLong(g: DiGraph, p: seq<Id>, k: nat)
    requires g.WellFormed() && IsPath(g.arcs, p) && LongPath(g, p[0], k)
    ensures LongPath(g, p[|p| - 1], k + |p| - 1)
    decreases |p|
  {
    if |p| > 1 {
      PathIsLong(g, p[1..], k + 1);
    }
  }

  lemma {:induction false} LongPathIsPath(g: DiGraph, v: Id, k: nat) returns (p: seq<Id>)
    requires g.WellFormed() && LongPath(g, v, k)
    ensures IsPath(g.arcs, p) && |p| == k + 1 && p[k] == v && forall w | w in p :: w in g.nodes
    decreases k
  {
    if k == 0 {
      p := [v];
    } else {
      var u :| (u, v) in g.arcs && LongPath(g, u, k - 1);
      var q := LongPathIsPath(g, u, k - 1);
      PathAppend(g.arcs, q, v);
      p := q + [v];
    }
  }

  /** A path with more nodes than the graph closes a cycle. */
  lemma TooLongForDag(g: DiGraph, p: seq<Id>) returns (c: seq<Id>)
    requires IsPath(g.arcs, p) && |p| > |g.nodes| && forall w | w in p :: w in g.nodes
    ensures SimpleCycle(g.arcs, c)
  {
    assert Elements(p) <= g.nodes;
    if Distinct(p) {
      DistinctSize(p, Elements(p));
      SubsetSize(Elements(p), g.nodes);
    }
    var i, j :| 0 <= i < j < |p| && p[i] == p[j];
    PathSuffix(g.arcs, p, i);
    PathPrefix(g.arcs, p[i..], j - i);
    var q := p[i..][..j - i];
    c := SimplePath(g.arcs, q);
    PathNode(g.arcs, p, j - 1);
  }

  /** Past the first empty level, long paths grow without end. */
  lemma {:induction false} NoEmptyLevelBelow(g: DiGraph, m: nat, n: nat, v: Id)
    requires g.WellFormed() && LevelSet(g, m) == {} && m <= n && LongPath(g, v, n)
    ensures LongPath(g, v, n + 1)
    decreases n
  {
    if n == m {
      assert v in g.nodes by { if n > 0 { LongPathShorter(g, v, n - 1); } }
      assert v !in LevelSet(g, m);
    } else {
      var u :| (u, v) in g.arcs && LongPath(g, u, n - 1);
      NoEmptyLevelBelow(g, m, n - 1, u);
    }
  }

  lemma {:induction false} LongPathsBounded(g: DiGraph, m: nat, v: Id, n: nat)
    requires g.WellFormed() && LevelSet(g, m) == {} && m <= n && LongPath(g, v, m)
    ensures LongPath(g, v, n)
    decreases n
  {
    if n > m {
      LongPathsBounded(g, m, v, n - 1);
      NoEmptyLevelBelow(g, m, n - 1, v);
    }
  }

  lemma {:induction false} LongPathDown(g: DiGraph, v: Id, j: nat, k: nat)
    requires g.WellFormed() && j <= k && LongPath(g, v, k)
    ensures LongPath(g, v, j)
    decreases k
  {
    if j < k {
      LongPathShorter(g, v, k - 1);
      LongPathDown(g, v, j, k - 1);
    }
  }

  /** A level is an antichain, in any graph. */
  lemma LevelIsAntichain(g: DiGraph, k: nat)
    requires g.WellFormed()
    ensures Antichain(g.arcs, LevelSet(g, k))
  {
    forall u, v | u in LevelSet(g, k) && v in LevelSet(g, k) && u != v ensures !Reach(g.arcs, u, v) {
      if p :| PathFromTo(g.arcs, p, u, v) {
        PathIsLong(g, p, k);
        LongPathDown(g, v, k + 1, k + |p| - 1);
      }
    }
  }

  /** The longest path ending at v has exactly k arcs. */
  ghost predicate LongestPathLength(g: DiGraph, v: Id, k: nat) {
    && (exists p :: IsPath(g.arcs, p) && |p| == k + 1 && p[k] == v)
    && (forall p | IsPath(g.arcs, p) && p[|p| - 1] == v :: |p| <= k + 1)
  }

  /** The levels partition the nodes, a node's level is the length of the longest path
      ending there, and no node of a level reaches another. */
  ghost predicate LevelsExact(g: DiGraph, levels: seq<set<Id>>) {
    && (forall v | v in g.nodes :: exists k :: 0 <= k < |levels| && v in levels[k])
    && (forall k, v | 0 <= k < |levels| && v in levels[k] :: v in g.nodes && LongestPathLength(g, v, k))
    && (forall j, k | 0 <= j < k < |levels| :: levels[j] !! levels[k])
    && (forall k | 0 <= k < |levels| :: levels[k] != {} && Antichain(g.arcs, levels[k]))
  }

  lemma LevelsDisjoint(g: DiGraph, j: nat, k: nat)
    requires g.WellFormed() && j < k
    ensures LevelSet(g, j) !! LevelSet(g, k)
  {
    forall v | v in LevelSet(g, j) ensures v !in LevelSet(g, k) {
      if v in LevelSet(g, k) {
        LongPathDown(g, v, j + 1, k);
      }
    }
  }

  lemma LongestPath(g: DiGraph, p: seq<Id>, k: nat)
    requires g.WellFormed() && IsPath(g.arcs, p) && p[|p| - 1] in LevelSet(g, k)
    ensures |p| <= k + 1
  {
    if |p| > k + 1 {
      assert p[0] in g.nodes by {
        var a := (p[0], p[1]);
        assert a in g.arcs;
      }
      PathIsLong(g, p, 0);
      LongPathDown(g, p[|p| - 1], k + 1, |p| - 1);
    }
  }

  lemma LevelIsLongestPath(g: DiGraph, v: Id, k: nat)
    requires g.WellFormed() && v in LevelSet(g, k)
    ensures LongestPathLength(g, v, k)
  {
    var q := LongPathIsPath(g, v, k);
    forall p | IsPath(g.arcs, p) && p[|p| - 1] == v ensures |p| <= k + 1 {
      LongestPath(g, p, k);
    }
  }

  lemma LevelOf(g: DiGraph, m: nat, v: Id) returns (k: nat)
    requires g.WellFormed() && Acyclic(g) && LevelSet(g, m) == {} && v in g.nodes
    ensures k < m && v in LevelSet(g, k)
  {
    if LongPath(g, v, m) {
      var n := if m < |g.nodes| then |g.nodes| else m;
      LongPathsBounded(g, m, v, n);
      var p := LongPathIsPath(g, v, n);
      var c := TooLongForDag(g, p);
    }
    k := 0;
    while LongPath(g, v, k + 1)
      invariant LongPath(g, v, k) && k < m
      decreases m - k
    {
      k := k + 1;
    }
  }

  /** On an acyclic graph the levels returned are exact. */
  lemma LevelsOfDag(g: DiGraph, levels: seq<set<Id>>)
    requires g.WellFormed() && Acyclic(g) && LevelSet(g, |levels|) == {}
    requires forall k | 0 <= k < |levels| :: levels[k] == LevelSet(g, k) && levels[k] != {}
    ensures LevelsExact(g, levels)
  {
    forall v | v in g.nodes ensures exists k :: 0 <= k < |levels| && v in levels[k] {
      var k := LevelOf(g, |levels|, v);
      assert v in levels[k];
    }
    forall k, v | 0 <= k < |levels| && v in levels[k] ensures v in g.nodes && LongestPathLength(g, v, k) {
      LevelIsLongestPath(g, v, k);
    }
    forall j, k | 0 <= j < k < |levels| ensures levels[j] !! levels[k] {
      LevelsDisjoint(g, j, k);
    }
    forall k | 0 <= k < |levels| ensures Antichain(g.arcs, levels[k]) {
      LevelIsAntichain(g, k);
    }
  }
}
