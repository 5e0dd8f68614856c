/** A run on one layer that does more than remove dead nodes: the trace check does not look
    past the first ten descendants, so it lets a cycle behind them be broken. */
module UnseenCycle {
  import opened Digraph
  import opened Lists
  import opened Sgir
  import opened DeadNodes
  import opened CycleBreaking
  import opened Verification
  import opened Gate
  import opened GateLimit
  import opened GateBound
  import opened Pipeline
  import opened SingleLayerRuns

  function Listed(ep: Id, leaves: seq<Id>, a: Id, b: Id): seq<Id> {
    [ep] + (leaves + [a, b])
  }

  function FromHub(ep: Id, ids: seq<Id>): seq<Arc> {
    seq(|ids|, i requires 0 <= i < |ids| => (ep, ids[i]))
  }

  /** ep leads to ten leaves and to a and b, which call each other. */
  function Hub(ep: Id, leaves: seq<Id>, a: Id, b: Id): Software {
    GraphOf(Listed(ep, leaves, a, b), FromHub(ep, leaves + [a, b]) + [(a, b), (b, a)])
  }

  ghost predicate TenAndTwo(ep: Id, leaves: seq<Id>, a: Id, b: Id) {
    Distinct(Listed(ep, leaves, a, b)) && |leaves| == MAX_TRACE_BRANCHING
  }

  ghost function Others(leaves: seq<Id>, a: Id, b: Id): set<Id> {
    Elements(leaves + [a, b])
  }

  ghost function Spokes(ep: Id, below: set<Id>): set<Arc> {
    set x | x in below :: (ep, x)
  }

  lemma DistinctParts(ep: Id, leaves: seq<Id>, a: Id, b: Id)
    requires TenAndTwo(ep, leaves, a, b)
    ensures ep !in Others(leaves, a, b) && a != b && a !in leaves && b !in leaves
  {
    var ids, n := Listed(ep, leaves, a, b), |leaves|;
    assert ids[0] == ep && ids[n + 1] == a && ids[n + 2] == b;
    forall i | 0 <= i < n ensures leaves[i] != ep && leaves[i] != a && leaves[i] != b {
      assert ids[i + 1] == leaves[i];
    }
  }

  lemma FromHubArcs(ep: Id, ids: seq<Id>)
    ensures Elements(FromHub(ep, ids)) == Spokes(ep, Elements(ids))
  {
    forall x | x in ids ensures (ep, x) in FromHub(ep, ids) {
      var i :| 0 <= i < |ids| && ids[i] == x;
      assert FromHub(ep, ids)[i] == (ep, x);
    }
  }

  lemma ElementsAppend<T>(s: seq<T>, t: seq<T>)
    ensures Elements(s + t) == Elements(s) + Elements(t)
  {
  }

  lemma HubGraph(ep: Id, leaves: seq<Id>, a: Id, b: Id)
    ensures var g := Hub(ep, leaves, a, b); var V := Others(leaves, a, b) + {ep};
            && Declared(g) == V && Merged(g).nodes == V && Arcs(g) == Spokes(ep, Others(leaves, a, b)) + {(a, b), (b, a)}
  {
    var ids, arcs := Listed(ep, leaves, a, b), FromHub(ep, leaves + [a, b]) + [(a, b), (b, a)];
    GraphOfIds(ids, arcs);
    GraphOfArcs(ids, arcs);
    FromHubArcs(ep, leaves + [a, b]);
    ElementsAppend(FromHub(ep, leaves + [a, b]), [(a, b), (b, a)]);
    ElementsAppend([ep], leaves + [a, b]);
    assert Elements([(a, b), (b, a)]) == {(a, b), (b, a)} by {
      assert [(a, b), (b, a)][0] == (a, b) && [(a, b), (b, a)][1] == (b, a);
    }
    forall x | x in arcs ensures x.0 in ids && x.1 in ids {
      assert x in Elements(arcs);
      assert a in leaves + [a, b] && b in leaves + [a, b];
    }
    GraphOfNodes(ids, arcs);
  }

  lemma DeclaredSpokes(l: Layer, ep: Id, others: set<Id>, a: Id, b: Id)
    requires LayerArcs(l) == Spokes(ep, others) + {(a, b), (b, a)} && a in others && b in others
    requires NodeIds(l) == others + {ep}
    ensures NoDangling(l)
  {
    forall e | e in l.edges ensures e.source in NodeIds(l) && e.target in NodeIds(l) {
      assert (e.source, e.target) in LayerArcs(l);
    }
  }

  lemma GraphOfUnique(ids: seq<Id>, arcs: seq<Arc>)
    requires Distinct(ids)
    ensures UniqueIds(GraphOf(ids, arcs).layers[0])
  {
  }

  lemma HubWellFormed(ep: Id, leaves: seq<Id>, a: Id, b: Id)
    requires TenAndTwo(ep, leaves, a, b)
    ensures WellFormedLayer(Hub(ep, leaves, a, b).layers[0])
  {
    var g := Hub(ep, leaves, a, b);
    HubGraph(ep, leaves, a, b);
    OneLayerIds(g);
    assert a in leaves + [a, b] && b in leaves + [a, b];
    DeclaredSpokes(g.layers[0], ep, Others(leaves, a, b), a, b);
    GraphOfUnique(Listed(ep, leaves, a, b), FromHub(ep, leaves + [a, b]) + [(a, b), (b, a)]);
  }

  /** A graph with the same ids, all arcs of the hub, and at most the arcs of the cycle besides. */
  ghost predicate AtMostCycle(h: Software, ep: Id, leaves: seq<Id>, a: Id, b: Id) {
    && Declared(h) == Others(leaves, a, b) + {ep}
    && Spokes(ep, Others(leaves, a, b)) <= Arcs(h) <= Spokes(ep, Others(leaves, a, b)) + {(a, b), (b, a)}
  }

  lemma HubReaches(h: Software, ep: Id, leaves: seq<Id>, a: Id, b: Id, x: Id)
    requires AtMostCycle(h, ep, leaves, a, b) && ep !in Others(leaves, a, b)
    ensures x in DeclaredDescendants(h, ep) <==> x in Others(leaves, a, b)
  {
    MergedWellFormed(h);
    if x in Others(leaves, a, b) {
      assert (ep, x) in Arcs(h);
      ReachArc(Arcs(h), ep, x);
    }
  }

  lemma BelowHub(h: Software, ep: Id, leaves: seq<Id>, a: Id, b: Id)
    requires TenAndTwo(ep, leaves, a, b) && AtMostCycle(h, ep, leaves, a, b)
    ensures DeclaredDescendants(h, ep) == Others(leaves, a, b)
  {
    var below, others := DeclaredDescendants(h, ep), Others(leaves, a, b);
    DistinctParts(ep, leaves, a, b);
    forall x ensures x in below <==> x in others {
      HubReaches(h, ep, leaves, a, b, x);
    }
  }

  lemma BelowLeaf(h: Software, ep: Id, leaves: seq<Id>, a: Id, b: Id, x: Id)
    requires TenAndTwo(ep, leaves, a, b) && AtMostCycle(h, ep, leaves, a, b) && x in leaves
    ensures DeclaredDescendants(h, x) == {}
  {
    DistinctParts(ep, leaves, a, b);
    assert x in leaves + [a, b];
    forall y | y != x && Reach(Arcs(h), x, y) ensures false {
      var w := ReachFirst(Arcs(h), x, y);
    }
  }

  lemma FirstTenOfTwelve(leaves: seq<Id>, a: Id, b: Id)
    requires |leaves| == MAX_TRACE_BRANCHING
    ensures FirstTen(leaves + [a, b]) == leaves && FirstTen([] + (leaves + [a, b])) == leaves
  {
    assert [] + (leaves + [a, b]) == leaves + [a, b];
    assert (leaves + [a, b])[..MAX_TRACE_BRANCHING] == leaves;
  }

  lemma FirstTenLeaves(ep: Id, leaves: seq<Id>, a: Id, b: Id)
    requires TenAndTwo(ep, leaves, a, b)
    ensures FirstTen(Filter(MemberOf(Others(leaves, a, b)), Listed(ep, leaves, a, b))) == leaves
  {
    var rest, f := leaves + [a, b], MemberOf(Others(leaves, a, b));
    DistinctParts(ep, leaves, a, b);
    FilterCons(f, ep, rest);
    FilterAll(f, rest);
    FirstTenOfTwelve(leaves, a, b);
  }

  lemma NothingListed(list: seq<Id>)
    ensures Filter(MemberOf({}), list) == []
  {
    if Filter(MemberOf({}), list) != [] {
      assert Filter(MemberOf({}), list)[0] in Filter(MemberOf({}), list);
    }
  }

  /** With a and b listed last, the search sees the leaves and stops. */
  lemma SeesLeaves(h: Software, ep: Id, leaves: seq<Id>, a: Id, b: Id)
    requires TenAndTwo(ep, leaves, a, b) && AtMostCycle(h, ep, leaves, a, b)
    requires Merged(h).nodes <= Elements(Listed(ep, leaves, a, b))
    ensures var next := NextIn(h, OrderBy(Listed(ep, leaves, a, b)));
            next(ep) == leaves && forall x | x in leaves :: next(x) == []
  {
    var list := Listed(ep, leaves, a, b);
    BelowHub(h, ep, leaves, a, b);
    NextByList(h, list, ep);
    FirstTenLeaves(ep, leaves, a, b);
    forall x | x in leaves ensures NextIn(h, OrderBy(list))(x) == [] {
      BelowLeaf(h, ep, leaves, a, b, x);
      NextByList(h, list, x);
      NothingListed(list);
    }
  }

  lemma TwoLevels(next: Id -> seq<Id>, next': Id -> seq<Id>, ep: Id, leaves: seq<Id>, n: nat)
    requires next(ep) == leaves == next'(ep) && forall x | x in leaves :: next(x) == [] == next'(x)
    ensures TracesOfAll(next, [ep], [], {}, n) == TracesOfAll(next', [ep], [], {}, n)
  {
    var S := Elements([ep] + leaves);
    forall w | w in S ensures next(w) == next'(w) && forall v | v in next(w) :: v in S {
    }
    SameTracesOfAll(next, next', _ => S, [ep], [], {}, n);
  }

  lemma SameRootTraces(g: Software, h: Software, ep: Id, order: set<Id> -> seq<Id>)
    requires ep in Declared(g) && Declared(g) <= Declared(h)
    requires forall n: nat :: TracesOfAll(NextIn(g, order), [ep], [], {}, n) == TracesOfAll(NextIn(h, order), [ep], [], {}, n)
    ensures Accepts(g, h, [ep], order)
  {
    FilterAll(MemberOf(Declared(g)), [ep]);
    FilterAll(MemberOf(Declared(h)), [ep]);
    assert ImproperlyRemoved(g, h, [ep]) == {};
  }

  /** So any pass that touches only the cycle is accepted. */
  lemma CycleUnseen(g: Software, h: Software, ep: Id, leaves: seq<Id>, a: Id, b: Id)
    requires TenAndTwo(ep, leaves, a, b) && AtMostCycle(g, ep, leaves, a, b) && AtMostCycle(h, ep, leaves, a, b)
    requires Merged(g).nodes == Merged(h).nodes == Elements(Listed(ep, leaves, a, b))
    ensures Accepts(g, h, [ep], OrderBy(Listed(ep, leaves, a, b)))
  {
    var order := OrderBy(Listed(ep, leaves, a, b));
    SeesLeaves(g, ep, leaves, a, b);
    SeesLeaves(h, ep, leaves, a, b);
    forall n: nat ensures TracesOfAll(NextIn(g, order), [ep], [], {}, n) == TracesOfAll(NextIn(h, order), [ep], [], {}, n) {
      TwoLevels(NextIn(g, order), NextIn(h, order), ep, leaves, n);
    }
    SameRootTraces(g, h, ep, order);
  }

  lemma NoWayBack(E: set<Arc>, ep: Id, x: Id)
    requires x != ep && forall e | e in E :: e.1 != ep
    ensures !Reach(E, x, ep)
  {
    if Reach(E, x, ep) {
      var w := ReachLast(E, x, ep);
    }
  }

  lemma SpokesStay(l: Layer, ep: Id, others: set<Id>, a: Id, b: Id, nx: NetworkX)
    requires CycleBreaking.Valid(nx) && LayerArcs(l) == Spokes(ep, others) + {(a, b), (b, a)} && ep !in others && a != ep && b != ep
    ensures Spokes(ep, others) <= LayerArcs(CleanLayer(l, nx)) <= LayerArcs(l)
  {
    var E, F := LayerArcs(l), LayerArcs(CleanLayer(l, nx));
    forall x | x in others ensures (ep, x) in F {
      NoWayBack(E, ep, x);
      if (ep, x) !in F {
        RemovedOnCycle(l, nx, (ep, x));
      }
    }
  }

  lemma CleanedNodes(g: Software, nx: NetworkX)
    requires |g.layers| == 1 && WellFormedLayer(g.layers[0]) && CycleBreaking.Valid(nx)
    ensures Merged(CleanCycles(g, nx)).nodes == Declared(CleanCycles(g, nx)) == Declared(g)
  {
    var h := CleanCycles(g, nx);
    OneLayerIds(g);
    OneLayerIds(h);
    CyclesBrokenWhenDeclared(g.layers[0], nx);
    DeclaredNodes(h.layers[0]);
    assert h.layers[0].nodes == g.layers[0].nodes;
  }

  /** Cleaning touches only the cycle. */
  lemma CleanedHub(ep: Id, leaves: seq<Id>, a: Id, b: Id, nx: NetworkX)
    requires TenAndTwo(ep, leaves, a, b) && CycleBreaking.Valid(nx)
    ensures var h := CleanCycles(Hub(ep, leaves, a, b), nx);
            AtMostCycle(h, ep, leaves, a, b) && Merged(h).nodes == Others(leaves, a, b) + {ep}
  {
    var g, h := Hub(ep, leaves, a, b), CleanCycles(Hub(ep, leaves, a, b), nx);
    HubGraph(ep, leaves, a, b);
    HubWellFormed(ep, leaves, a, b);
    CleanedNodes(g, nx);
    OneLayerIds(g);
    OneLayerIds(h);
    DistinctParts(ep, leaves, a, b);
    assert a in leaves + [a, b] && b in leaves + [a, b];
    SpokesStay(g.layers[0], ep, Others(leaves, a, b), a, b, nx);
  }

  lemma CleaningCuts(ep: Id, leaves: seq<Id>, a: Id, b: Id, nx: NetworkX)
    requires TenAndTwo(ep, leaves, a, b) && CycleBreaking.Valid(nx)
    ensures CleanCycles(Hub(ep, leaves, a, b), nx) != Hub(ep, leaves, a, b)
  {
    var g := Hub(ep, leaves, a, b);
    HubGraph(ep, leaves, a, b);
    OneLayerIds(g);
    DistinctParts(ep, leaves, a, b);
    HubWellFormed(ep, leaves, a, b);
    CyclesBrokenWhenDeclared(g.layers[0], nx);
    ReachArc(Arcs(g), a, b);
    ReachArc(Arcs(g), b, a);
    assert Mutual(LayerArcs(g.layers[0]), a, b);
  }

  lemma HubLive(ep: Id, leaves: seq<Id>, a: Id, b: Id)
    ensures var g := Hub(ep, leaves, a, b); RemoveDead(g, g, [ep]) == g
  {
    var g := Hub(ep, leaves, a, b);
    HubGraph(ep, leaves, a, b);
    forall v | v in Merged(g).nodes ensures Reach(Arcs(g), ep, v) {
      ReachRefl(Arcs(g), ep);
      if v != ep {
        ReachArc(Arcs(g), ep, v);
      }
    }
    AllLive(g, ep);
  }

  lemma CleaningKept(ep: Id, leaves: seq<Id>, a: Id, b: Id, nx: NetworkX)
    requires TenAndTwo(ep, leaves, a, b) && CycleBreaking.Valid(nx)
    ensures var g := Hub(ep, leaves, a, b); Accepts(g, CleanCycles(g, nx), [ep], OrderBy(Listed(ep, leaves, a, b)))
  {
    var g := Hub(ep, leaves, a, b);
    HubGraph(ep, leaves, a, b);
    CleanedHub(ep, leaves, a, b, nx);
    ElementsAppend([ep], leaves + [a, b]);
    CycleUnseen(g, CleanCycles(g, nx), ep, leaves, a, b);
  }

  /** On this well-formed layer nothing is dead, but a run breaks the cycle: with more than ten
      declared descendants four passes need not come to the first. */
  lemma RunBreaksUnseenCycle(ep: Id, leaves: seq<Id>, a: Id, b: Id, nx: NetworkX)
    requires TenAndTwo(ep, leaves, a, b) && CycleBreaking.Valid(nx)
    ensures var g := Hub(ep, leaves, a, b); var order := OrderBy(Listed(ep, leaves, a, b));
            && IsListing(order) && |g.layers| == 1 && WellFormedLayer(g.layers[0])
            && RemoveDead(g, g, [ep]) == g
            && Optimized(g, [ep], order, nx) == CleanCycles(g, nx) != g
  {
    var g, order := Hub(ep, leaves, a, b), OrderBy(Listed(ep, leaves, a, b));
    OrderByLists(Listed(ep, leaves, a, b));
    HubWellFormed(ep, leaves, a, b);
    HubLive(ep, leaves, a, b);
    SingleLayerNeverSplit(g, [ep], order);
    CleaningKept(ep, leaves, a, b, nx);
    CleaningCuts(ep, leaves, a, b, nx);
  }
}
