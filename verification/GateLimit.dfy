/** The bound of ten is exact on stars: a hub with more than ten leaves can lose
    the others to a pass that the gate accepts. */
module GateLimit {
  import opened Digraph
  import opened Lists
  import opened Sgir
  import opened Verification
  import opened Gate
  import opened Realisable

  /** The declared ids are the hub and the leaves; the hub reaches the linked leaves
      and nothing else is reachable. */
  ghost predicate IsStar(g: Software, hub: Id, leaves: set<Id>, linked: set<Id>) {
    && hub !in leaves && linked <= leaves
    && Declared(g) == leaves + {hub}
    && Descendants(Merged(g), hub) == linked
    && (forall u | u in leaves :: Descendants(Merged(g), u) == {})
  }

  lemma NothingToFollow(S: set<Id>, next: seq<Id>)
    requires Follows(S, next) && S == {}
    ensures next == []
  {
    assert Elements(next) == {};
    DistinctSize(next, Elements(next));
  }

  /** What the search follows in a star. */
  lemma StarExplored(g: Software, hub: Id, leaves: set<Id>, linked: set<Id>, order: set<Id> -> seq<Id>)
    requires IsListing(order) && IsStar(g, hub, leaves, linked)
    ensures Follows(linked, NextIn(g, order)(hub)) && Roots(g, [hub]) == [hub]
    ensures forall v | v in leaves :: NextIn(g, order)(v) == []
  {
    ExploredMembers(g, order, hub);
    assert DeclaredDescendants(g, hub) == linked;
    forall v | v in leaves ensures NextIn(g, order)(v) == [] {
      ExploredMembers(g, order, v);
      NothingToFollow(DeclaredDescendants(g, v), NextIn(g, order)(v));
    }
    FilterAll(MemberOf(Declared(g)), [hub]);
  }

  /** Cutting the unexplored leaves loses no trace. */
  lemma StarTracesKept(next: Id -> seq<Id>, next': Id -> seq<Id>, hub: Id, n: nat)
    requires n > 0 && next(hub) != [] && next'(hub) != []
    requires forall v | v in next(hub) :: v in next'(hub)
    requires forall v | v in next(hub) :: next(v) == []
    requires forall v | v in next'(hub) :: next'(v) == []
    ensures TracesOfAll(next, [hub], [], {}, n) <= TracesOfAll(next', [hub], [], {}, n)
  {
    forall t | t in TracesOfAll(next, [hub], [], {}, n) ensures t in TracesOfAll(next', [hub], [], {}, n) {
      ShallowTraces(next, hub, n, t);
      ShallowTraces(next', hub, n, t);
    }
  }

  // ------------------------------------------------- graphs made to order

  /** One layer that declares the ids and has the arcs. */
  function GraphOf(ids: seq<Id>, arcs: seq<Arc>): Software {
    Software([Layer(CallLayer, seq(|ids|, k requires 0 <= k < |ids| => Plain(ids[k])),
                    seq(|arcs|, k requires 0 <= k < |arcs| => Edge(arcs[k].0, arcs[k].1, CALL)))])
  }

  lemma GraphOfIds(ids: seq<Id>, arcs: seq<Arc>)
    ensures Declared(GraphOf(ids, arcs)) == Elements(ids)
  {
    var g := GraphOf(ids, arcs);
    forall v | v in ids ensures v in Declared(g) {
      var k :| 0 <= k < |ids| && ids[k] == v;
      assert g.layers[0].nodes[k] == Plain(v);
    }
  }

  lemma GraphOfArcs(ids: seq<Id>, arcs: seq<Arc>)
    ensures Arcs(GraphOf(ids, arcs)) == Elements(arcs)
  {
    var g := GraphOf(ids, arcs);
    forall a | a in arcs ensures a in Arcs(g) {
      var k :| 0 <= k < |arcs| && arcs[k] == a;
      assert g.layers[0].edges[k] == Edge(a.0, a.1, CALL);
    }
  }

  lemma GraphOfNodes(ids: seq<Id>, arcs: seq<Arc>)
    requires forall a | a in arcs :: a.0 in ids && a.1 in ids
    ensures Merged(GraphOf(ids, arcs)).nodes == Elements(ids)
  {
    var g := GraphOf(ids, arcs);
    GraphOfIds(ids, arcs);
    MergedWellFormed(g);
    var l := g.layers[0];
    forall e | e in l.edges ensures e.source in ids && e.target in ids {
      var k :| 0 <= k < |arcs| && l.edges[k] == e;
      assert arcs[k] in arcs;
    }
  }

  lemma StarIsStar(hub: Id, leaves: seq<Id>, arcs: seq<Arc>, linked: set<Id>)
    requires hub !in leaves && linked <= Elements(leaves)
    requires forall a :: a in arcs <==> a.0 == hub && a.1 in linked
    ensures IsStar(GraphOf([hub] + leaves, arcs), hub, Elements(leaves), linked)
  {
    var g := GraphOf([hub] + leaves, arcs);
    GraphOfIds([hub] + leaves, arcs);
    GraphOfArcs([hub] + leaves, arcs);
    GraphOfNodes([hub] + leaves, arcs);
    forall v | v in linked ensures v in Descendants(Merged(g), hub) {
      assert (hub, v) in arcs;
      ReachArc(Arcs(g), hub, v);
    }
    forall u, v | u != v && Reach(Arcs(g), u, v) ensures u == hub && v in linked {
      var w := ReachFirst(Arcs(g), u, v);
      if w != v {
        var x := ReachFirst(Arcs(g), w, v);
      }
    }
  }

  // ----------------------------------------------------------- the bound

  /** Following the kept leaves in the cut star is following all of them. */
  lemma KeptFollowed(leaves: set<Id>, kept: seq<Id>, next: seq<Id>)
    requires leaves != {} && Follows(leaves, kept) && Follows(Elements(kept), next)
    ensures next != [] && forall v | v in kept :: v in next
    ensures |Elements(kept)| <= MAX_TRACE_BRANCHING
  {
    DistinctSize(kept, Elements(kept));
    assert kept[0] in Elements(kept);
  }

  /** Cutting every leaf the search does not follow changes no trace, at any depth. */
  lemma CutLosesNoTrace(g: Software, h: Software, hub: Id, leaves: set<Id>, order: set<Id> -> seq<Id>, n: nat)
    requires IsListing(order) && leaves != {} && n > 0
    requires IsStar(g, hub, leaves, leaves) && IsStar(h, hub, leaves, Elements(NextIn(g, order)(hub)))
    ensures TraceSet(g, [hub], order, n) <= TraceSet(h, [hub], order, n)
  {
    var kept := NextIn(g, order)(hub);
    StarExplored(g, hub, leaves, leaves, order);
    StarExplored(h, hub, leaves, Elements(kept), order);
    KeptFollowed(leaves, kept, NextIn(h, order)(hub));
    StarTracesKept(NextIn(g, order), NextIn(h, order), hub, n);
  }

  lemma CutAccepted(g: Software, h: Software, hub: Id, leaves: set<Id>, order: set<Id> -> seq<Id>)
    requires IsListing(order) && leaves != {}
    requires IsStar(g, hub, leaves, leaves) && IsStar(h, hub, leaves, Elements(NextIn(g, order)(hub)))
    ensures Accepts(g, h, [hub], order)
  {
    CutLosesNoTrace(g, h, hub, leaves, order, DEFAULT_TRACE_MAX_DEPTH);
    assert ImproperlyRemoved(g, h, [hub]) == {};
  }

  lemma SomeLeafLost(leaves: set<Id>, kept: seq<Id>)
    requires Follows(leaves, kept) && |leaves| > MAX_TRACE_BRANCHING
    ensures Elements(kept) < leaves
  {
    DistinctSize(kept, Elements(kept));
    assert Elements(kept) <= leaves;
    ProperSubset(Elements(kept), leaves);
  }

  lemma StarDescendants(g: Software, hub: Id, leaves: set<Id>, linked: set<Id>)
    requires IsStar(g, hub, leaves, linked)
    ensures DeclaredDescendants(g, hub) == linked
  {
  }

  lemma CutStar(hub: Id, leaves: set<Id>, kept: seq<Id>, order: set<Id> -> seq<Id>) returns (h: Software)
    requires IsListing(order) && hub !in leaves && forall v | v in kept :: v in leaves
    ensures IsStar(h, hub, leaves, Elements(kept))
  {
    var arcs := Listing(set v | v in kept :: (hub, v));
    h := GraphOf([hub] + order(leaves), arcs);
    assert Elements(order(leaves)) == leaves;
    StarIsStar(hub, order(leaves), arcs, Elements(kept));
  }

  /** The gate accepts a pass that cuts every leaf the search does not follow. */
  lemma UnexploredLeavesLost(g: Software, hub: Id, leaves: set<Id>, order: set<Id> -> seq<Id>) returns (h: Software)
    requires IsListing(order) && IsStar(g, hub, leaves, leaves) && |leaves| > MAX_TRACE_BRANCHING
    ensures Accepts(g, h, [hub], order) && Declared(h) == Declared(g)
    ensures DeclaredDescendants(h, hub) < DeclaredDescendants(g, hub)
  {
    var kept := NextIn(g, order)(hub);
    assert Follows(leaves, kept) by {
      StarExplored(g, hub, leaves, leaves, order);
    }
    h := CutStar(hub, leaves, kept, order);
    CutAccepted(g, h, hub, leaves, order);
    SomeLeafLost(leaves, kept);
    assert DeclaredDescendants(g, hub) == leaves && DeclaredDescendants(h, hub) == Elements(kept) by {
      StarDescendants(g, hub, leaves, leaves);
      StarDescendants(h, hub, leaves, Elements(kept));
    }
  }

  /** On a star the gate protects the leaves exactly when there are at most ten. */
  lemma StarGateExact(g: Software, hub: Id, leaves: set<Id>, order: set<Id> -> seq<Id>)
    requires IsListing(order) && IsStar(g, hub, leaves, leaves)
    ensures (forall h :: Accepts(g, h, [hub], order) ==> DeclaredDescendants(g, hub) <= DeclaredDescendants(h, hub))
       <==> |leaves| <= MAX_TRACE_BRANCHING
  {
    StarDescendants(g, hub, leaves, leaves);
    if |leaves| <= MAX_TRACE_BRANCHING {
      forall h | Accepts(g, h, [hub], order) ensures DeclaredDescendants(g, hub) <= DeclaredDescendants(h, hub) {
        GateSound(g, h, [hub], order, hub);
      }
    } else {
      var h := UnexploredLeavesLost(g, hub, leaves, order);
      assert Accepts(g, h, [hub], order);
    }
  }
}
