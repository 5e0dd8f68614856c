/** The contracts assumed of networkx and of Python's set order can be met. */
module Realisable {
  import opened Digraph
  import opened Lists
  import opened Sgir
  import opened CycleBreaking

  /** Some listing of a finite set. */
  ghost function Listing<T(!new)>(s: set<T>): (r: seq<T>)
    ensures Distinct(r) && forall v :: v in r <==> v in s
  {
    if s == {} then []
    else
      var x :| x in s;
      [x] + Listing(s - {x})
  }

  lemma SomeListing() returns (order: set<Id> -> seq<Id>)
    ensures IsListing(order)
  {
    order := s => Listing(s);
    forall s: set<Id> ensures Distinct(order(s)) && (forall v :: v in order(s) <==> v in s) {
    }
  }

  /** Every list of n ids from s. */
  ghost function ListsOf(s: set<Id>, n: nat): set<seq<Id>> {
    if n == 0 then {[]} else set v, p | v in s && p in ListsOf(s, n - 1) :: [v] + p
  }

  lemma {:induction false} InListsOf(s: set<Id>, p: seq<Id>)
    requires forall v | v in p :: v in s
    ensures p in ListsOf(s, |p|)
    decreases |p|
  {
    if p != [] {
      InListsOf(s, p[1..]);
      assert p == [p[0]] + p[1..];
    }
  }

  ghost function ListsUpTo(s: set<Id>, n: nat): set<seq<Id>> {
    ListsOf(s, n) + (if n == 0 then {} else ListsUpTo(s, n - 1))
  }

  lemma {:induction false} InListsUpTo(s: set<Id>, p: seq<Id>, n: nat)
    requires |p| <= n && forall v | v in p :: v in s
    ensures p in ListsUpTo(s, n)
    decreases n
  {
    if |p| == n {
      InListsOf(s, p);
    } else {
      InListsUpTo(s, p, n - 1);
    }
  }

  ghost function CyclesOf(g: DiGraph): set<seq<Id>> {
    set c | c in ListsUpTo(g.nodes, |g.nodes|) && SimpleCycle(g.arcs, c)
  }

  lemma EveryCycleListed(g: DiGraph, c: seq<Id>)
    requires g.WellFormed() && SimpleCycle(g.arcs, c)
    ensures c in CyclesOf(g)
  {
    forall v | v in c ensures v in g.nodes {
      var i :| 0 <= i < |c| && c[i] == v;
      CycleArcInGraph(g.arcs, c, i);
    }
    DistinctSize(c, Elements(c));
    SubsetSize(Elements(c), g.nodes);
    InListsUpTo(g.nodes, c, |g.nodes|);
  }

  ghost function ClassesOf(g: DiGraph): seq<set<Id>> {
    var nodes := Listing(g.nodes);
    seq(|nodes|, i requires 0 <= i < |nodes| => set v | v in g.nodes && Mutual(g.arcs, nodes[i], v))
  }

  lemma ClassesAreComponents(g: DiGraph)
    ensures IsComponentList(g, ClassesOf(g))
  {
    var nodes, cs := Listing(g.nodes), ClassesOf(g);
    forall u | u in g.nodes ensures exists i :: 0 <= i < |cs| && u in cs[i] {
      var i :| 0 <= i < |nodes| && nodes[i] == u;
      ReachRefl(g.arcs, u);
      assert u in cs[i];
    }
    forall i, u, v | 0 <= i < |cs| && u in cs[i] ensures v in cs[i] <==> v in g.nodes && Mutual(g.arcs, u, v) {
      if v in cs[i] {
        ReachTrans(g.arcs, u, nodes[i], v);
        ReachTrans(g.arcs, v, nodes[i], u);
      }
      if v in g.nodes && Mutual(g.arcs, u, v) {
        ReachTrans(g.arcs, nodes[i], u, v);
        ReachTrans(g.arcs, v, u, nodes[i]);
      }
    }
  }

  lemma SomeNetworkX() returns (nx: NetworkX)
    ensures CycleBreaking.Valid(nx)
  {
    nx := NetworkX(g => ClassesOf(g), g => Listing(CyclesOf(g)), g => Acyclic(g));
    forall g: DiGraph | g.WellFormed()
      ensures IsComponentList(g, nx.components(g)) && IsCycleList(g, nx.simpleCycles(g)) && (nx.isAcyclic(g) <==> Acyclic(g))
    {
      ClassesAreComponents(g);
      forall c | SimpleCycle(g.arcs, c) ensures HasRotation(nx.simpleCycles(g), c) {
        EveryCycleListed(g, c);
        assert Rotate(c, 0) == c;
      }
    }
  }
}
