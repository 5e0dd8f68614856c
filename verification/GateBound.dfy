/** Exactly what the trace check protects of what an entry point reaches. */
module GateBound {
  import opened Digraph
  import opened Lists
  import opened Sgir
  import opened Verification
  import opened Gate
  import opened GateLimit
  import opened Realisable

  // ----------------------------------------------------------- what is forced

  /** Whoever picks ten members of D, or all if there are fewer, picks one of S. */
  ghost predicate Forced(D: set<Id>, S: set<Id>) {
    D * S != {} && |D - S| < MAX_TRACE_BRANCHING
  }

  ghost function Rounds(step: set<Id> -> set<Id>, v: Id, k: nat): set<Id> {
    if k == 0 then {v} else step(Rounds(step, v, k - 1))
  }

  /** Adds the ids that are forced into S. */
  ghost function Forcing(ids: set<Id>, below: Id -> set<Id>): set<Id> -> set<Id> {
    S => S + set u | u in ids && Forced(below(u), S)
  }

  /** v, and in k rounds the ids that are forced into those so far. */
  ghost function GuardsOf(ids: set<Id>, below: Id -> set<Id>, v: Id): nat -> set<Id> {
    (k: nat) => Rounds(Forcing(ids, below), v, k)
  }

  ghost function Below(g: Software): Id -> set<Id> {
    u => DeclaredDescendants(g, u)
  }

  /** The ids from which every search of depth k comes to v, however sets are ordered. */
  ghost function Guards(g: Software, v: Id): nat -> set<Id> {
    GuardsOf(Declared(g), Below(g), v)
  }

  /** Sets that grow from v. */
  ghost predicate Rising(G: nat -> set<Id>, v: Id) {
    G(0) == {v} && forall j: nat, k: nat | j <= k :: G(j) <= G(k)
  }

  ghost predicate GuardRound(ids: set<Id>, below: Id -> set<Id>, G: nat -> set<Id>, k: nat, u: Id) {
    k > 0 ==> (u in G(k) <==> u in G(k - 1) || (u in ids && Forced(below(u), G(k - 1))))
  }

  ghost predicate Guarding(ids: set<Id>, below: Id -> set<Id>, v: Id, G: nat -> set<Id>) {
    Rising(G, v) && forall k, u :: GuardRound(ids, below, G, k, u)
  }

  lemma {:induction false} RoundsGrow(step: set<Id> -> set<Id>, v: Id, j: nat, k: nat)
    requires j <= k && forall S :: S <= step(S)
    ensures Rounds(step, v, j) <= Rounds(step, v, k)
    decreases k
  {
    if j < k {
      RoundsGrow(step, v, j, k - 1);
      assert Rounds(step, v, k - 1) <= step(Rounds(step, v, k - 1));
    }
  }

  lemma InForcing(ids: set<Id>, below: Id -> set<Id>, S: set<Id>, u: Id)
    ensures u in Forcing(ids, below)(S) <==> u in S || (u in ids && Forced(below(u), S))
  {
  }

  lemma RoundNext(ids: set<Id>, below: Id -> set<Id>, v: Id, k: nat, u: Id)
    ensures GuardRound(ids, below, GuardsOf(ids, below, v), k, u)
  {
    if k > 0 {
      InForcing(ids, below, Rounds(Forcing(ids, below), v, k - 1), u);
    }
  }

  lemma GuardsRise(ids: set<Id>, below: Id -> set<Id>, v: Id)
    ensures Rising(GuardsOf(ids, below, v), v)
  {
    var G, step := GuardsOf(ids, below, v), Forcing(ids, below);
    forall S ensures S <= step(S) {
      forall u | u in S ensures u in step(S) {
        InForcing(ids, below, S, u);
      }
    }
    forall j: nat, k: nat | j <= k ensures G(j) <= G(k) {
      RoundsGrow(step, v, j, k);
    }
  }

  lemma GuardsGuard(ids: set<Id>, below: Id -> set<Id>, v: Id)
    ensures Guarding(ids, below, v, GuardsOf(ids, below, v))
  {
    GuardsRise(ids, below, v);
    forall k: nat, u ensures GuardRound(ids, below, GuardsOf(ids, below, v), k, u) {
      RoundNext(ids, below, v, k, u);
    }
  }

  lemma SomeWithin(next: seq<Id>, D: set<Id>, S: set<Id>)
    requires Follows(D, next) && D * S != {} && |D - S| < MAX_TRACE_BRANCHING
    ensures exists w :: w in next && w in S
  {
    if |D| <= MAX_TRACE_BRANCHING {
      var w :| w in D * S;
      assert w in next;
    } else {
      DistinctSize(next, Elements(next));
      if Elements(next) <= D - S {
        SubsetSize(Elements(next), D - S);
      }
    }
  }

  /** From what G(k) adds, `next` goes on into the set before. */
  ghost predicate LeadsBack(next: Id -> seq<Id>, G: nat -> set<Id>, k: nat, u: Id) {
    k > 0 && u in G(k) && u !in G(k - 1) ==> exists w :: w in next(u) && w in G(k - 1)
  }

  ghost predicate Leads(next: Id -> seq<Id>, G: nat -> set<Id>) {
    forall k, u :: LeadsBack(next, G, k, u)
  }

  lemma GuardsLead(g: Software, v: Id, G: nat -> set<Id>, order: set<Id> -> seq<Id>)
    requires IsListing(order) && Guarding(Declared(g), Below(g), v, G)
    ensures Leads(NextIn(g, order), G)
  {
    forall k: nat, u ensures LeadsBack(NextIn(g, order), G, k, u) {
      if k > 0 && u in G(k) && u !in G(k - 1) {
        assert GuardRound(Declared(g), Below(g), G, k, u);
        ExploredMembers(g, order, u);
        SomeWithin(NextIn(g, order)(u), DeclaredDescendants(g, u), G(k - 1));
      }
    }
  }

  /** From a guard of rank k a search of depth k or more records a trace through v. */
  lemma {:induction false} GuardTraced(next: Id -> seq<Id>, G: nat -> set<Id>, v: Id, k: nat,
                                       u: Id, path: seq<Id>, visited: set<Id>, depth: nat) returns (t: seq<Id>)
    requires Rising(G, v) && Leads(next, G) && u in G(k) && visited !! G(k) && k <= depth
    ensures t in Traces(next, u, path, visited, depth) && v in t
    decreases k
  {
    if k == 0 {
      t := TraceRecorded(next, u, path, visited, depth);
      TraceShape(next, u, path, visited, depth, t);
      assert t[|path|] == v;
    } else if u in G(k - 1) {
      assert G(k - 1) <= G(k);
      t := GuardTraced(next, G, v, k - 1, u, path, visited, depth);
    } else {
      assert G(k - 1) <= G(k) && LeadsBack(next, G, k, u);
      var w :| w in next(u) && w in G(k - 1);
      t := GuardTraced(next, G, v, k - 1, w, path + [u], visited + {u}, depth - 1);
      InTracesOfAll(next, next(u), path + [u], visited + {u}, depth - 1, t);
    }
  }

  /** What an entry point is a guard of, it goes on reaching, under every order. */
  lemma GuardedStays(g: Software, h: Software, eps: seq<Id>, order: set<Id> -> seq<Id>, ep: Id, v: Id)
    requires IsListing(order) && Accepts(g, h, eps, order) && ep in eps && ep in Declared(g) && v != ep
    requires ep in Guards(g, v)(DEFAULT_TRACE_MAX_DEPTH)
    ensures v in DeclaredDescendants(h, ep)
  {
    var next, n := NextIn(g, order), DEFAULT_TRACE_MAX_DEPTH;
    GuardsGuard(Declared(g), Below(g), v);
    GuardsLead(g, v, Guards(g, v), order);
    var t := GuardTraced(next, Guards(g, v), v, n, ep, [], {}, n);
    InTracesOfAll(next, Roots(g, eps), [], {}, n, t);
    TraceShape(next, ep, [], {}, n, t);
    var i :| 0 <= i < |t| && t[i] == v;
    TracedStaysReachable(g, h, eps, order, t, i);
  }

  // ------------------------------------------------- listing the guards last

  /** The order of a fixed list, then everything else. */
  ghost function OrderBy(list: seq<Id>): set<Id> -> seq<Id> {
    s => Filter(MemberOf(s), list) + Listing(s - Elements(list))
  }

  lemma DistinctAppend(a: seq<Id>, b: seq<Id>)
    requires Distinct(a) && Distinct(b) && forall v | v in a :: v !in b
    ensures Distinct(a + b)
  {
    forall i, j | 0 <= i < j < |a + b| ensures (a + b)[i] != (a + b)[j] {
      if i < |a| <= j {
        assert a[i] in a && b[j - |a|] in b;
      }
    }
  }

  lemma OrderByLists(list: seq<Id>)
    requires Distinct(list)
    ensures IsListing(OrderBy(list))
  {
    forall s: set<Id> ensures Distinct(OrderBy(list)(s)) && forall v :: v in OrderBy(list)(s) <==> v in s {
      FilterDistinct(MemberOf(s), list);
      DistinctAppend(Filter(MemberOf(s), list), Listing(s - Elements(list)));
    }
  }

  lemma {:induction false} FilterTwice(f: Id -> bool, h: Id -> bool, both: Id -> bool, s: seq<Id>)
    requires forall v :: both(v) <==> f(v) && h(v)
    ensures Filter(f, Filter(h, s)) == Filter(both, s)
    decreases |s|
  {
    if s != [] {
      var x, rest := s[0], Filter(h, s[1..]);
      FilterTwice(f, h, both, s[1..]);
      if h(x) {
        assert Filter(h, s) == [x] + rest;
        FilterCons(f, x, rest);
      } else {
        assert Filter(h, s) == rest && !both(x);
      }
    }
  }

  /** Under a list of all nodes the search follows the declared descendants in list order. */
  lemma NextByList(g: Software, list: seq<Id>, u: Id)
    requires Merged(g).nodes <= Elements(list)
    ensures NextIn(g, OrderBy(list))(u) == FirstTen(Filter(MemberOf(DeclaredDescendants(g, u)), list))
  {
    var S := Descendants(Merged(g), u);
    assert S - Elements(list) == {};
    assert OrderBy(list)(S) == Filter(MemberOf(S), list);
    FilterTwice(MemberOf(Declared(g)), MemberOf(S), MemberOf(DeclaredDescendants(g, u)), list);
  }

  lemma FirstTenOf(s: seq<Id>, v: Id)
    requires |s| >= MAX_TRACE_BRANCHING
    ensures FirstTen(s + [v]) == FirstTen(s + [])
  {
    assert s + [] == s;
  }

  lemma FirstTenMembers(s: seq<Id>)
    ensures forall v | v in FirstTen(s) :: v in s
  {
  }

  lemma FirstTenOfEnough(s: seq<Id>, t: seq<Id>)
    requires |s| >= MAX_TRACE_BRANCHING
    ensures forall v | v in FirstTen(s + t) :: v in s
  {
    assert FirstTen(s + t) == s[..MAX_TRACE_BRANCHING];
  }

  /** The members that sets n down to 1 add. */
  ghost function ByRank(G: nat -> set<Id>, n: nat): seq<Id> {
    if n == 0 then [] else Listing(G(n) - G(n - 1)) + ByRank(G, n - 1)
  }

  lemma {:induction false} ByRankLists(G: nat -> set<Id>, v: Id, n: nat)
    requires Rising(G, v)
    ensures Distinct(ByRank(G, n)) && forall u :: u in ByRank(G, n) <==> u in G(n) && u != v
    decreases n
  {
    if n > 0 {
      ByRankLists(G, v, n - 1);
      assert G(n - 1) <= G(n) && G(0) <= G(n - 1);
      DistinctAppend(Listing(G(n) - G(n - 1)), ByRank(G, n - 1));
    }
  }

  /** Those that later sets add come first. */
  lemma {:induction false} ByRankSplit(G: nat -> set<Id>, v: Id, n: nat, k: nat) returns (a: seq<Id>)
    requires Rising(G, v) && k <= n
    ensures ByRank(G, n) == a + ByRank(G, k) && forall u :: u in a <==> u in G(n) - G(k)
    decreases n
  {
    if n == k {
      a := [];
    } else {
      var b := ByRankSplit(G, v, n - 1, k);
      var first := Listing(G(n) - G(n - 1));
      a := first + b;
      assert G(n - 1) <= G(n) && G(k) <= G(n - 1);
      assert first + (b + ByRank(G, k)) == a + ByRank(G, k);
    }
  }

  /** All nodes but v: first those outside the sets, then those that later sets add. */
  ghost function GuardsLast(nodes: set<Id>, G: nat -> set<Id>, n: nat): seq<Id> {
    Listing(nodes - G(n)) + ByRank(G, n)
  }

  lemma GuardsLastLists(nodes: set<Id>, G: nat -> set<Id>, v: Id, n: nat)
    requires Rising(G, v)
    ensures Distinct(GuardsLast(nodes, G, n) + [v]) && v !in GuardsLast(nodes, G, n)
    ensures nodes <= Elements(GuardsLast(nodes, G, n) + [v])
  {
    ByRankLists(G, v, n);
    assert G(0) <= G(n);
    DistinctAppend(Listing(nodes - G(n)), ByRank(G, n));
    DistinctAppend(GuardsLast(nodes, G, n), [v]);
    forall u | u in nodes ensures u in GuardsLast(nodes, G, n) + [v] {
      assert u in G(n) && u != v ==> u in ByRank(G, n);
    }
  }

  /** The list is some list of the nodes outside G(k), and then the members of G(k). */
  lemma GuardsLastSplit(nodes: set<Id>, G: nat -> set<Id>, v: Id, n: nat, k: nat) returns (a: seq<Id>, b: seq<Id>)
    requires Rising(G, v) && k <= n
    ensures GuardsLast(nodes, G, n) + [v] == a + b && Distinct(a)
    ensures (forall u :: u in a ==> u !in G(k)) && nodes - G(k) <= Elements(a)
  {
    var head := Listing(nodes - G(n));
    var mid := ByRankSplit(G, v, n, k);
    assert G(k) <= G(n);
    a, b := head + mid, ByRank(G, k) + [v];
    GuardsLastLists(nodes, G, v, n);
    assert GuardsLast(nodes, G, n) + [v] == a + b;
    assert forall i | 0 <= i < |a| :: a[i] == (a + b)[i];
    forall u | u in nodes - G(k) ensures u in a {
      assert u in head || u in mid;
    }
  }

  lemma OutsideOf(D: set<Id>, G: set<Id>, a: seq<Id>)
    requires Distinct(a) && (forall u :: u in a ==> u !in G) && D - G <= Elements(a)
    ensures |Filter(MemberOf(D), a)| == |D - G|
  {
    var s := Filter(MemberOf(D), a);
    FilterDistinct(MemberOf(D), a);
    forall u ensures u in s <==> u in D - G {
      assert u in D - G ==> u in Elements(a);
    }
    DistinctSize(s, D - G);
  }

  /** If enough lies outside G, the first ten do. */
  lemma TenOutside(D: set<Id>, G: set<Id>, a: seq<Id>, b: seq<Id>)
    requires Distinct(a) && (forall u :: u in a ==> u !in G) && D - G <= Elements(a)
    requires D * G == {} || |D - G| >= MAX_TRACE_BRANCHING
    ensures forall w | w in FirstTen(Filter(MemberOf(D), a + b)) :: w !in G
  {
    var s, t := Filter(MemberOf(D), a), Filter(MemberOf(D), b);
    FilterAppend(MemberOf(D), a, b);
    if |D - G| >= MAX_TRACE_BRANCHING {
      OutsideOf(D, G, a);
      FirstTenOfEnough(s, t);
    } else {
      FirstTenMembers(s + t);
      forall w | w in s + t ensures w in D && w !in G {
        assert w !in D * G;
      }
    }
  }

  lemma TenOutsideList(nodes: set<Id>, G: nat -> set<Id>, v: Id, n: nat, k: nat, D: set<Id>)
    requires Rising(G, v) && k <= n && D <= nodes && (D * G(k) == {} || |D - G(k)| >= MAX_TRACE_BRANCHING)
    ensures forall w | w in FirstTen(Filter(MemberOf(D), GuardsLast(nodes, G, n) + [v])) :: w !in G(k)
  {
    var a, b := GuardsLastSplit(nodes, G, v, n, k);
    TenOutside(D, G(k), a, b);
  }

  lemma NotForcedOutside(ids: set<Id>, below: Id -> set<Id>, v: Id, G: nat -> set<Id>, k: nat, u: Id)
    requires Guarding(ids, below, v, G) && k > 0 && u in ids && u !in G(k)
    ensures !Forced(below(u), G(k - 1))
  {
    assert GuardRound(ids, below, G, k, u);
  }

  lemma NextGuardsLast(g: Software, v: Id, G: nat -> set<Id>, n: nat, u: Id)
    requires Rising(G, v)
    ensures DeclaredDescendants(g, u) <= Merged(g).nodes
    ensures var list := GuardsLast(Merged(g).nodes, G, n) + [v];
            NextIn(g, OrderBy(list))(u) == FirstTen(Filter(MemberOf(DeclaredDescendants(g, u)), list))
  {
    MergedWellFormed(g);
    GuardsLastLists(Merged(g).nodes, G, v, n);
    NextByList(g, GuardsLast(Merged(g).nodes, G, n) + [v], u);
  }

  /** Listing guards last, none of rank k is followed from outside those of rank k + 1. */
  lemma GuardsNotEntered(g: Software, v: Id, G: nat -> set<Id>, n: nat, k: nat, u: Id)
    requires Guarding(Declared(g), Below(g), v, G) && 0 < k <= n && u in Declared(g) && u !in G(k)
    ensures forall w | w in NextIn(g, OrderBy(GuardsLast(Merged(g).nodes, G, n) + [v]))(u) :: w !in G(k - 1)
  {
    NextGuardsLast(g, v, G, n, u);
    NotForcedOutside(Declared(g), Below(g), v, G, k, u);
    TenOutsideList(Merged(g).nodes, G, v, n, k - 1, DeclaredDescendants(g, u));
  }

  /** A last element that is not among the first ten might as well not be there. */
  lemma LastNotFollowed(D: set<Id>, list: seq<Id>, v: Id)
    requires v !in list && v !in FirstTen(Filter(MemberOf(D), list + [v]))
    ensures FirstTen(Filter(MemberOf(D), list + [v])) == FirstTen(Filter(MemberOf(D - {v}), list + [v]))
  {
    var s := Filter(MemberOf(D), list);
    FilterSnoc(MemberOf(D), list, v);
    FilterSnoc(MemberOf(D - {v}), list, v);
    FilterCongruent(MemberOf(D), MemberOf(D - {v}), list);
    if v in D {
      assert (s + [v])[|s|] == v;
      assert |s| >= MAX_TRACE_BRANCHING;
      FirstTenOf(s, v);
    }
  }

  // ------------------------------------------------ cutting the last one off

  /** The ids the cut graph connects: the entry point and what it reaches, but for v. */
  ghost function Rest(g: Software, ep: Id, v: Id): set<Id> {
    DeclaredDescendants(g, ep) - {v} + {ep}
  }

  ghost function RestArcs(g: Software, ep: Id, v: Id): set<Arc> {
    set u, w | u in Rest(g, ep, v) && w in Rest(g, ep, v) && u != w && Reach(Arcs(g), u, w) :: (u, w)
  }

  ghost function CutOff(g: Software, ep: Id, v: Id): Software {
    GraphOf(Listing(Declared(g)), Listing(RestArcs(g, ep, v)))
  }

  lemma CutOffGraph(g: Software, ep: Id, v: Id)
    requires ep in Declared(g)
    ensures var h := CutOff(g, ep, v);
            Declared(h) == Declared(g) && Arcs(h) == RestArcs(g, ep, v) && Merged(h).nodes == Declared(g)
  {
    var ids, arcs := Listing(Declared(g)), Listing(RestArcs(g, ep, v));
    GraphOfIds(ids, arcs);
    GraphOfArcs(ids, arcs);
    GraphOfNodes(ids, arcs);
  }

  /** Among the rest the cut graph reaches what the graph reaches. */
  lemma CutOffDescendants(g: Software, ep: Id, v: Id, u: Id)
    requires ep in Declared(g) && u in Rest(g, ep, v)
    ensures DeclaredDescendants(CutOff(g, ep, v), u) == set w | w in Rest(g, ep, v) && w != u && Reach(Arcs(g), u, w)
  {
    var h, E, F := CutOff(g, ep, v), Arcs(g), RestArcs(g, ep, v);
    CutOffGraph(g, ep, v);
    forall w | w in Rest(g, ep, v) && w != u && Reach(E, u, w) ensures w in DeclaredDescendants(h, u) {
      assert (u, w) in F;
      ReachArc(F, u, w);
    }
    forall w | w in DeclaredDescendants(h, u) ensures w in Rest(g, ep, v) && w != u && Reach(E, u, w) {
      ReachSimulated(F, E, x => x, u, w);
      var x := ReachLast(F, u, w);
      assert (x, w) in F;
    }
  }

  /** The entry point loses v and nothing else. */
  lemma CutOffAtTop(g: Software, ep: Id, v: Id)
    requires ep in Declared(g) && v in DeclaredDescendants(g, ep)
    ensures DeclaredDescendants(CutOff(g, ep, v), ep) == DeclaredDescendants(g, ep) - {v}
  {
    CutOffDescendants(g, ep, v, ep);
  }

  lemma RestMember(g: Software, ep: Id, v: Id, u: Id, w: Id)
    requires ep in Declared(g) && v != ep && u in Rest(g, ep, v)
    ensures w in Rest(g, ep, v) && w != u && Reach(Arcs(g), u, w) <==> w in DeclaredDescendants(g, u) && w != v
  {
    MergedWellFormed(g);
    if w in DeclaredDescendants(g, u) && u != ep && w != ep {
      ReachTrans(Arcs(g), ep, u, w);
    }
  }

  /** No id of the rest loses anything but v. */
  lemma CutOffBelow(g: Software, ep: Id, v: Id, u: Id)
    requires ep in Declared(g) && v != ep && u in Rest(g, ep, v)
    ensures DeclaredDescendants(CutOff(g, ep, v), u) == DeclaredDescendants(g, u) - {v}
  {
    var after, before := DeclaredDescendants(CutOff(g, ep, v), u), DeclaredDescendants(g, u);
    CutOffDescendants(g, ep, v, u);
    forall w ensures w in after <==> w in before - {v} {
      RestMember(g, ep, v, u, w);
    }
  }

  /** Where v is not followed, the search sees no difference and stays among the rest. */
  lemma CutOffUnseen(g: Software, ep: Id, v: Id, list: seq<Id>, u: Id)
    requires ep in Declared(g) && v in DeclaredDescendants(g, ep) && u in Rest(g, ep, v)
    requires v !in list && Merged(g).nodes <= Elements(list + [v]) && v !in NextIn(g, OrderBy(list + [v]))(u)
    ensures NextIn(g, OrderBy(list + [v]))(u) == NextIn(CutOff(g, ep, v), OrderBy(list + [v]))(u)
    ensures forall w | w in NextIn(g, OrderBy(list + [v]))(u) :: w in Rest(g, ep, v)
  {
    var h, L := CutOff(g, ep, v), list + [v];
    CutOffGraph(g, ep, v);
    MergedWellFormed(g);
    NextByList(g, L, u);
    NextByList(h, L, u);
    CutOffBelow(g, ep, v, u);
    CutOffDescendants(g, ep, v, u);
    LastNotFollowed(DeclaredDescendants(g, u), list, v);
    FirstTenMembers(Filter(MemberOf(DeclaredDescendants(h, u)), L));
  }

  /** What a search at some depth visits when it starts outside the guards. */
  ghost function Unguarded(rest: set<Id>, G: nat -> set<Id>): nat -> set<Id> {
    (d: nat) => rest - G(d)
  }

  lemma CutOffAlikeAt(g: Software, ep: Id, v: Id, G: nat -> set<Id>, n: nat, d: nat, w: Id)
    requires Guarding(Declared(g), Below(g), v, G) && ep in Declared(g) && v in DeclaredDescendants(g, ep)
    requires 0 < d <= n && w in Rest(g, ep, v) && w !in G(d)
    ensures var order := OrderBy(GuardsLast(Merged(g).nodes, G, n) + [v]);
            && NextIn(g, order)(w) == NextIn(CutOff(g, ep, v), order)(w)
            && forall x | x in NextIn(g, order)(w) :: x in Rest(g, ep, v) && x !in G(d - 1)
  {
    GuardsLastLists(Merged(g).nodes, G, v, n);
    GuardsNotEntered(g, v, G, n, d, w);
    assert G(0) <= G(d - 1);
    CutOffUnseen(g, ep, v, GuardsLast(Merged(g).nodes, G, n), w);
  }

  lemma CutOffAlike(g: Software, ep: Id, v: Id, G: nat -> set<Id>, n: nat)
    requires Guarding(Declared(g), Below(g), v, G) && ep in Declared(g) && v in DeclaredDescendants(g, ep)
    ensures var order := OrderBy(GuardsLast(Merged(g).nodes, G, n) + [v]);
            Alike(NextIn(g, order), NextIn(CutOff(g, ep, v), order), Unguarded(Rest(g, ep, v), G), n)
  {
    var order := OrderBy(GuardsLast(Merged(g).nodes, G, n) + [v]);
    forall d: nat, w | 0 < d <= n && w in Unguarded(Rest(g, ep, v), G)(d)
      ensures NextIn(g, order)(w) == NextIn(CutOff(g, ep, v), order)(w)
      ensures forall x | x in NextIn(g, order)(w) :: x in Unguarded(Rest(g, ep, v), G)(d - 1)
    {
      CutOffAlikeAt(g, ep, v, G, n, d, w);
    }
  }

  lemma CutOffAccepted(g: Software, ep: Id, v: Id, G: nat -> set<Id>)
    requires Guarding(Declared(g), Below(g), v, G) && ep in Declared(g) && v in DeclaredDescendants(g, ep) && ep !in G(DEFAULT_TRACE_MAX_DEPTH)
    ensures Accepts(g, CutOff(g, ep, v), [ep], OrderBy(GuardsLast(Merged(g).nodes, G, DEFAULT_TRACE_MAX_DEPTH) + [v]))
  {
    var h, n := CutOff(g, ep, v), DEFAULT_TRACE_MAX_DEPTH;
    var order := OrderBy(GuardsLast(Merged(g).nodes, G, n) + [v]);
    CutOffGraph(g, ep, v);
    FilterAll(MemberOf(Declared(g)), [ep]);
    CutOffAlike(g, ep, v, G, n);
    SameTracesOfAll(NextIn(g, order), NextIn(h, order), Unguarded(Rest(g, ep, v), G), [ep], [], {}, n);
    assert ImproperlyRemoved(g, h, [ep]) == {};
  }

  /** What an entry point is no guard of, some accepted pass cuts off, under some order. */
  lemma UnguardedLost(g: Software, ep: Id, v: Id) returns (order: set<Id> -> seq<Id>, h: Software)
    requires ep in Declared(g) && v in DeclaredDescendants(g, ep) && ep !in Guards(g, v)(DEFAULT_TRACE_MAX_DEPTH)
    ensures IsListing(order) && Accepts(g, h, [ep], order) && Declared(h) == Declared(g)
    ensures DeclaredDescendants(h, ep) == DeclaredDescendants(g, ep) - {v}
  {
    var G := Guards(g, v);
    var list := GuardsLast(Merged(g).nodes, G, DEFAULT_TRACE_MAX_DEPTH) + [v];
    order, h := OrderBy(list), CutOff(g, ep, v);
    GuardsGuard(Declared(g), Below(g), v);
    GuardsLastLists(Merged(g).nodes, G, v, DEFAULT_TRACE_MAX_DEPTH);
    OrderByLists(list);
    CutOffAccepted(g, ep, v, G);
    CutOffGraph(g, ep, v);
    CutOffAtTop(g, ep, v);
  }

  /** Exactly what the check protects, in every graph: a declared descendant stays reachable from
      its entry point over every accepted pass, under every order of sets, if and only if the
      entry point guards it. */
  lemma GateProtectsExactly(g: Software, ep: Id, v: Id)
    requires ep in Declared(g) && v in DeclaredDescendants(g, ep)
    ensures (forall order, h :: IsListing(order) && Accepts(g, h, [ep], order) ==> v in DeclaredDescendants(h, ep))
       <==> ep in Guards(g, v)(DEFAULT_TRACE_MAX_DEPTH)
  {
    if ep in Guards(g, v)(DEFAULT_TRACE_MAX_DEPTH) {
      forall order, h | IsListing(order) && Accepts(g, h, [ep], order) ensures v in DeclaredDescendants(h, ep) {
        GuardedStays(g, h, [ep], order, ep, v);
      }
    } else {
      var order, h := UnguardedLost(g, ep, v);
      assert Accepts(g, h, [ep], order);
    }
  }

  // ------------------------------------------------- acyclic descendants

  /** No two declared descendants of the entry point reach each other. */
  ghost predicate AcyclicBelow(g: Software, ep: Id) {
    forall u, v | u in DeclaredDescendants(g, ep) && v in DeclaredDescendants(g, ep) && u != v :: !Mutual(Arcs(g), u, v)
  }

  /** Some member that no other member reaches. */
  lemma {:induction false} TopMember(E: set<Arc>, S: set<Id>) returns (v: Id)
    requires S != {} && forall x, y | x in S && y in S && x != y :: !Mutual(E, x, y)
    ensures v in S && forall x | x in S && x != v :: !Reach(E, x, v)
    decreases S
  {
    var w :| w in S;
    v := w;
    if S - {w} == {} {
      assert S == {w};
    } else {
      var top := TopMember(E, S - {w});
      if !Reach(E, w, top) {
        v := top;
      } else {
        forall x | x in S && x != w ensures !Reach(E, x, w) {
          assert x == top ==> !Mutual(E, w, x);
          if Reach(E, x, w) {
            ReachTrans(E, x, w, top);
          }
        }
      }
    }
  }

  lemma OnlyOneInside(D: set<Id>, before: set<Id>, v: Id)
    requires v in D && D * before <= {v}
    ensures |D - before| >= |D| - 1
  {
    SubsetSize(D - {v}, D - before);
  }

  /** ep has more than ten below it, and v is below none of the others. */
  ghost predicate Topmost(below: Id -> set<Id>, ep: Id, v: Id) {
    && v in below(ep) && |below(ep)| > MAX_TRACE_BRANCHING
    && forall x | x in below(ep) && x != v :: v !in below(x) && below(x) <= below(ep) + {ep}
  }

  lemma TopNotForced(below: Id -> set<Id>, ep: Id, v: Id, x: Id, before: set<Id>)
    requires Topmost(below, ep, v) && x in below(ep) + {ep} && x != v
    requires before * (below(ep) + {ep}) <= {v}
    ensures !Forced(below(x), before)
  {
    if x == ep {
      assert below(ep) * before <= {v};
      OnlyOneInside(below(ep), before, v);
    } else {
      forall y | y in below(x) ensures y !in before {
        assert y in before ==> y in before * (below(ep) + {ep});
      }
    }
  }

  /** Then nothing at or below ep guards v. */
  lemma {:induction false} TopUnguarded(ids: set<Id>, below: Id -> set<Id>, ep: Id, v: Id, G: nat -> set<Id>, k: nat)
    requires Topmost(below, ep, v) && Guarding(ids, below, v, G)
    ensures G(k) * (below(ep) + {ep}) <= {v}
    decreases k
  {
    if k > 0 {
      var before := G(k - 1);
      TopUnguarded(ids, below, ep, v, G, k - 1);
      forall x | x in below(ep) + {ep} && x != v ensures x !in G(k) {
        TopNotForced(below, ep, v, x, before);
        assert x in before ==> x in before * (below(ep) + {ep});
        assert GuardRound(ids, below, G, k, x);
      }
    }
  }

  lemma NoGuardOfTop(ids: set<Id>, below: Id -> set<Id>, ep: Id, v: Id, k: nat)
    requires Topmost(below, ep, v) && ep != v
    ensures ep !in GuardsOf(ids, below, v)(k)
  {
    var S := GuardsOf(ids, below, v)(k);
    GuardsGuard(ids, below, v);
    TopUnguarded(ids, below, ep, v, GuardsOf(ids, below, v), k);
    assert ep in S ==> ep in S * (below(ep) + {ep});
  }

  lemma BelowIsBelow(g: Software, ep: Id, x: Id)
    requires ep in Declared(g) && x in DeclaredDescendants(g, ep)
    ensures DeclaredDescendants(g, x) <= DeclaredDescendants(g, ep) + {ep}
  {
    MergedWellFormed(g);
    forall y | y in DeclaredDescendants(g, x) ensures y in DeclaredDescendants(g, ep) + {ep} {
      ReachTrans(Arcs(g), ep, x, y);
    }
  }

  lemma SomeTopmost(g: Software, ep: Id) returns (v: Id)
    requires ep in Declared(g) && AcyclicBelow(g, ep) && |DeclaredDescendants(g, ep)| > MAX_TRACE_BRANCHING
    ensures Topmost(Below(g), ep, v)
  {
    v := TopMember(Arcs(g), DeclaredDescendants(g, ep));
    forall x | x in DeclaredDescendants(g, ep) && x != v
      ensures v !in DeclaredDescendants(g, x) && DeclaredDescendants(g, x) <= DeclaredDescendants(g, ep) + {ep}
    {
      BelowIsBelow(g, ep, x);
    }
  }

  /** With more than ten acyclic ones, some accepted pass under some order disconnects one of them. */
  lemma OneCanBeLost(g: Software, ep: Id) returns (order: set<Id> -> seq<Id>, h: Software)
    requires ep in Declared(g) && AcyclicBelow(g, ep) && |DeclaredDescendants(g, ep)| > MAX_TRACE_BRANCHING
    ensures IsListing(order) && Accepts(g, h, [ep], order) && Declared(h) == Declared(g)
    ensures DeclaredDescendants(h, ep) < DeclaredDescendants(g, ep)
  {
    var v := SomeTopmost(g, ep);
    NoGuardOfTop(Declared(g), Below(g), ep, v, DEFAULT_TRACE_MAX_DEPTH);
    order, h := UnguardedLost(g, ep, v);
  }

  /** So where the declared descendants of an entry point are acyclic, it keeps them all exactly
      if there are at most ten. */
  lemma GateExactBelow(g: Software, ep: Id)
    requires ep in Declared(g) && AcyclicBelow(g, ep)
    ensures (forall order, h :: IsListing(order) && Accepts(g, h, [ep], order) ==>
                DeclaredDescendants(g, ep) <= DeclaredDescendants(h, ep))
       <==> |DeclaredDescendants(g, ep)| <= MAX_TRACE_BRANCHING
  {
    if |DeclaredDescendants(g, ep)| <= MAX_TRACE_BRANCHING {
      forall order, h | IsListing(order) && Accepts(g, h, [ep], order)
        ensures DeclaredDescendants(g, ep) <= DeclaredDescendants(h, ep)
      {
        GateSound(g, h, [ep], order, ep);
      }
    } else {
      var order, h := OneCanBeLost(g, ep);
      assert Accepts(g, h, [ep], order);
    }
  }
}
