/** What a pass that the bounded trace check accepts is guaranteed to keep. */
module Gate {
  import opened Digraph
  import opened Lists
  import opened Sgir
  import opened GraphIndexing
  import opened DeadNodes
  import opened Verification

  ghost function DeclaredDescendants(g: Software, u: Id): set<Id> {
    Descendants(Merged(g), u) * Declared(g)
  }

  // --------------------------------------------------------- trace anatomy

  lemma {:induction false} InTracesOfAll(next: Id -> seq<Id>, us: seq<Id>, path: seq<Id>, visited: set<Id>, depth: nat, t: seq<Id>)
    ensures t in TracesOfAll(next, us, path, visited, depth)
       <==> exists u :: u in us && t in Traces(next, u, path, visited, depth)
    decreases |us|
  {
    if us != [] {
      var n := |us| - 1;
      assert us == us[..n] + [us[n]];
      InTracesOfAll(next, us[..n], path, visited, depth, t);
      if t in Traces(next, us[n], path, visited, depth) {
        assert us[n] in us;
      }
    }
  }

  /** A trace extends its prefix by the current node, then moves along explored steps. */
  ghost predicate TraceFrom(next: Id -> seq<Id>, path: seq<Id>, u: Id, t: seq<Id>) {
    && |path| < |t| && t[..|path|] == path && t[|path|] == u
    && forall i {:trigger t[i]} | |path| < i < |t| :: t[i] in next(t[i - 1])
  }

  lemma {:induction false} TraceShape(next: Id -> seq<Id>, u: Id, path: seq<Id>, visited: set<Id>, depth: nat, t: seq<Id>)
    requires t in Traces(next, u, path, visited, depth)
    ensures TraceFrom(next, path, u, t)
    ensures depth > 0 && u !in visited && next(u) != [] ==> |t| >= |path| + 2
    decreases depth
  {
    if !(depth == 0 || u in visited || next(u) == []) {
      InTracesOfAll(next, next(u), path + [u], visited + {u}, depth - 1, t);
      var v :| v in next(u) && t in Traces(next, v, path + [u], visited + {u}, depth - 1);
      TraceShape(next, v, path + [u], visited + {u}, depth - 1, t);
      assert t[..|path|] == t[..|path| + 1][..|path|];
      assert t[|path|] == t[..|path| + 1][|path|];
    }
  }

  /** Every call of the search records at least one trace. */
  lemma {:induction false} TraceRecorded(next: Id -> seq<Id>, u: Id, path: seq<Id>, visited: set<Id>, depth: nat)
    returns (t: seq<Id>)
    ensures t in Traces(next, u, path, visited, depth)
    decreases depth
  {
    if depth == 0 || u in visited || next(u) == [] {
      t := path + [u];
    } else {
      var v := next(u)[0];
      t := TraceRecorded(next, v, path + [u], visited + {u}, depth - 1);
      InTracesOfAll(next, next(u), path + [u], visited + {u}, depth - 1, t);
    }
  }

  /** Some trace of a search goes on to any node it explores first. */
  lemma TraceOnTo(next: Id -> seq<Id>, u: Id, path: seq<Id>, visited: set<Id>, depth: nat, v: Id) returns (t: seq<Id>)
    requires depth > 0 && u !in visited && v in next(u)
    ensures t in Traces(next, u, path, visited, depth)
    ensures |t| >= |path| + 2 && t[|path|] == u && t[|path| + 1] == v
  {
    t := TraceRecorded(next, v, path + [u], visited + {u}, depth - 1);
    TraceShape(next, v, path + [u], visited + {u}, depth - 1, t);
    assert t[|path|] == t[..|path| + 1][|path|];
    InTracesOfAll(next, next(u), path + [u], visited + {u}, depth - 1, t);
  }

  lemma SecondStep(next: Id -> seq<Id>, u: Id, t: seq<Id>)
    requires TraceFrom(next, [], u, t)
    ensures |t| > 2 ==> t[2] in next(t[1])
  {
  }

  /** Below a root whose followed nodes are all leaves, the traces are single steps. */
  lemma ShallowTraces(next: Id -> seq<Id>, u: Id, depth: nat, t: seq<Id>)
    requires depth > 0 && next(u) != [] && forall v | v in next(u) :: next(v) == []
    ensures t in TracesOfAll(next, [u], [], {}, depth) <==> |t| == 2 && t[0] == u && t[1] in next(u)
  {
    InTracesOfAll(next, [u], [], {}, depth, t);
    if t in TracesOfAll(next, [u], [], {}, depth) {
      TraceShape(next, u, [], {}, depth, t);
      assert t[1] in next(t[0]);
      SecondStep(next, u, t);
    }
    if |t| == 2 && t[0] == u && t[1] in next(u) {
      InTracesOfAll(next, next(u), [] + [u], {} + {u}, depth - 1, t);
      assert t == [] + [u] + [t[1]];
      assert t in Traces(next, t[1], [] + [u], {} + {u}, depth - 1);
    }
  }

  lemma TraceSetShape(g: Software, eps: seq<Id>, order: set<Id> -> seq<Id>, n: nat, t: seq<Id>)
    requires t in TraceSet(g, eps, order, n)
    ensures |t| > 0 && t[0] in eps && t[0] in Declared(g) && TraceFrom(NextIn(g, order), [], t[0], t)
  {
    InTracesOfAll(NextIn(g, order), Roots(g, eps), [], {}, n, t);
    var u :| u in Roots(g, eps) && t in Traces(NextIn(g, order), u, [], {}, n);
    TraceShape(NextIn(g, order), u, [], {}, n, t);
  }

  /** Some recorded trace starts at a declared entry point. */
  lemma TraceStart(g: Software, eps: seq<Id>, order: set<Id> -> seq<Id>, n: nat, ep: Id)
    returns (t: seq<Id>)
    requires ep in eps && ep in Declared(g)
    ensures t in TraceSet(g, eps, order, n) && |t| > 0 && t[0] == ep
  {
    t := TraceRecorded(NextIn(g, order), ep, [], {}, n);
    InTracesOfAll(NextIn(g, order), Roots(g, eps), [], {}, n, t);
    TraceShape(NextIn(g, order), ep, [], {}, n, t);
  }

  /** Some recorded trace goes on from a declared entry point to any node explored from it. */
  lemma TraceThrough(g: Software, eps: seq<Id>, order: set<Id> -> seq<Id>, n: nat, ep: Id, v: Id)
    returns (t: seq<Id>)
    requires n > 0 && ep in eps && ep in Declared(g) && v in NextIn(g, order)(ep)
    ensures t in TraceSet(g, eps, order, n) && |t| >= 2 && t[0] == ep && t[1] == v
  {
    t := TraceOnTo(NextIn(g, order), ep, [], {}, n, v);
    InTracesOfAll(NextIn(g, order), Roots(g, eps), [], {}, n, t);
  }

  /** And on from there to any node explored next. */
  lemma TraceThroughTwo(g: Software, eps: seq<Id>, order: set<Id> -> seq<Id>, n: nat, ep: Id, u: Id, v: Id)
    returns (t: seq<Id>)
    requires n > 1 && ep in eps && ep in Declared(g)
    requires u in NextIn(g, order)(ep) && u != ep && v in NextIn(g, order)(u)
    ensures t in TraceSet(g, eps, order, n) && |t| >= 3 && t[0] == ep && t[1] == u && t[2] == v
  {
    var next := NextIn(g, order);
    t := TraceOnTo(next, u, [] + [ep], {} + {ep}, n - 1, v);
    InTracesOfAll(next, next(ep), [] + [ep], {} + {ep}, n - 1, t);
    assert t in Traces(next, ep, [], {}, n);
    TraceShape(next, ep, [], {}, n, t);
    InTracesOfAll(next, Roots(g, eps), [], {}, n, t);
  }

  /** `next` lists distinct members of S: ten of them, or all if there are at most ten. */
  ghost predicate Follows(S: set<Id>, next: seq<Id>) {
    && Distinct(next) && |next| <= MAX_TRACE_BRANCHING
    && (forall v | v in next :: v in S)
    && (|S| <= MAX_TRACE_BRANCHING ==> forall v | v in S :: v in next)
    && (|S| >= MAX_TRACE_BRANCHING ==> |next| == MAX_TRACE_BRANCHING)
    && (S != {} ==> next != [])
  }

  lemma PrefixFollows(S: set<Id>, s: seq<Id>)
    requires Distinct(s) && forall v :: v in s <==> v in S
    ensures Follows(S, FirstTen(s))
  {
    DistinctSize(s, S);
    forall v | v in FirstTen(s) ensures v in s {}
    if v :| v in S {
      assert v in s;
    }
  }

  /** From any node the search follows its declared descendants, up to ten. */
  lemma ExploredMembers(g: Software, order: set<Id> -> seq<Id>, u: Id)
    requires IsListing(order)
    ensures Follows(DeclaredDescendants(g, u), NextIn(g, order)(u))
  {
    var listed := order(Descendants(Merged(g), u));
    var s := Filter(MemberOf(Declared(g)), listed);
    FilterDistinct(MemberOf(Declared(g)), listed);
    PrefixFollows(DeclaredDescendants(g, u), s);
    assert NextIn(g, order)(u) == FirstTen(s);
  }

  // -------------------------------------------------------- gate soundness

  /** Whatever the branching: each step of a trace recorded before an accepted
      pass is still a reachable, declared step after it. */
  lemma AcceptedTraceSteps(before: Software, after: Software, eps: seq<Id>, order: set<Id> -> seq<Id>, t: seq<Id>)
    requires IsListing(order) && Accepts(before, after, eps, order)
    requires t in TraceSet(before, eps, order, DEFAULT_TRACE_MAX_DEPTH)
    ensures |t| > 0 && t[0] in eps && t[0] in Declared(after)
    ensures forall i {:trigger t[i]} | 0 < i < |t| :: t[i] in DeclaredDescendants(after, t[i - 1])
  {
    TraceSetShape(after, eps, order, DEFAULT_TRACE_MAX_DEPTH, t);
    forall i {:trigger t[i]} | 0 < i < |t| ensures t[i] in DeclaredDescendants(after, t[i - 1]) {
      ExploredMembers(after, order, t[i - 1]);
    }
  }

  /** So every id on a trace recorded before stays declared and reachable from the entry point
      the trace starts at. This is what the check protects, whatever the branching. */
  lemma {:induction false} TracedStaysReachable(before: Software, after: Software, eps: seq<Id>, order: set<Id> -> seq<Id>,
                                                t: seq<Id>, i: nat)
    requires IsListing(order) && Accepts(before, after, eps, order)
    requires t in TraceSet(before, eps, order, DEFAULT_TRACE_MAX_DEPTH) && i < |t|
    ensures t[i] in Declared(after) && Reach(Arcs(after), t[0], t[i])
    ensures t[i] != t[0] ==> t[i] in DeclaredDescendants(after, t[0])
    decreases i
  {
    AcceptedTraceSteps(before, after, eps, order, t);
    MergedWellFormed(after);
    if i == 0 {
      ReachRefl(Arcs(after), t[0]);
    } else {
      TracedStaysReachable(before, after, eps, order, t, i - 1);
      assert t[i] in DeclaredDescendants(after, t[i - 1]);
      ReachTrans(Arcs(after), t[0], t[i - 1], t[i]);
    }
  }

  /** Acceptance keeps a declared entry point declared. */
  lemma AcceptedKeepsRoots(before: Software, after: Software, eps: seq<Id>, order: set<Id> -> seq<Id>, ep: Id)
    requires IsListing(order) && Accepts(before, after, eps, order)
    requires ep in eps && ep in Declared(before)
    ensures ep in Declared(after)
  {
    var t := TraceStart(before, eps, order, DEFAULT_TRACE_MAX_DEPTH, ep);
    TracedStaysReachable(before, after, eps, order, t, 0);
  }

  /** What one accepted pass keeps of an entry point: it stays declared, it reaches what it
      reached, and so does everything it reached. */
  ghost predicate KeepsBelow(before: Software, after: Software, ep: Id) {
    && ep in Declared(after)
    && DeclaredDescendants(before, ep) <= DeclaredDescendants(after, ep)
    && forall u | u in DeclaredDescendants(before, ep) :: DeclaredDescendants(before, u) <= DeclaredDescendants(after, u)
  }

  /** A descendant has no more declared descendants than the node it descends from. */
  lemma SwapSize(small: set<Id>, large: set<Id>, u: Id, v: Id)
    requires u in large && small <= large - {u} + {v}
    ensures |small| <= |large|
  {
    SubsetSize(small, large - {u} + {v});
  }

  lemma FewerBelow(g: Software, ep: Id, u: Id)
    requires ep in Declared(g) && u in DeclaredDescendants(g, ep)
    ensures |DeclaredDescendants(g, u)| <= |DeclaredDescendants(g, ep)|
  {
    var D := DeclaredDescendants(g, ep);
    MergedWellFormed(g);
    forall v | v in DeclaredDescendants(g, u) ensures v in D - {u} + {ep} {
      ReachTrans(Arcs(g), ep, u, v);
    }
    SwapSize(DeclaredDescendants(g, u), D, u, ep);
  }

  lemma GateSoundBelow(before: Software, after: Software, eps: seq<Id>, order: set<Id> -> seq<Id>, ep: Id, u: Id)
    requires IsListing(order) && Accepts(before, after, eps, order)
    requires ep in eps && ep in Declared(before) && u in DeclaredDescendants(before, ep)
    requires |DeclaredDescendants(before, ep)| <= MAX_TRACE_BRANCHING
    ensures DeclaredDescendants(before, u) <= DeclaredDescendants(after, u)
  {
    FewerBelow(before, ep, u);
    ExploredMembers(before, order, ep);
    ExploredMembers(before, order, u);
    forall v | v in DeclaredDescendants(before, u) ensures v in DeclaredDescendants(after, u) {
      var t := TraceThroughTwo(before, eps, order, DEFAULT_TRACE_MAX_DEPTH, ep, u, v);
      AcceptedTraceSteps(before, after, eps, order, t);
      assert t[2] in DeclaredDescendants(after, t[1]);
    }
  }

  /** Gate soundness: below an entry point with at most ten declared descendants an accepted
      pass keeps the whole reachability relation. */
  lemma GateSound(before: Software, after: Software, eps: seq<Id>, order: set<Id> -> seq<Id>, ep: Id)
    requires IsListing(order) && Accepts(before, after, eps, order)
    requires ep in eps && ep in Declared(before)
    requires |DeclaredDescendants(before, ep)| <= MAX_TRACE_BRANCHING
    ensures KeepsBelow(before, after, ep)
  {
    AcceptedKeepsRoots(before, after, eps, order, ep);
    ExploredMembers(before, order, ep);
    forall u | u in DeclaredDescendants(before, ep)
      ensures u in DeclaredDescendants(after, ep) && DeclaredDescendants(before, u) <= DeclaredDescendants(after, u)
    {
      var t := TraceThrough(before, eps, order, DEFAULT_TRACE_MAX_DEPTH, ep, u);
      TracedStaysReachable(before, after, eps, order, t, 1);
      GateSoundBelow(before, after, eps, order, ep, u);
    }
  }

  /** Whatever the branching, an accepted pass un-declares no id an entry point reaches. */
  lemma AcceptedKeepsLiveIds(before: Software, after: Software, eps: seq<Id>, order: set<Id> -> seq<Id>)
    requires Accepts(before, after, eps, order)
    ensures Declared(before) * Live(Merged(before), eps) <= Declared(after)
  {
    forall v | v in Declared(before) * Live(Merged(before), eps) ensures v in Declared(after) {
      assert v !in ImproperlyRemoved(before, after, eps);
    }
  }

  // ------------------------------------------- dead-node removal is accepted

  /** On the nodes that S gives for a depth, two searches go on alike, to nodes that S gives for
      the next. */
  ghost predicate Alike(next: Id -> seq<Id>, next': Id -> seq<Id>, S: nat -> set<Id>, depth: nat) {
    forall d: nat, w | 0 < d <= depth && w in S(d) :: next(w) == next'(w) && forall v | v in next(w) :: v in S(d - 1)
  }

  lemma {:induction false} SameTraces(next: Id -> seq<Id>, next': Id -> seq<Id>, S: nat -> set<Id>,
                                      u: Id, path: seq<Id>, visited: set<Id>, depth: nat)
    requires u in S(depth) && Alike(next, next', S, depth)
    ensures Traces(next, u, path, visited, depth) == Traces(next', u, path, visited, depth)
    decreases depth, 0
  {
    if !(depth == 0 || u in visited || next(u) == []) {
      SameTracesOfAll(next, next', S, next(u), path + [u], visited + {u}, depth - 1);
    }
  }

  /** Searches that go on alike record the same traces. */
  lemma {:induction false} SameTracesOfAll(next: Id -> seq<Id>, next': Id -> seq<Id>, S: nat -> set<Id>,
                                           us: seq<Id>, path: seq<Id>, visited: set<Id>, depth: nat)
    requires (forall u | u in us :: u in S(depth)) && Alike(next, next', S, depth)
    ensures TracesOfAll(next, us, path, visited, depth) == TracesOfAll(next', us, path, visited, depth)
    decreases depth, |us|
  {
    if us != [] {
      SameTracesOfAll(next, next', S, us[..|us| - 1], path, visited, depth);
      SameTraces(next, next', S, us[|us| - 1], path, visited, depth);
    }
  }

  /** A pass that changes neither the declared ids nor any descendant set is accepted. */
  lemma SameViewAccepted(g: Software, h: Software, eps: seq<Id>, order: set<Id> -> seq<Id>)
    requires IsListing(order) && Declared(g) == Declared(h)
    requires forall u :: Descendants(Merged(g), u) == Descendants(Merged(h), u)
    ensures Accepts(g, h, eps, order)
  {
    var S := Merged(g).nodes;
    MergedWellFormed(g);
    forall u ensures NextIn(g, order)(u) == NextIn(h, order)(u) && forall v | v in NextIn(g, order)(u) :: v in S {
      ExploredMembers(g, order, u);
    }
    SameTracesOfAll(NextIn(g, order), NextIn(h, order), _ => S, Roots(g, eps), [], {}, DEFAULT_TRACE_MAX_DEPTH);
    assert ImproperlyRemoved(g, h, eps) == {};
  }

  /** From a live node the search sees the same first ten descendants before and after. */
  lemma SameExplored(g: Software, eps: seq<Id>, order: set<Id> -> seq<Id>, u: Id)
    requires IsListing(order) && u in Live(Merged(g), eps)
    ensures NextIn(g, order)(u) == NextIn(RemoveDead(g, g, eps), order)(u)
    ensures forall v | v in NextIn(g, order)(u) :: v in Live(Merged(g), eps)
  {
    var h := RemoveDead(g, g, eps);
    DeadRemovalExact(g, eps);
    LiveArcsKept(g, eps);
    var listed := order(Descendants(Merged(g), u));
    forall v | v in listed ensures v in Live(Merged(g), eps) && (v in Declared(g) <==> v in Declared(h)) {
      ReachWithin(Arcs(g), Arcs(g), Live(Merged(g), eps), u, v);
    }
    FilterCongruent(MemberOf(Declared(g)), MemberOf(Declared(h)), listed);
    ExploredMembers(g, order, u);
  }

  /** Entry points are declared afterwards exactly if they were before, and then they are live. */
  lemma SameRoots(g: Software, eps: seq<Id>)
    ensures Roots(RemoveDead(g, g, eps), eps) == Roots(g, eps)
    ensures forall u | u in Roots(g, eps) :: u in Live(Merged(g), eps)
  {
    var h := RemoveDead(g, g, eps);
    DeadRemovalExact(g, eps);
    MergedWellFormed(g);
    forall v | v in eps && v in Declared(g) ensures v in Live(Merged(g), eps) {
      ReachRefl(Arcs(g), v);
    }
    FilterCongruent(MemberOf(Declared(g)), MemberOf(Declared(h)), eps);
  }

  /** Dead-node removal changes no trace set and is accepted, for any entry points. */
  lemma DeadRemovalAccepted(g: Software, eps: seq<Id>, order: set<Id> -> seq<Id>)
    requires IsListing(order)
    ensures var h := RemoveDead(g, g, eps);
            && (forall n: nat :: TraceSet(h, eps, order, n) == TraceSet(g, eps, order, n))
            && ImproperlyRemoved(g, h, eps) == {}
            && Accepts(g, h, eps, order)
  {
    var h := RemoveDead(g, g, eps);
    var live := Live(Merged(g), eps);
    forall n: nat ensures TraceSet(h, eps, order, n) == TraceSet(g, eps, order, n) {
      SameRoots(g, eps);
      forall w | w in live
        ensures NextIn(g, order)(w) == NextIn(h, order)(w) && forall v | v in NextIn(g, order)(w) :: v in live
      {
        SameExplored(g, eps, order, w);
      }
      SameTracesOfAll(NextIn(g, order), NextIn(h, order), _ => live, Roots(g, eps), [], {}, n);
    }
    DeadRemovalExact(g, eps);
    assert TraceSet(g, eps, order, DEFAULT_TRACE_MAX_DEPTH) <= TraceSet(h, eps, order, DEFAULT_TRACE_MAX_DEPTH);
  }
}
