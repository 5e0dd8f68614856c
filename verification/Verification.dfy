/** verification.py: bounded trace enumeration and the gate that compares the
    traces before and after a pass. */
module Verification {
  import opened Digraph
  import opened Lists
  import opened Sgir
  import opened GraphIndexing

  const DEFAULT_TRACE_MAX_DEPTH: nat := 50
  const MAX_TRACE_BRANCHING: nat := 10
  const RISK_MEDIUM_CHANGE_THRESHOLD: nat := 50

  datatype RiskLevel = LOW | MEDIUM | HIGH | CRITICAL

  datatype Report = Report(behaviorPreserved: bool, nodesAdded: nat, nodesRemoved: nat,
                           edgesAdded: nat, edgesRemoved: nat, risk: RiskLevel)

  function MemberOf(valid: set<Id>): Id -> bool {
    v => v in valid
  }

  function FirstTen(s: seq<Id>): seq<Id> {
    if |s| > MAX_TRACE_BRANCHING then s[..MAX_TRACE_BRANCHING] else s
  }

  /** The descendants the search follows from u: the first ten valid ones. */
  ghost function Explored(g: DiGraph, valid: set<Id>, order: set<Id> -> seq<Id>, u: Id): seq<Id> {
    FirstTen(Filter(MemberOf(valid), order(Descendants(g, u))))
  }

  ghost function Next(g: DiGraph, valid: set<Id>, order: set<Id> -> seq<Id>): Id -> seq<Id> {
    u => Explored(g, valid, order, u)
  }

  /** The traces the search records from u, when `next` lists what it follows. */
  ghost function Traces(next: Id -> seq<Id>, u: Id, path: seq<Id>, visited: set<Id>, depth: nat): set<seq<Id>>
    decreases depth, 0, |path|
  {
    if depth == 0 || u in visited || next(u) == [] then {path + [u]}
    else TracesOfAll(next, next(u), path + [u], visited + {u}, depth - 1)
  }

  ghost function TracesOfAll(next: Id -> seq<Id>, us: seq<Id>, path: seq<Id>, visited: set<Id>, depth: nat): set<seq<Id>>
    decreases depth, |us|, |path|
  {
    if us == [] then {}
    else TracesOfAll(next, us[..|us| - 1], path, visited, depth) + Traces(next, us[|us| - 1], path, visited, depth)
  }

  lemma TracesOfPrefix(next: Id -> seq<Id>, us: seq<Id>, k: nat, path: seq<Id>, visited: set<Id>, depth: nat)
    requires k < |us|
    ensures TracesOfAll(next, us[..k + 1], path, visited, depth)
         == TracesOfAll(next, us[..k], path, visited, depth) + Traces(next, us[k], path, visited, depth)
  {
    assert us[..k + 1][..k] == us[..k];
  }

  lemma TracesFrom(g: DiGraph, valid: set<Id>, order: set<Id> -> seq<Id>, u: Id, path: seq<Id>, visited: set<Id>, depth: nat)
    ensures var next := Next(g, valid, order); var successors := Filter(MemberOf(valid), order(Descendants(g, u)));
            Traces(next, u, path, visited, depth) ==
              if depth == 0 || u in visited then {path + [u]}
              else if successors == [] then {path + [u]}
              else TracesOfAll(next, FirstTen(successors), path + [u], visited + {u}, depth - 1)
  {
    assert Next(g, valid, order)(u) == FirstTen(Filter(MemberOf(valid), order(Descendants(g, u))));
  }

  lemma TracesOfSnoc(next: Id -> seq<Id>, us: seq<Id>, u: Id, path: seq<Id>, visited: set<Id>, depth: nat)
    ensures TracesOfAll(next, us + [u], path, visited, depth)
         == TracesOfAll(next, us, path, visited, depth) + Traces(next, u, path, visited, depth)
  {
    assert (us + [u])[..|us|] == us;
  }

  ghost function NextIn(g: Software, order: set<Id> -> seq<Id>): Id -> seq<Id> {
    Next(Merged(g), Declared(g), order)
  }

  /** Entry points that some layer declares. */
  ghost function Roots(g: Software, eps: seq<Id>): seq<Id> {
    Filter(MemberOf(Declared(g)), eps)
  }

  /** `build_trace_set` */
  ghost function TraceSet(g: Software, eps: seq<Id>, order: set<Id> -> seq<Id>, maxDepth: nat): set<seq<Id>> {
    TracesOfAll(NextIn(g, order), Roots(g, eps), [], {}, maxDepth)
  }

  ghost function ImproperlyRemoved(before: Software, after: Software, eps: seq<Id>): set<Id> {
    (Declared(before) - Declared(after)) * Live(Merged(before), eps)
  }

  /** The verdict of the gate. */
  ghost predicate Accepts(before: Software, after: Software, eps: seq<Id>, order: set<Id> -> seq<Id>) {
    && TraceSet(before, eps, order, DEFAULT_TRACE_MAX_DEPTH) <= TraceSet(after, eps, order, DEFAULT_TRACE_MAX_DEPTH)
    && ImproperlyRemoved(before, after, eps) == {}
  }

  function AssessRisk(changes: nat, behaviorPreserved: bool, improper: set<Id>): RiskLevel {
    if improper != {} then CRITICAL
    else if !behaviorPreserved then HIGH
    else if changes > RISK_MEDIUM_CHANGE_THRESHOLD then MEDIUM
    else LOW
  }

  // ------------------------------------------------------------ the search

  /** The mutable arguments of `dfs_traces`. */
  class Tracer {
    var path: seq<Id>
    var visited: set<Id>
    var traces: set<seq<Id>>

    constructor ()
      ensures path == [] && visited == {} && traces == {}
    {
      path, visited, traces := [], {}, {};
    }

    /** Adds the traces below `current` and restores `path` and `visited`. */
    method DfsTraces(index: GraphIndex, current: Id, valid: set<Id>, depthRemaining: nat,
                     order: set<Id> -> seq<Id>)
      requires index.Valid()
      modifies this, index`mergedCache
      ensures index.Valid() && path == old(path) && visited == old(visited)
      ensures traces == old(traces)
                        + Traces(Next(Merged(index.sg), valid, order), current, path, visited, depthRemaining)
      decreases depthRemaining, 0
    {
      TracesFrom(Merged(index.sg), valid, order, current, path, visited, depthRemaining);
      if depthRemaining == 0 || current in visited {
        traces := traces + {path + [current]};
        return;
      }
      visited := visited + {current};
      path := path + [current];
      var reachable := index.ReachableFrom(current);
      var successors := Filter(MemberOf(valid), order(reachable));
      if successors == [] {
        traces := traces + {path};
      } else {
        DfsEach(index, FirstTen(successors), valid, depthRemaining - 1, order);
      }
      path := path[..|path| - 1];
      visited := visited - {current};
    }

    /** The search goes on from each of the chosen successors. */
    method DfsEach(index: GraphIndex, chosen: seq<Id>, valid: set<Id>, depthRemaining: nat, order: set<Id> -> seq<Id>)
      requires index.Valid()
      modifies this, index`mergedCache
      ensures index.Valid() && path == old(path) && visited == old(visited)
      ensures traces == old(traces)
                        + TracesOfAll(Next(Merged(index.sg), valid, order), chosen, path, visited, depthRemaining)
      decreases depthRemaining, 1
    {
      ghost var next := Next(Merged(index.sg), valid, order);
      for k := 0 to |chosen|
        invariant index.Valid() && path == old(path) && visited == old(visited)
        invariant traces == old(traces) + TracesOfAll(next, chosen[..k], path, visited, depthRemaining)
      {
        TracesOfPrefix(next, chosen, k, path, visited, depthRemaining);
        DfsTraces(index, chosen[k], valid, depthRemaining, order);
      }
      assert chosen[..|chosen|] == chosen;
    }
  }

  /** The node ids of every layer. */
  method CollectNodeIds(g: Software) returns (ids: set<Id>)
    ensures ids == Declared(g)
  {
    ids := {};
    for i := 0 to |g.layers|
      invariant ids == set k, n | 0 <= k < i && n in g.layers[k].nodes :: n.id
    {
      ids := ids + NodeIds(g.layers[i]);
    }
  }

  /** The (source, target) pairs of every layer. */
  method CollectEdgeKeys(g: Software) returns (keys: set<Arc>)
    ensures keys == Arcs(g)
  {
    keys := {};
    for i := 0 to |g.layers|
      invariant keys == set k, e | 0 <= k < i && e in g.layers[k].edges :: (e.source, e.target)
    {
      keys := keys + LayerArcs(g.layers[i]);
    }
  }

  lemma TraceSetSnoc(g: Software, eps: seq<Id>, ep: Id, order: set<Id> -> seq<Id>, maxDepth: nat)
    ensures TraceSet(g, eps + [ep], order, maxDepth)
         == TraceSet(g, eps, order, maxDepth)
            + (if ep in Declared(g) then Traces(NextIn(g, order), ep, [], {}, maxDepth) else {})
  {
    FilterSnoc(MemberOf(Declared(g)), eps, ep);
    var roots := Roots(g, eps);
    if ep in Declared(g) {
      TracesOfSnoc(NextIn(g, order), roots, ep, [], {}, maxDepth);
    } else {
      assert roots + [] == roots;
    }
  }

  method BuildTraceSet(g: Software, index: GraphIndex, eps: seq<Id>, order: set<Id> -> seq<Id>,
                       maxDepth: nat := DEFAULT_TRACE_MAX_DEPTH)
    returns (traces: set<seq<Id>>)
    requires index.Valid() && index.sg == g
    modifies index`mergedCache
    ensures index.Valid() && traces == TraceSet(g, eps, order, maxDepth)
  {
    var tracer := new Tracer();
    var allIds := CollectNodeIds(g);
    for k := 0 to |eps|
      invariant index.Valid() && tracer.path == [] && tracer.visited == {}
      invariant tracer.traces == TraceSet(g, eps[..k], order, maxDepth)
    {
      TraceSetSnoc(g, eps[..k], eps[k], order, maxDepth);
      assert eps[..k + 1] == eps[..k] + [eps[k]];
      if eps[k] !in allIds {
        continue;
      }
      tracer.DfsTraces(index, eps[k], allIds, maxDepth, order);
    }
    assert eps[..|eps|] == eps;
    traces := tracer.traces;
  }

  lemma LiveAppendCommon(g: DiGraph, eps: seq<Id>, ep: Id, reachable: set<Id>, declared: set<Id>)
    requires declared <= g.nodes && reachable * declared == Live(g, eps) * declared
    ensures var added := reachable + Descendants(g, ep);
            && (ep in declared ==> (added + {ep}) * declared == Live(g, eps + [ep]) * declared)
            && (ep !in declared ==> added * declared == Live(g, eps + [ep]) * declared)
  {
    LiveAppend(g, eps, ep);
    var live, d := Live(g, eps), Descendants(g, ep);
    assert (reachable + d) * declared == (live + d) * declared by {
      assert (reachable + d) * declared == reachable * declared + d * declared;
      assert (live + d) * declared == live * declared + d * declared;
    }
    if ep in declared {
      assert (reachable + d + {ep}) * declared == (reachable + d) * declared + {ep};
      assert (live + (d + {ep})) * declared == (live + d) * declared + {ep};
    } else if ep in g.nodes {
      assert (live + (d + {ep})) * declared == (live + d) * declared;
    }
  }

  lemma NothingLost<T>(a: set<T>, b: set<T>)
    ensures a - b == {} <==> a <= b
  {
    if a - b == {} {
      forall x | x in a ensures x in b {
        assert x !in a - b;
      }
    }
  }

  class VerificationAgent {
    const before: Software
    const after: Software
    const entryPoints: seq<Id>
    const beforeIndex: GraphIndex
    const afterIndex: GraphIndex

    ghost predicate Valid()
      reads this, beforeIndex, afterIndex
    {
      && beforeIndex != afterIndex
      && beforeIndex.Valid() && beforeIndex.sg == before
      && afterIndex.Valid() && afterIndex.sg == after
    }

    constructor (before: Software, after: Software, entryPoints: seq<Id>)
      requires before.Keyed() && after.Keyed()
      ensures Valid() && fresh(beforeIndex) && fresh(afterIndex)
      ensures this.before == before && this.after == after && this.entryPoints == entryPoints
    {
      this.before, this.after, this.entryPoints := before, after, entryPoints;
      beforeIndex := new GraphIndex(before);
      afterIndex := new GraphIndex(after);
    }

    method Verify(order: set<Id> -> seq<Id>) returns (report: Report)
      requires Valid()
      modifies beforeIndex`mergedCache, afterIndex`mergedCache
      ensures Valid()
      ensures report.behaviorPreserved == Accepts(before, after, entryPoints, order)
      ensures report.nodesAdded == |Declared(after) - Declared(before)|
      ensures report.nodesRemoved == |Declared(before) - Declared(after)|
      ensures report.edgesAdded == |Arcs(after) - Arcs(before)|
      ensures report.edgesRemoved == |Arcs(before) - Arcs(after)|
      ensures report.risk.CRITICAL? <==> ImproperlyRemoved(before, after, entryPoints) != {}
      ensures report.risk in {LOW, MEDIUM} <==> report.behaviorPreserved
      ensures report.risk.MEDIUM? <==>
                report.behaviorPreserved
                && report.nodesAdded + report.nodesRemoved + report.edgesAdded + report.edgesRemoved > 50
    {
      var beforeNodes := CollectNodeIds(before);
      var afterNodes := CollectNodeIds(after);
      var beforeEdges := CollectEdgeKeys(before);
      var afterEdges := CollectEdgeKeys(after);

      var behaviorPreserved := true;
      var tracesBefore := BuildTraceSet(before, beforeIndex, entryPoints, order);
      var tracesAfter := BuildTraceSet(after, afterIndex, entryPoints, order);
      NothingLost(tracesBefore, tracesAfter);
      if tracesBefore - tracesAfter != {} {
        behaviorPreserved := false;
      }

      var reachableBefore := ReachableBefore(beforeNodes);
      var improper := (beforeNodes - afterNodes) * reachableBefore;
      assert improper == (beforeNodes - afterNodes) * (reachableBefore * beforeNodes);
      assert improper == (beforeNodes - afterNodes) * (Live(Merged(before), entryPoints) * beforeNodes);
      if improper != {} {
        behaviorPreserved := false;
      }
      var na, nr := |afterNodes - beforeNodes|, |beforeNodes - afterNodes|;
      var ea, er := |afterEdges - beforeEdges|, |beforeEdges - afterEdges|;
      report := Report(behaviorPreserved, na, nr, ea, er,
                       AssessRisk(na + nr + ea + er, behaviorPreserved, improper));
    }

    /** Descendants of every entry point, with the declared entry points themselves. */
    method ReachableBefore(beforeNodes: set<Id>) returns (reachable: set<Id>)
      requires Valid() && beforeNodes == Declared(before)
      modifies beforeIndex`mergedCache
      ensures Valid() && reachable * beforeNodes == Live(Merged(before), entryPoints) * beforeNodes
    {
      reachable := {};
      ghost var g := Merged(before);
      MergedWellFormed(before);
      for k := 0 to |entryPoints|
        invariant Valid()
        invariant reachable * beforeNodes == Live(g, entryPoints[..k]) * beforeNodes
      {
        var ep := entryPoints[k];
        assert entryPoints[..k + 1] == entryPoints[..k] + [ep];
        LiveAppendCommon(g, entryPoints[..k], ep, reachable, beforeNodes);
        var d := beforeIndex.ReachableFrom(ep);
        reachable := reachable + d;
        if ep in beforeNodes {
          reachable := reachable + {ep};
        }
      }
      assert entryPoints[..|entryPoints|] == entryPoints;
    }
  }
}
