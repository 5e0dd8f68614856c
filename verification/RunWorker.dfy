/** app.py, the worker side of the run queue. */
module RunWorker {
  import opened Wrappers
  import opened RunStore
  import opened Sums

  datatype Response = Response(status: string, output: Option<string>, error: Option<string>, durationMs: int)

  /** What invoking the agent came to: an exception, or a response. */
  datatype Outcome = Raised(message: string) | Answered(response: Response)

  /** The response's own error text, or its status if it has none or an empty one. */
  function FailureText(response: Response): (text: string)
    ensures response.error.Some? && response.error.value != "" ==> text == response.error.value
    ensures response.error.None? || response.error.value == "" ==> text == "transport status " + response.status
  {
    match response.error
    case Some(text) => if text != "" then text else "transport status " + response.status
    case None => "transport status " + response.status
  }

  predicate Retries(outcome: Outcome, limit: int, attempt: int) {
    outcome.Answered? && outcome.response.status != "ok" && attempt < limit
  }

  /** The table after a worker settles the run it holds. */
  function Settled(rows: Rows, id: RunId, attempt: int, outcome: Outcome, limit: int, now: real): Rows {
    match outcome
    case Raised(message) => Completed(rows, id, FAILED, None, Some(message), 0, now)
    case Answered(r) =>
      if r.status == "ok" then Completed(rows, id, SUCCEEDED, r.output, None, r.durationMs, now)
      else if Retries(outcome, limit, attempt) then Requeued(rows, id, attempt + 1, now)
      else Completed(rows, id, FAILED, None, Some(FailureText(r)), r.durationMs, now)
  }

  method RecordOutcome(state: StateStore, runId: RunId, response: Response, limit: int, attempt: int, now: real)
    modifies state
    ensures state.rows == Settled(old(state.rows), runId, attempt, Answered(response), limit, now)
    ensures runId !in old(state.rows) ==> state.rows == old(state.rows)
    ensures runId in old(state.rows) && response.status == "ok" ==>
      state.rows == old(state.rows)[runId := old(state.rows)[runId].(
        status := SUCCEEDED, output := response.output, error := None, durationMs := response.durationMs, updatedAt := now)]
    ensures runId in old(state.rows) && response.status != "ok" && attempt >= limit ==>
      state.rows == old(state.rows)[runId := old(state.rows)[runId].(
        status := FAILED, output := None, error := Some(FailureText(response)), durationMs := response.durationMs, updatedAt := now)]
    ensures runId in old(state.rows) && response.status != "ok" && attempt < limit ==>
      state.rows == old(state.rows)[runId := old(state.rows)[runId].(status := PENDING, attempts := attempt + 1, updatedAt := now)]
    ensures forall id | id != runId && id in old(state.rows) :: id in state.rows && state.rows[id] == old(state.rows)[id]
  {
    if response.status == "ok" {
      state.Complete(runId, SUCCEEDED, response.output, None, response.durationMs, now);
      return;
    }
    if attempt >= limit {
      var error := FailureText(response);
      state.Complete(runId, FAILED, None, Some(error), response.durationMs, now);
      return;
    }
    state.Requeue(runId, attempt + 1, now);
  }

  method ProcessClaim(state: StateStore, limit: int, claim: Claim, outcome: Outcome, now: real)
    modifies state
    ensures state.rows == Settled(old(state.rows), claim.runId, claim.attempt, outcome, limit, now)
    ensures outcome.Raised? && claim.runId in old(state.rows) ==>
      state.rows == old(state.rows)[claim.runId := old(state.rows)[claim.runId].(
        status := FAILED, output := None, error := Some(outcome.message), durationMs := 0, updatedAt := now)]
    ensures outcome.Answered? && outcome.response.status == "ok" && claim.runId in old(state.rows) ==>
      state.rows == old(state.rows)[claim.runId := old(state.rows)[claim.runId].(
        status := SUCCEEDED, output := outcome.response.output, error := None, durationMs := outcome.response.durationMs,
        updatedAt := now)]
  {
    match outcome {
      case Raised(message) => state.Complete(claim.runId, FAILED, None, Some(message), 0, now);
      case Answered(response) => RecordOutcome(state, claim.runId, response, limit, claim.attempt, now);
    }
  }

  // ------------------------------------------------------ one worker alone

  /** Turns a row can still ask of a lone worker. */
  function Load(row: Row): nat {
    if row.status != PENDING then 0
    else if Exhausted(row) then 1
    else 1 + (row.maxRetries - row.attempts)
  }

  ghost function LoadAt(rows: Rows): RunId -> nat {
    id => if id in rows then Load(rows[id]) else 0
  }

  ghost function TotalLoad(rows: Rows): nat {
    Sum(rows.Keys, LoadAt(rows))
  }

  /** Only pending runs were touched, and none appeared or disappeared. */
  ghost predicate OnlyPendingMoved(was: Rows, now: Rows) {
    && now.Keys == was.Keys
    && (forall id | id in was && was[id].status != PENDING :: now[id] == was[id])
    && (forall id | id in was :: now[id].status == RUNNING ==> was[id].status == RUNNING)
  }

  /** A claim, settled at once by the same worker. */
  function Turned(rows: Rows, id: RunId, outcome: Outcome, limit: int, now: real): Rows
    requires id in rows
  {
    var mid := Claimed(rows, id, now);
    if Exhausted(rows[id]) then mid else Settled(mid, id, rows[id].attempts + 1, outcome, limit, now)
  }

  lemma TurnedRow(rows: Rows, id: RunId, outcome: Outcome, limit: int, now: real)
    requires id in Pending(rows)
    ensures var after := Turned(rows, id, outcome, limit, now);
            && id in after && after == rows[id := after[id]]
            && after[id].status != RUNNING && Load(after[id]) < Load(rows[id])
  {
  }

  lemma LoadFalls(rows: Rows, id: RunId, outcome: Outcome, limit: int, now: real)
    requires id in Pending(rows)
    ensures OnlyPendingMoved(rows, Turned(rows, id, outcome, limit, now))
    ensures TotalLoad(Turned(rows, id, outcome, limit, now)) < TotalLoad(rows)
  {
    var after := Turned(rows, id, outcome, limit, now);
    TurnedRow(rows, id, outcome, limit, now);
    SumLess(rows.Keys, LoadAt(after), LoadAt(rows), id);
  }

  lemma NoLoadIffNonePending(rows: Rows)
    ensures TotalLoad(rows) == 0 <==> Pending(rows) == {}
  {
    SumZero(rows.Keys, LoadAt(rows));
    forall id | id in Pending(rows) ensures LoadAt(rows)(id) > 0 {
    }
    if Pending(rows) == {} {
      forall id | id in rows ensures LoadAt(rows)(id) == 0 {
        assert id !in Pending(rows);
      }
    }
  }

  /** One turn of the loop, nobody else at the store. */
  method WorkerTurn(state: StateStore, limit: int, invoke: Claim -> Outcome, now: real)
    modifies state
    ensures OnlyPendingMoved(old(state.rows), state.rows)
    ensures Pending(old(state.rows)) == {} ==> state.rows == old(state.rows)
    ensures Pending(old(state.rows)) != {} ==> TotalLoad(state.rows) < TotalLoad(old(state.rows))
  {
    ghost var was := state.rows;
    var claimed := state.ClaimNext(now);
    ghost var id := "";
    if Pending(was) != {} {
      id :| Oldest(was, id) && state.rows == Claimed(was, id, now)
            && claimed == (if Exhausted(was[id]) then None else Some(ClaimOf(was, id)));
    }
    if claimed.Some? {
      var outcome := invoke(claimed.value);
      ProcessClaim(state, limit, claimed.value, outcome, now);
      LoadFalls(was, id, outcome, limit, now);
    } else if Pending(was) != {} {
      LoadFalls(was, id, Raised(""), limit, now);
    }
  }

  /** The loop until the stop event is set after some number of polls: with nobody else at
      the store, enough polls leave nothing pending, and other rows are never touched. */
  method WorkerLoop(state: StateStore, limit: int, invoke: Claim -> Outcome, clock: nat -> real, polls: nat)
    modifies state
    ensures OnlyPendingMoved(old(state.rows), state.rows)
    ensures polls >= TotalLoad(old(state.rows)) ==> Pending(state.rows) == {}
  {
    for i := 0 to polls
      invariant OnlyPendingMoved(old(state.rows), state.rows)
      invariant Pending(state.rows) == {} || TotalLoad(state.rows) + i <= TotalLoad(old(state.rows))
    {
      WorkerTurn(state, limit, invoke, clock(i));
    }
    NoLoadIffNonePending(state.rows);
  }
}
