/** state.py, `StateStore`: the runs table. Every method is one locked transaction, so each is
    one atomic change of a map from run id to row. */
module RunStore {
  import opened Wrappers

  type RunId = string

  datatype Status = PENDING | RUNNING | SUCCEEDED | FAILED | CANCELLED

  /** Payloads are kept as the JSON text the table stores. */
  datatype Row = Row(agentName: string, tenantId: string, input: string, status: Status, output: Option<string>,
                     error: Option<string>, attempts: int, maxRetries: int, createdAt: real, updatedAt: real, durationMs: int)

  type Rows = map<RunId, Row>

  /** What a claim hands to the worker. */
  datatype Claim = Claim(runId: RunId, agentName: string, input: string, tenantId: string, attempt: int)

  function NewRow(agentName: string, tenantId: string, input: string, maxRetries: int, now: real): Row {
    Row(agentName, tenantId, input, PENDING, None, None, 0, maxRetries, now, now, 0)
  }

  function Pending(rows: Rows): set<RunId> {
    set id | id in rows && rows[id].status == PENDING
  }

  /** A run the claim may pick: pending, and none pending is older. Ties are open. */
  predicate Oldest(rows: Rows, id: RunId) {
    id in Pending(rows) && forall other | other in Pending(rows) :: rows[id].createdAt <= rows[other].createdAt
  }

  /** One more attempt would exceed the row's budget. */
  predicate Exhausted(row: Row) {
    row.attempts + 1 > row.maxRetries
  }

  function Claimed(rows: Rows, id: RunId, now: real): Rows
    requires id in rows
  {
    var row := rows[id];
    if Exhausted(row) then rows[id := row.(status := FAILED, updatedAt := now)]
    else rows[id := row.(status := RUNNING, attempts := row.attempts + 1, updatedAt := now)]
  }

  function ClaimOf(rows: Rows, id: RunId): Claim
    requires id in rows
  {
    var row := rows[id];
    Claim(id, row.agentName, row.input, row.tenantId, row.attempts + 1)
  }

  /** The current status is not looked at; a missing run is left missing. */
  function Completed(rows: Rows, id: RunId, status: Status, output: Option<string>, error: Option<string>,
                     durationMs: int, now: real): Rows {
    if id in rows
    then rows[id := rows[id].(status := status, output := output, error := error, durationMs := durationMs, updatedAt := now)]
    else rows
  }

  /** Neither here. */
  function Requeued(rows: Rows, id: RunId, nextAttempt: int, now: real): Rows {
    if id in rows then rows[id := rows[id].(status := PENDING, attempts := nextAttempt, updatedAt := now)] else rows
  }

  predicate Cancellable(rows: Rows, id: RunId) {
    id in rows && (rows[id].status == PENDING || rows[id].status == RUNNING)
  }

  function Cancelled(rows: Rows, id: RunId, now: real): Rows {
    if Cancellable(rows, id) then rows[id := rows[id].(status := CANCELLED, updatedAt := now)] else rows
  }

  predicate Expired(row: Row, cutoff: real) {
    row.status == RUNNING && row.updatedAt < cutoff
  }

  function Unexpired(rows: Rows, cutoff: real): Rows {
    map id | id in rows && !Expired(rows[id], cutoff) :: rows[id]
  }

  /** Some pending run is oldest. */
  lemma {:induction false} OldestOf(rows: Rows, ids: set<RunId>) returns (id: RunId)
    requires ids != {} && ids <= Pending(rows)
    ensures id in ids && forall other | other in ids :: rows[id].createdAt <= rows[other].createdAt
    decreases ids
  {
    id :| id in ids;
    if ids - {id} != {} {
      var best := OldestOf(rows, ids - {id});
      if rows[best].createdAt < rows[id].createdAt {
        id := best;
      }
    }
  }

  /** The oldest pending run id is handed out with one more attempt, or fails if that is more than
      it may have. */
  ghost predicate Takes(before: Rows, after: Rows, claim: Option<Claim>, id: RunId, now: real) {
    && id in before && before[id].status == PENDING
    && (forall other | other in before && before[other].status == PENDING :: before[id].createdAt <= before[other].createdAt)
    && var row := before[id];
       if row.attempts + 1 > row.maxRetries
       then claim == None && after == before[id := row.(status := FAILED, updatedAt := now)]
       else && claim == Some(Claim(id, row.agentName, row.input, row.tenantId, row.attempts + 1))
            && after == before[id := row.(status := RUNNING, attempts := row.attempts + 1, updatedAt := now)]
  }

  class StateStore {
    var rows: Rows
    const runTtlSeconds: int

    constructor (runTtlSeconds: int)
      ensures rows == map[] && this.runTtlSeconds == runTtlSeconds
    {
      rows := map[];
      this.runTtlSeconds := runTtlSeconds;
    }

    /** Fails, changing nothing, exactly if the id is taken. */
    method Enqueue(runId: RunId, agentName: string, tenantId: string, input: string, maxRetries: int, now: real)
      returns (ok: bool)
      modifies this
      ensures ok <==> runId !in old(rows)
      ensures rows == if ok then old(rows)[runId := Row(agentName, tenantId, input, PENDING, None, None, 0, maxRetries, now, now, 0)]
                      else old(rows)
    {
      ok := runId !in rows;
      if ok {
        rows := rows[runId := NewRow(agentName, tenantId, input, maxRetries, now)];
      }
    }

    /** The id the query's ordering puts first. */
    method OldestPending() returns (id: RunId)
      requires Pending(rows) != {}
      ensures Oldest(rows, id)
    {
      ghost var first := OldestOf(rows, Pending(rows));
      id :| id in Pending(rows) && forall other | other in Pending(rows) :: rows[id].createdAt <= rows[other].createdAt;
    }

    /** Takes an oldest pending run, or fails it if its attempts are used up. */
    method ClaimNext(now: real) returns (claim: Option<Claim>)
      modifies this
      ensures (forall id | id in old(rows) :: old(rows)[id].status != PENDING) ==> claim == None && rows == old(rows)
      ensures (exists id :: id in old(rows) && old(rows)[id].status == PENDING) ==>
        exists id :: Takes(old(rows), rows, claim, id, now)
      ensures Pending(old(rows)) == {} ==> claim == None && rows == old(rows)
      ensures Pending(old(rows)) != {} ==>
        exists id :: Oldest(old(rows), id) && rows == Claimed(old(rows), id, now)
                     && claim == (if Exhausted(old(rows)[id]) then None else Some(ClaimOf(old(rows), id)))
    {
      ghost var before := rows;
      var pending := Pending(rows);
      if pending == {} {
        assert forall id | id in rows :: id !in pending;
        return None;
      }
      var id := OldestPending();
      var row := rows[id];
      var attempts := row.attempts + 1;
      if attempts > row.maxRetries {
        rows := rows[id := row.(status := FAILED, updatedAt := now)];
        assert Takes(before, rows, None, id, now);
        return None;
      }
      rows := rows[id := row.(status := RUNNING, attempts := attempts, updatedAt := now)];
      claim := Some(Claim(id, row.agentName, row.input, row.tenantId, attempts));
      assert Takes(before, rows, claim, id, now);
    }

    method Complete(runId: RunId, status: Status, output: Option<string>, error: Option<string>, durationMs: int, now: real)
      modifies this
      ensures runId !in old(rows) ==> rows == old(rows)
      ensures runId in old(rows) ==>
        rows == old(rows)[runId := old(rows)[runId].(status := status, output := output, error := error,
                                                    durationMs := durationMs, updatedAt := now)]
      ensures rows == Completed(old(rows), runId, status, output, error, durationMs, now)
    {
      if runId in rows {
        rows := rows[runId := rows[runId].(status := status, output := output, error := error,
                                           durationMs := durationMs, updatedAt := now)];
      }
    }

    method Requeue(runId: RunId, nextAttempt: int, now: real)
      modifies this
      ensures runId !in old(rows) ==> rows == old(rows)
      ensures runId in old(rows) ==>
        rows == old(rows)[runId := old(rows)[runId].(status := PENDING, attempts := nextAttempt, updatedAt := now)]
      ensures rows == Requeued(old(rows), runId, nextAttempt, now)
    {
      if runId in rows {
        rows := rows[runId := rows[runId].(status := PENDING, attempts := nextAttempt, updatedAt := now)];
      }
    }

    method Cancel(runId: RunId, now: real) returns (cancelled: bool)
      modifies this
      ensures cancelled <==> runId in old(rows) && (old(rows)[runId].status == PENDING || old(rows)[runId].status == RUNNING)
      ensures rows == if cancelled then old(rows)[runId := old(rows)[runId].(status := CANCELLED, updatedAt := now)] else old(rows)
      ensures rows == Cancelled(old(rows), runId, now)
    {
      if runId !in rows || (rows[runId].status != PENDING && rows[runId].status != RUNNING) {
        return false;
      }
      rows := rows[runId := rows[runId].(status := CANCELLED, updatedAt := now)];
      return true;
    }

    /** Deletes the running rows last touched before the cutoff, and counts them. */
    method CloseExpired(now: real) returns (deleted: nat)
      modifies this
      ensures forall id :: id in rows <==>
                id in old(rows) && !(old(rows)[id].status == RUNNING && old(rows)[id].updatedAt < now - runTtlSeconds as real)
      ensures forall id | id in rows :: rows[id] == old(rows)[id]
      ensures rows == Unexpired(old(rows), now - runTtlSeconds as real)
      ensures deleted == |set id | id in old(rows) && Expired(old(rows)[id], now - runTtlSeconds as real)|
    {
      var cutoff := now - runTtlSeconds as real;
      var gone := set id | id in rows && Expired(rows[id], cutoff);
      rows := rows - gone;
      deleted := |gone|;
    }
  }
}
