/** The run queue as a transition system: any number of workers, clients that submit and
    cancel, expiry sweeps, and workers that die, each acting through one store method. */
module RunQueue {
  import opened Wrappers
  import opened RunStore
  import opened RunWorker

  type Worker = nat

  /** The table, the claim each busy worker holds, every row as it was submitted, and every
      claim handed out so far. The last three are history; the store has only the rows. */
  datatype System = System(rows: Rows, held: map<Worker, Claim>, submitted: Rows, log: seq<Claim>)

  datatype Step =
    | Submit(id: RunId, agentName: string, tenantId: string, input: string, maxRetries: int, now: real)
    | Poll(worker: Worker, id: RunId, now: real)
    | Settle(worker: Worker, outcome: Outcome, limit: int, now: real)
    | Cancel(id: RunId, now: real)
    | Expire(cutoff: real)
    | Crash(worker: Worker)

  const INITIAL: System := System(map[], map[], map[], [])

  /** Ids are fresh; a poll names the oldest pending run it picked. */
  ghost predicate Enabled(s: System, step: Step) {
    match step
    case Submit(id, _, _, _, _, _) => id !in s.submitted
    case Poll(w, id, _) => w !in s.held && Oldest(s.rows, id)
    case Settle(w, _, _, _) => w in s.held
    case Cancel(_, _) => true
    case Expire(_) => true
    case Crash(w) => w in s.held
  }

  ghost function Next(s: System, step: Step): System
    requires Enabled(s, step)
  {
    match step
    case Submit(id, agentName, tenantId, input, maxRetries, now) =>
      var row := NewRow(agentName, tenantId, input, maxRetries, now);
      s.(rows := s.rows[id := row], submitted := s.submitted[id := row])
    case Poll(w, id, now) =>
      if Exhausted(s.rows[id]) then s.(rows := Claimed(s.rows, id, now))
      else s.(rows := Claimed(s.rows, id, now), held := s.held[w := ClaimOf(s.rows, id)], log := s.log + [ClaimOf(s.rows, id)])
    case Settle(w, outcome, limit, now) =>
      s.(rows := Settled(s.rows, s.held[w].runId, s.held[w].attempt, outcome, limit, now), held := s.held - {w})
    case Cancel(id, now) => s.(rows := Cancelled(s.rows, id, now))
    case Expire(cutoff) => s.(rows := Unexpired(s.rows, cutoff))
    case Crash(w) => s.(held := s.held - {w})
  }

  ghost predicate Execution(s: System, steps: seq<Step>)
    decreases |steps|
  {
    steps == [] || (Enabled(s, steps[0]) && Execution(Next(s, steps[0]), steps[1..]))
  }

  ghost function After(s: System, steps: seq<Step>): System
    requires Execution(s, steps)
    decreases |steps|
  {
    if steps == [] then s else After(Next(s, steps[0]), steps[1..])
  }

  // --------------------------------------------------------- the invariant

  function ClaimCount(log: seq<Claim>, id: RunId): nat {
    if log == [] then 0
    else ClaimCount(log[..|log| - 1], id) + (if log[|log| - 1].runId == id then 1 else 0)
  }

  /** The fields no step changes. */
  predicate SameRun(row: Row, other: Row) {
    && row.agentName == other.agentName && row.tenantId == other.tenantId && row.input == other.input
    && row.maxRetries == other.maxRetries && row.createdAt == other.createdAt
  }

  /** After n claims the attempt count is 2n, or 2n - 1 until the nth claim is requeued. */
  predicate Counted(row: Row, n: nat) {
    && (row.attempts == 2 * n || row.attempts == 2 * n - 1) && row.attempts >= 0
    && (row.status == PENDING ==> row.attempts == 2 * n)
    && (row.status == RUNNING ==> row.attempts == 2 * n - 1)
  }

  ghost predicate RowOk(s: System, id: RunId) {
    id in s.rows ==> id in s.submitted && SameRun(s.rows[id], s.submitted[id]) && Counted(s.rows[id], ClaimCount(s.log, id))
  }

  /** Claims stay within the budget the run was submitted with. */
  ghost predicate RunOk(s: System, id: RunId) {
    ClaimCount(s.log, id) > 0 ==> id in s.submitted && 2 * ClaimCount(s.log, id) - 1 <= s.submitted[id].maxRetries
  }

  /** A held run was claimed last by its holder, is never pending, and the claim carries
      what was submitted. */
  ghost predicate HeldOk(s: System, w: Worker)
    requires w in s.held
  {
    var c := s.held[w];
    && c.runId in s.submitted
    && c == Claim(c.runId, s.submitted[c.runId].agentName, s.submitted[c.runId].input, s.submitted[c.runId].tenantId, c.attempt)
    && c.attempt == 2 * ClaimCount(s.log, c.runId) - 1
    && (c.runId in s.rows ==> (s.rows[c.runId].status == RUNNING || s.rows[c.runId].status == CANCELLED)
                              && s.rows[c.runId].attempts == c.attempt)
  }

  ghost predicate OneHolderEach(s: System) {
    forall v, w | v in s.held && w in s.held && v != w :: s.held[v].runId != s.held[w].runId
  }

  ghost predicate Inv(s: System) {
    && (forall id :: RowOk(s, id))
    && (forall id :: RunOk(s, id))
    && (forall w | w in s.held :: HeldOk(s, w))
    && OneHolderEach(s)
  }

  lemma InitialInv()
    ensures Inv(INITIAL)
  {
  }

  lemma SubmitInv(s: System, step: Step)
    requires Inv(s) && Enabled(s, step) && step.Submit?
    ensures Inv(Next(s, step))
  {
    var t := Next(s, step);
    assert RowOk(s, step.id) && RunOk(s, step.id);
    forall id ensures RowOk(t, id) && RunOk(t, id) {
      assert RowOk(s, id) && RunOk(s, id);
    }
  }

  lemma CountAppend(log: seq<Claim>, c: Claim, id: RunId)
    ensures ClaimCount(log + [c], id) == ClaimCount(log, id) + (if c.runId == id then 1 else 0)
  {
    assert (log + [c])[..|log|] == log;
  }

  lemma PollRuns(s: System, step: Step, id: RunId)
    requires Inv(s) && Enabled(s, step) && step.Poll?
    ensures RowOk(Next(s, step), id) && RunOk(Next(s, step), id)
  {
    CountAppend(s.log, ClaimOf(s.rows, step.id), id);
    assert RowOk(s, step.id);
    assert RowOk(s, id) && RunOk(s, id);
  }

  lemma PollHolds(s: System, step: Step)
    requires Inv(s) && Enabled(s, step) && step.Poll? && step.worker in Next(s, step).held
    ensures HeldOk(Next(s, step), step.worker)
  {
    CountAppend(s.log, ClaimOf(s.rows, step.id), step.id);
    assert RowOk(s, step.id);
  }

  lemma PollOthersHold(s: System, step: Step, w: Worker)
    requires Inv(s) && Enabled(s, step) && step.Poll? && w in s.held
    ensures s.held[w].runId != step.id && HeldOk(Next(s, step), w)
  {
    assert HeldOk(s, w);
    CountAppend(s.log, ClaimOf(s.rows, step.id), s.held[w].runId);
  }

  lemma PollHolder(s: System, step: Step, w: Worker)
    requires Inv(s) && Enabled(s, step) && step.Poll? && w in Next(s, step).held
    ensures HeldOk(Next(s, step), w)
    ensures w in s.held ==> s.held[w].runId != step.id
  {
    if w in s.held {
      PollOthersHold(s, step, w);
    } else {
      PollHolds(s, step);
    }
  }

  lemma PollInv(s: System, step: Step)
    requires Inv(s) && Enabled(s, step) && step.Poll?
    ensures Inv(Next(s, step))
  {
    var t := Next(s, step);
    forall id ensures RowOk(t, id) && RunOk(t, id) {
      PollRuns(s, step, id);
    }
    forall w | w in t.held ensures HeldOk(t, w) && (w in s.held ==> s.held[w].runId != step.id) {
      PollHolder(s, step, w);
    }
  }

  lemma SettleRuns(s: System, step: Step, id: RunId)
    requires Inv(s) && Enabled(s, step) && step.Settle?
    ensures RowOk(Next(s, step), id) && RunOk(Next(s, step), id)
  {
    assert HeldOk(s, step.worker);
    assert RowOk(s, id) && RunOk(s, id);
  }

  /** The holder of a settled run lets go of it, so nobody else is concerned. */
  lemma SettleInv(s: System, step: Step)
    requires Inv(s) && Enabled(s, step) && step.Settle?
    ensures Inv(Next(s, step))
  {
    var t := Next(s, step);
    forall id ensures RowOk(t, id) && RunOk(t, id) {
      SettleRuns(s, step, id);
    }
    forall w | w in t.held ensures HeldOk(t, w) {
      assert HeldOk(s, w);
      assert s.held[w].runId != s.held[step.worker].runId;
    }
  }

  lemma OtherInv(s: System, step: Step)
    requires Inv(s) && Enabled(s, step) && (step.Cancel? || step.Expire? || step.Crash?)
    ensures Inv(Next(s, step))
  {
    var t := Next(s, step);
    forall id ensures RowOk(t, id) && RunOk(t, id) {
      assert RowOk(s, id) && RunOk(s, id);
    }
    forall w | w in t.held ensures HeldOk(t, w) {
      assert HeldOk(s, w);
    }
  }

  lemma NextInv(s: System, step: Step)
    requires Inv(s) && Enabled(s, step)
    ensures Inv(Next(s, step))
  {
    match step
    case Submit(_, _, _, _, _, _) => SubmitInv(s, step);
    case Poll(_, _, _) => PollInv(s, step);
    case Settle(_, _, _, _) => SettleInv(s, step);
    case Cancel(_, _) => OtherInv(s, step);
    case Expire(_) => OtherInv(s, step);
    case Crash(_) => OtherInv(s, step);
  }

  lemma {:induction false} AfterInv(s: System, steps: seq<Step>)
    requires Inv(s) && Execution(s, steps)
    ensures Inv(After(s, steps))
    decreases |steps|
  {
    if steps != [] {
      NextInv(s, steps[0]);
      AfterInv(Next(s, steps[0]), steps[1..]);
    }
  }

  // ------------------------------------- mutual exclusion and attempt counts

  /** In every run of the system no run has two holders, and a held run's row is running,
      cancelled or gone. */
  lemma MutualExclusion(steps: seq<Step>, v: Worker, w: Worker)
    requires Execution(INITIAL, steps) && v in After(INITIAL, steps).held && w in After(INITIAL, steps).held
    ensures var s := After(INITIAL, steps);
            && (s.held[v].runId == s.held[w].runId ==> v == w)
            && (s.held[v].runId in s.rows ==> s.rows[s.held[v].runId].status in {RUNNING, CANCELLED})
  {
    InitialInv();
    AfterInv(INITIAL, steps);
    assert HeldOk(After(INITIAL, steps), v);
  }

  /** A worker is handed what was submitted, with the attempt its claim number implies. */
  lemma HeldClaims(steps: seq<Step>, w: Worker)
    requires Execution(INITIAL, steps) && w in After(INITIAL, steps).held
    ensures var s := After(INITIAL, steps); var c := s.held[w];
            && c.runId in s.submitted && c.input == s.submitted[c.runId].input
            && c.agentName == s.submitted[c.runId].agentName && c.tenantId == s.submitted[c.runId].tenantId
            && c.attempt == 2 * ClaimCount(s.log, c.runId) - 1
  {
    InitialInv();
    AfterInv(INITIAL, steps);
    assert HeldOk(After(INITIAL, steps), w);
  }

  /** The kth claim of a run carries attempt 2k - 1, over the whole log. */
  ghost predicate LogNumbered(log: seq<Claim>) {
    forall p | 0 <= p < |log| :: log[p].attempt == 2 * ClaimCount(log[..p + 1], log[p].runId) - 1
  }

  lemma LogGrows(s: System, step: Step)
    requires Inv(s) && Enabled(s, step) && Next(s, step).log != s.log && LogNumbered(s.log)
    ensures LogNumbered(Next(s, step).log)
  {
    var claim := ClaimOf(s.rows, step.id);
    var log := s.log + [claim];
    CountAppend(s.log, claim, step.id);
    assert RowOk(s, step.id);
    forall p | 0 <= p < |log| ensures log[p].attempt == 2 * ClaimCount(log[..p + 1], log[p].runId) - 1 {
      if p < |s.log| {
        assert log[..p + 1] == s.log[..p + 1];
      } else {
        assert log[..p + 1] == log;
      }
    }
  }

  lemma {:induction false} LogStays(s: System, steps: seq<Step>)
    requires Inv(s) && Execution(s, steps) && LogNumbered(s.log)
    ensures LogNumbered(After(s, steps).log)
    decreases |steps|
  {
    if steps != [] {
      var t := Next(s, steps[0]);
      NextInv(s, steps[0]);
      if t.log != s.log {
        LogGrows(s, steps[0]);
      }
      LogStays(t, steps[1..]);
    }
  }

  /** Attempt accounting over every run of the system: claims are numbered 1, 3, 5, ...; a run
      submitted with M retries is invoked at most (M + 1) / 2 times, never if M < 1; and no
      row's count exceeds M + 1. */
  lemma AttemptAccounting(steps: seq<Step>, id: RunId)
    requires Execution(INITIAL, steps) && id in After(INITIAL, steps).submitted
    ensures var s := After(INITIAL, steps); var M := s.submitted[id].maxRetries;
            && LogNumbered(s.log)
            && (if M < 1 then ClaimCount(s.log, id) == 0 else ClaimCount(s.log, id) <= (M + 1) / 2)
            && (id in s.rows ==> 0 <= s.rows[id].attempts && (M >= 0 ==> s.rows[id].attempts <= M + 1))
  {
    InitialInv();
    AfterInv(INITIAL, steps);
    LogStays(INITIAL, steps);
    var s := After(INITIAL, steps);
    assert RowOk(s, id) && RunOk(s, id);
  }

  // --------------------------------------------------------- final states

  predicate Final(row: Row) {
    row.status == SUCCEEDED || row.status == FAILED
  }

  ghost predicate Held(s: System, id: RunId) {
    exists w :: w in s.held && s.held[w].runId == id
  }

  ghost predicate SettlesRun(s: System, step: Step, id: RunId) {
    step.Settle? && step.worker in s.held && s.held[step.worker].runId == id
  }

  /** A finished run has no holder, and no step deletes it or changes anything in its row. */
  lemma FinalStep(s: System, step: Step, id: RunId)
    requires Inv(s) && Enabled(s, step) && id in s.rows && Final(s.rows[id])
    ensures !Held(s, id)
    ensures id in Next(s, step).rows && Next(s, step).rows[id] == s.rows[id]
  {
    forall w | w in s.held ensures s.held[w].runId != id {
      assert HeldOk(s, w);
    }
    assert RowOk(s, id);
  }

  lemma {:induction false} FinalForever(s: System, steps: seq<Step>, id: RunId)
    requires Inv(s) && Execution(s, steps) && id in s.rows && Final(s.rows[id])
    ensures id in After(s, steps).rows && After(s, steps).rows[id] == s.rows[id] && !Held(After(s, steps), id)
    decreases |steps|
  {
    if steps == [] {
      FinalStep(s, Expire(0.0), id);
    } else {
      FinalStep(s, steps[0], id);
      NextInv(s, steps[0]);
      FinalForever(Next(s, steps[0]), steps[1..], id);
    }
  }

  /** A cancelled run is never deleted, and its row changes exactly when a worker that still
      holds it settles it. */
  lemma CancelledStep(s: System, step: Step, id: RunId)
    requires Inv(s) && Enabled(s, step) && id in s.rows && s.rows[id].status == CANCELLED
    ensures id in Next(s, step).rows
    ensures Next(s, step).rows[id] == s.rows[id] <==> !SettlesRun(s, step, id)
    ensures !Held(s, id) ==> !SettlesRun(s, step, id) && !Held(Next(s, step), id)
  {
    assert RowOk(s, id);
    if step.Settle? {
      assert HeldOk(s, step.worker);
    }
  }

  /** No step of the execution settles the run. */
  ghost predicate NeverSettled(s: System, steps: seq<Step>, id: RunId)
    requires Execution(s, steps)
    decreases |steps|
  {
    steps == [] || (!SettlesRun(s, steps[0], id) && NeverSettled(Next(s, steps[0]), steps[1..], id))
  }

  /** The row is there, unchanged, in every state of the execution. */
  ghost predicate Stays(s: System, steps: seq<Step>, id: RunId, row: Row)
    requires Execution(s, steps)
    decreases |steps|
  {
    && id in s.rows && s.rows[id] == row
    && (steps == [] || Stays(Next(s, steps[0]), steps[1..], id, row))
  }

  /** A cancellation stands exactly if no holder settles the run afterwards. */
  lemma {:induction false} CancellationStands(s: System, steps: seq<Step>, id: RunId)
    requires Inv(s) && Execution(s, steps) && id in s.rows && s.rows[id].status == CANCELLED
    ensures Stays(s, steps, id, s.rows[id]) <==> NeverSettled(s, steps, id)
    decreases |steps|
  {
    if steps != [] {
      CancelledStep(s, steps[0], id);
      NextInv(s, steps[0]);
      if !SettlesRun(s, steps[0], id) {
        CancellationStands(Next(s, steps[0]), steps[1..], id);
      }
    }
  }

  /** Whatever happens from here on, the row does not change. */
  ghost predicate Safe(s: System, id: RunId)
    requires id in s.rows
  {
    forall steps | Execution(s, steps) :: Stays(s, steps, id, s.rows[id])
  }

  lemma {:induction false} OneMore(s: System, steps: seq<Step>, step: Step)
    requires Execution(s, steps) && Enabled(After(s, steps), step)
    ensures Execution(s, steps + [step]) && After(s, steps + [step]) == Next(After(s, steps), step)
    decreases |steps|
  {
    var more := steps + [step];
    if steps == [] {
      assert more[1..] == [];
    } else {
      assert more[1..] == steps[1..] + [step];
      OneMore(Next(s, steps[0]), steps[1..], step);
    }
  }

  lemma HolderOverwrites(s: System, w: Worker)
    requires Inv(s) && w in s.held && s.held[w].runId in s.rows && s.rows[s.held[w].runId].status == CANCELLED
    ensures !Safe(s, s.held[w].runId)
  {
    var id, step := s.held[w].runId, Settle(w, Raised(""), 0, 0.0);
    var steps := [] + [step];
    CancelledStep(s, step, id);
    OneMore(s, [], step);
    assert Execution(s, steps) && steps[0] == step;
    assert !Stays(Next(s, steps[0]), steps[1..], id, s.rows[id]);
    assert !Stays(s, steps, id, s.rows[id]);
  }

  /** In particular once no worker holds it. */
  lemma {:induction false} UnheldCancellationStands(s: System, steps: seq<Step>, id: RunId)
    requires Inv(s) && Execution(s, steps) && id in s.rows && s.rows[id].status == CANCELLED && !Held(s, id)
    ensures Stays(s, steps, id, s.rows[id])
    decreases |steps|
  {
    if steps != [] {
      CancelledStep(s, steps[0], id);
      NextInv(s, steps[0]);
      UnheldCancellationStands(Next(s, steps[0]), steps[1..], id);
    }
  }

  /** What can be asked before waiting: a cancellation is safe exactly if no worker holds the
      run now. */
  lemma CancellationSafe(s: System, id: RunId)
    requires Inv(s) && id in s.rows && s.rows[id].status == CANCELLED
    ensures Safe(s, id) <==> !Held(s, id)
  {
    if !Held(s, id) {
      forall steps | Execution(s, steps) ensures Stays(s, steps, id, s.rows[id]) {
        UnheldCancellationStands(s, steps, id);
      }
    } else {
      var w :| w in s.held && s.held[w].runId == id;
      HolderOverwrites(s, w);
    }
  }

  lemma HeldAndCancelled(id: RunId) returns (steps: seq<Step>)
    ensures Execution(INITIAL, steps)
    ensures var row := NewRow("agent", "tenant", "{}", 3, 0.0).(status := CANCELLED, attempts := 1, updatedAt := 2.0);
            var claim := Claim(id, "agent", "{}", "tenant", 1);
            After(INITIAL, steps) == System(map[id := row], map[0 := claim], map[id := NewRow("agent", "tenant", "{}", 3, 0.0)], [claim])
  {
    var submit := Submit(id, "agent", "tenant", "{}", 3, 0.0);
    OneMore(INITIAL, [], submit);
    assert Pending(Next(INITIAL, submit).rows) == {id};
    OneMore(INITIAL, [] + [submit], Poll(0, id, 1.0));
    OneMore(INITIAL, [] + [submit] + [Poll(0, id, 1.0)], Cancel(id, 2.0));
    steps := [] + [submit] + [Poll(0, id, 1.0)] + [Cancel(id, 2.0)];
  }

  /** A cancelled run that a worker still holds can be queued again by that worker, and then
      is invoked a second time. */
  lemma CancellationUndone(id: RunId) returns (cancelled: seq<Step>, undone: seq<Step>)
    ensures Execution(INITIAL, cancelled) && Execution(INITIAL, cancelled + undone)
    ensures var s := After(INITIAL, cancelled); id in s.rows && s.rows[id].status == CANCELLED
    ensures var t := After(INITIAL, cancelled + undone);
            id in t.rows && t.rows[id].status == RUNNING && ClaimCount(t.log, id) == 2
  {
    cancelled := HeldAndCancelled(id);
    var s := After(INITIAL, cancelled);
    var retry := Settle(0, Answered(Response("timeout", None, None, 0)), 3, 3.0);
    OneMore(INITIAL, cancelled, retry);
    var t := Next(s, retry);
    assert Pending(t.rows) == {id};
    OneMore(INITIAL, cancelled + [retry], Poll(0, id, 4.0));
    CountAppend(t.log, ClaimOf(t.rows, id), id);
    undone := [retry, Poll(0, id, 4.0)];
    assert cancelled + undone == cancelled + [retry] + [Poll(0, id, 4.0)];
  }

  // ---------------------------------------------------------- no overtaking

  /** No step polls or cancels the run. */
  predicate LeftAlone(steps: seq<Step>, id: RunId) {
    forall k | 0 <= k < |steps| :: !(steps[k].Poll? && steps[k].id == id) && !(steps[k].Cancel? && steps[k].id == id)
  }

  lemma WaitStep(s: System, step: Step, a: RunId, b: RunId)
    requires Inv(s) && Enabled(s, step) && a in Pending(s.rows) && LeftAlone([step], a)
    ensures a in Pending(Next(s, step).rows) && Next(s, step).rows[a] == s.rows[a]
    ensures b in s.submitted ==> b in Next(s, step).submitted && Next(s, step).submitted[b] == s.submitted[b]
    ensures b in Next(s, step).submitted && s.rows[a].createdAt < Next(s, step).submitted[b].createdAt ==>
              ClaimCount(Next(s, step).log, b) == ClaimCount(s.log, b)
  {
    assert RowOk(s, a) && !([step][0].Poll? && [step][0].id == a) && !([step][0].Cancel? && [step][0].id == a);
    if step.Settle? {
      assert HeldOk(s, step.worker);
    } else if step.Poll? {
      assert RowOk(s, step.id);
      CountAppend(s.log, ClaimOf(s.rows, step.id), b);
    }
  }

  lemma {:induction false} SubmittedStays(s: System, steps: seq<Step>, b: RunId)
    requires Execution(s, steps) && b in s.submitted
    ensures b in After(s, steps).submitted && After(s, steps).submitted[b] == s.submitted[b]
    decreases |steps|
  {
    if steps != [] {
      SubmittedStays(Next(s, steps[0]), steps[1..], b);
    }
  }

  /** While a pending run waits, no strictly younger run is claimed, whether it was there
      already or is submitted meanwhile. A requeued run is pending with the creation time it
      was submitted with, so it keeps its place. */
  lemma {:induction false} NoOvertaking(s: System, steps: seq<Step>, a: RunId, b: RunId)
    requires Inv(s) && Execution(s, steps) && a in Pending(s.rows) && LeftAlone(steps, a)
    requires b in After(s, steps).submitted && s.rows[a].createdAt < After(s, steps).submitted[b].createdAt
    ensures a in Pending(After(s, steps).rows) && ClaimCount(After(s, steps).log, b) == ClaimCount(s.log, b)
    decreases |steps|
  {
    if steps != [] {
      var t := Next(s, steps[0]);
      WaitStep(s, steps[0], a, b);
      NextInv(s, steps[0]);
      NoOvertaking(t, steps[1..], a, b);
      if b in t.submitted {
        SubmittedStays(t, steps[1..], b);
      } else {
        assert RunOk(s, b) && RunOk(t, b);
      }
    }
  }

  /** Every submission is stamped later than all before it. */
  ghost predicate Clocked(s: System, steps: seq<Step>)
    requires Execution(s, steps)
    decreases |steps|
  {
    steps == []
    || (&& (steps[0].Submit? ==> forall id | id in s.submitted :: s.submitted[id].createdAt < steps[0].now)
        && Clocked(Next(s, steps[0]), steps[1..]))
  }

  lemma {:induction false} StampedLater(s: System, steps: seq<Step>, a: RunId, b: RunId)
    requires Execution(s, steps) && Clocked(s, steps) && a in s.submitted
    requires b in After(s, steps).submitted && b !in s.submitted
    ensures s.submitted[a].createdAt < After(s, steps).submitted[b].createdAt
    decreases |steps|
  {
    var t := Next(s, steps[0]);
    if b in t.submitted {
      SubmittedStays(t, steps[1..], b);
    } else {
      StampedLater(t, steps[1..], a, b);
    }
  }

  /** With such a clock every run submitted after a waiting one is still unclaimed. */
  lemma {:induction false} LaterSubmissionsWait(s: System, steps: seq<Step>, a: RunId, b: RunId)
    requires Inv(s) && Execution(s, steps) && Clocked(s, steps) && a in Pending(s.rows) && LeftAlone(steps, a)
    requires b in After(s, steps).submitted && b !in s.submitted
    ensures ClaimCount(After(s, steps).log, b) == 0
  {
    assert RowOk(s, a) && RunOk(s, b);
    StampedLater(s, steps, a, b);
    NoOvertaking(s, steps, a, b);
  }
}
