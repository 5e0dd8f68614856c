/** The queue drains: a measure that every step but a submission decreases. */
module RunDrain {
  import opened Wrappers
  import opened RunStore
  import opened RunWorker
  import opened RunQueue
  import opened Sums

  /** Claims that a run can still get, once it waits with so many attempts counted. */
  function ClaimsLeft(attempts: int, maxRetries: int): nat {
    if attempts < maxRetries then (maxRetries - attempts + 1) / 2 else 0
  }

  /** A bound on the steps that a run can still take part in: a poll, a cancellation and a
      settlement for each claim, and a last poll that fails it. */
  ghost function Potential(s: System, id: RunId): nat {
    if id !in s.rows then (if Held(s, id) then 1 else 0)
    else
      var row := s.rows[id];
      match row.status
      case PENDING => 3 * ClaimsLeft(row.attempts, row.maxRetries) + 1
      case RUNNING => if Held(s, id) then 3 * ClaimsLeft(row.attempts + 1, row.maxRetries) + 3 else 1
      case CANCELLED => if Held(s, id) then 3 * ClaimsLeft(row.attempts + 1, row.maxRetries) + 2 else 0
      case SUCCEEDED => 0
      case FAILED => 0
  }

  ghost function PotentialIn(s: System): RunId -> nat {
    id => Potential(s, id)
  }

  ghost function Measure(s: System): nat {
    Sum(s.submitted.Keys, PotentialIn(s))
  }

  /** The one run a step concerns. */
  ghost function Subject(s: System, step: Step): RunId
    requires Enabled(s, step) && !step.Submit? && !step.Expire?
  {
    match step
    case Poll(_, id, _) => id
    case Settle(w, _, _, _) => s.held[w].runId
    case Cancel(id, _) => id
    case Crash(w) => s.held[w].runId
  }

  lemma OthersKeep(s: System, step: Step, id: RunId)
    requires Enabled(s, step) && !step.Submit? && !step.Expire? && id != Subject(s, step)
    ensures Potential(Next(s, step), id) == Potential(s, id)
  {
    var t := Next(s, step);
    if w :| w in s.held && s.held[w].runId == id {
      assert w in t.held && t.held[w].runId == id;
    }
    if w :| w in t.held && t.held[w].runId == id {
      assert w in s.held && s.held[w].runId == id;
    }
    assert id in t.rows <==> id in s.rows;
    assert id in s.rows ==> t.rows[id] == s.rows[id];
  }

  lemma PollShrinks(s: System, step: Step)
    requires Inv(s) && Enabled(s, step) && step.Poll?
    ensures Potential(Next(s, step), step.id) < Potential(s, step.id)
  {
    var t := Next(s, step);
    if !Exhausted(s.rows[step.id]) {
      assert step.worker in t.held && t.held[step.worker].runId == step.id;
    }
  }

  lemma CancelShrinks(s: System, step: Step)
    requires Inv(s) && Enabled(s, step) && step.Cancel? && Cancellable(s.rows, step.id)
    ensures Potential(Next(s, step), step.id) < Potential(s, step.id)
  {
    if w :| w in s.held && s.held[w].runId == step.id {
      assert HeldOk(s, w);
    }
    assert Held(Next(s, step), step.id) <==> Held(s, step.id);
  }

  /** A step that is no submission and changes something. */
  ghost predicate Works(s: System, step: Step)
    requires Enabled(s, step)
  {
    !step.Submit? && Next(s, step) != s
  }

  lemma SomeExpired(s: System, step: Step) returns (id: RunId)
    requires Enabled(s, step) && step.Expire? && Next(s, step) != s
    ensures id in s.rows && id !in Next(s, step).rows
  {
    var cutoff := step.cutoff;
    assert exists id :: id in s.rows && Expired(s.rows[id], cutoff);
    id :| id in s.rows && Expired(s.rows[id], cutoff);
  }

  lemma SubjectShrinks(s: System, step: Step)
    requires Inv(s) && Enabled(s, step) && Works(s, step) && !step.Expire?
    ensures Subject(s, step) in s.submitted
    ensures Potential(Next(s, step), Subject(s, step)) < Potential(s, Subject(s, step))
  {
    var id := Subject(s, step);
    assert RowOk(s, id);
    match step
    case Poll(_, _, _) => PollShrinks(s, step);
    case Settle(w, _, _, _) =>
      assert HeldOk(s, w);
    case Crash(w) =>
      assert HeldOk(s, w);
    case Cancel(_, _) => CancelShrinks(s, step);
  }

  /** An idle cancellation or sweep changes nothing; every other step but a submission
      decreases the measure. */
  lemma WorkShrinks(s: System, step: Step)
    requires Inv(s) && Enabled(s, step) && Works(s, step)
    ensures Measure(Next(s, step)) < Measure(s)
  {
    var t := Next(s, step);
    var ids := s.submitted.Keys;
    if step.Expire? {
      forall id | id in ids ensures PotentialIn(t)(id) <= PotentialIn(s)(id) {
      }
      var id := SomeExpired(s, step);
      assert RowOk(s, id);
      SumLess(ids, PotentialIn(t), PotentialIn(s), id);
    } else {
      SubjectShrinks(s, step);
      forall id | id in ids ensures PotentialIn(t)(id) <= PotentialIn(s)(id) {
        if id != Subject(s, step) {
          OthersKeep(s, step, id);
        }
      }
      SumLess(ids, PotentialIn(t), PotentialIn(s), Subject(s, step));
    }
  }

  function Allowance(maxRetries: int): nat {
    if maxRetries >= 1 then 3 * ((maxRetries + 1) / 2) + 1 else 1
  }

  lemma SubmitGrows(s: System, step: Step)
    requires Inv(s) && Enabled(s, step) && step.Submit?
    ensures Measure(Next(s, step)) <= Measure(s) + Allowance(step.maxRetries)
  {
    var t := Next(s, step);
    assert t.submitted.Keys - {step.id} == s.submitted.Keys;
    SumWithout(t.submitted.Keys, PotentialIn(t), step.id);
    forall id | id in s.submitted.Keys ensures PotentialIn(t)(id) <= PotentialIn(s)(id) {
      assert Held(t, id) <==> Held(s, id);
    }
    SumAtMost(s.submitted.Keys, PotentialIn(t), PotentialIn(s));
  }

  /** The steps of an execution that work. */
  ghost function Work(s: System, steps: seq<Step>): nat
    requires Execution(s, steps)
    decreases |steps|
  {
    if steps == [] then 0
    else (if Works(s, steps[0]) then 1 else 0) + Work(Next(s, steps[0]), steps[1..])
  }

  /** What the submissions of an execution bring in. */
  function Budget(steps: seq<Step>): nat {
    if steps == [] then 0
    else (if steps[0].Submit? then Allowance(steps[0].maxRetries) else 0) + Budget(steps[1..])
  }

  lemma {:induction false} WorkBounded(s: System, steps: seq<Step>)
    requires Inv(s) && Execution(s, steps)
    ensures Work(s, steps) + Measure(After(s, steps)) <= Measure(s) + Budget(steps)
    decreases |steps|
  {
    if steps != [] {
      var step := steps[0];
      NextInv(s, step);
      WorkBounded(Next(s, step), steps[1..]);
      if step.Submit? {
        SubmitGrows(s, step);
      } else if Works(s, step) {
        WorkShrinks(s, step);
      }
    }
  }

  /** Over every run of the system, all work together is bounded by what the submissions
      allow: a run submitted with M retries causes at most 3 * ((M + 1) / 2) + 1 working steps, and
      one if M < 1. */
  lemma WorkWithinBudget(steps: seq<Step>)
    requires Execution(INITIAL, steps)
    ensures Work(INITIAL, steps) <= Budget(steps)
  {
    InitialInv();
    WorkBounded(INITIAL, steps);
  }

  // ------------------------------------------------ the bound is reached

  /** A state whose only run waits, with nothing held. */
  ghost predicate OnlyWaits(s: System, id: RunId) {
    id in s.rows && s.rows.Keys == {id} && s.rows[id].status == PENDING && s.rows[id].attempts >= 0 && s.held == map[]
  }

  const TIMEOUT: Outcome := Answered(Response("timeout", None, None, 0))

  /** A claim, a cancellation while it is held, and a retry all the same. */
  function Round(id: RunId, limit: int): seq<Step> {
    [Poll(0, id, 0.0), Cancel(id, 0.0), Settle(0, TIMEOUT, limit, 0.0)]
  }

  lemma OnlyIsOldest(s: System, id: RunId)
    requires OnlyWaits(s, id)
    ensures Oldest(s.rows, id)
  {
    assert Pending(s.rows) == {id};
  }

  lemma StepThen(s: System, step: Step, rest: seq<Step>)
    requires Enabled(s, step) && Execution(Next(s, step), rest)
    ensures Execution(s, [step] + rest) && After(s, [step] + rest) == After(Next(s, step), rest)
    ensures Work(s, [step] + rest) == (if Works(s, step) then 1 else 0) + Work(Next(s, step), rest)
  {
    assert ([step] + rest)[1..] == rest;
  }

  /** The only run, held by worker 0 in its claim. */
  ghost predicate OnlyHeld(s: System, id: RunId, status: Status, attempts: int, maxRetries: int) {
    && id in s.rows && s.rows.Keys == {id} && s.rows[id].status == status
    && s.rows[id].attempts == attempts && s.rows[id].maxRetries == maxRetries
    && s.held.Keys == {0} && s.held[0].runId == id && s.held[0].attempt == attempts
  }

  lemma PollOnly(s: System, id: RunId)
    requires OnlyWaits(s, id) && s.rows[id].attempts + 1 <= s.rows[id].maxRetries
    ensures var step := Poll(0, id, 0.0);
            && Enabled(s, step) && Works(s, step)
            && OnlyHeld(Next(s, step), id, RUNNING, s.rows[id].attempts + 1, s.rows[id].maxRetries)
            && ClaimCount(Next(s, step).log, id) == ClaimCount(s.log, id) + 1
  {
    OnlyIsOldest(s, id);
    CountAppend(s.log, ClaimOf(s.rows, id), id);
  }

  lemma CancelOnly(s: System, id: RunId, attempts: int, maxRetries: int)
    requires OnlyHeld(s, id, RUNNING, attempts, maxRetries)
    ensures var step := Cancel(id, 0.0);
            && Enabled(s, step) && Works(s, step) && Next(s, step).log == s.log
            && OnlyHeld(Next(s, step), id, CANCELLED, attempts, maxRetries)
  {
    assert Next(s, Cancel(id, 0.0)).rows[id].status == CANCELLED;
  }

  lemma RetryOnly(s: System, id: RunId, attempts: int, maxRetries: int, limit: int)
    requires OnlyHeld(s, id, CANCELLED, attempts, maxRetries) && 0 <= attempts < limit
    ensures var step := Settle(0, TIMEOUT, limit, 0.0);
            && Enabled(s, step) && Works(s, step) && Next(s, step).log == s.log
            && OnlyWaits(Next(s, step), id)
            && Next(s, step).rows[id].attempts == attempts + 1 && Next(s, step).rows[id].maxRetries == maxRetries
  {
    var t := Next(s, Settle(0, TIMEOUT, limit, 0.0));
    assert t.held.Keys == {};
    assert t.rows[id].status == PENDING;
  }

  /** Three working steps later the run waits again, with two more attempts counted. */
  lemma OneRound(s: System, id: RunId, limit: int)
    requires OnlyWaits(s, id) && s.rows[id].attempts + 1 <= s.rows[id].maxRetries && s.rows[id].attempts + 1 < limit
    ensures Execution(s, Round(id, limit)) && Work(s, Round(id, limit)) == 3
    ensures var t := After(s, Round(id, limit));
            && OnlyWaits(t, id) && t.rows[id].attempts == s.rows[id].attempts + 2 && t.rows[id].maxRetries == s.rows[id].maxRetries
            && ClaimCount(t.log, id) == ClaimCount(s.log, id) + 1
  {
    var attempts, maxRetries := s.rows[id].attempts + 1, s.rows[id].maxRetries;
    var poll, cancel, settle := Poll(0, id, 0.0), Cancel(id, 0.0), Settle(0, TIMEOUT, limit, 0.0);
    PollOnly(s, id);
    var s1 := Next(s, poll);
    CancelOnly(s1, id, attempts, maxRetries);
    var s2 := Next(s1, cancel);
    RetryOnly(s2, id, attempts, maxRetries, limit);
    StepThen(s2, settle, []);
    StepThen(s1, cancel, [settle] + []);
    StepThen(s, poll, [cancel] + ([settle] + []));
    assert Round(id, limit) == [poll] + ([cancel] + ([settle] + []));
  }

  lemma LastRound(s: System, id: RunId)
    requires OnlyWaits(s, id) && s.rows[id].attempts + 1 > s.rows[id].maxRetries
    ensures var steps := [Poll(0, id, 0.0)];
            Execution(s, steps) && Work(s, steps) == 1 && After(s, steps).log == s.log
  {
    OnlyIsOldest(s, id);
    var step := Poll(0, id, 0.0);
    assert [step][1..] == [];
    assert Next(s, step).rows[id].status == FAILED;
  }

  lemma {:induction false} WorkAppend(s: System, a: seq<Step>, b: seq<Step>)
    requires Execution(s, a) && Execution(After(s, a), b)
    ensures Execution(s, a + b) && After(s, a + b) == After(After(s, a), b)
    ensures Work(s, a + b) == Work(s, a) + Work(After(s, a), b)
    decreases |a|
  {
    if a == [] {
      assert a + b == b;
    } else {
      assert (a + b)[1..] == a[1..] + b;
      WorkAppend(Next(s, a[0]), a[1..], b);
    }
  }

  predicate NoSubmits(steps: seq<Step>) {
    forall k | 0 <= k < |steps| :: !steps[k].Submit?
  }

  lemma {:induction false} NoBudget(steps: seq<Step>)
    requires NoSubmits(steps)
    ensures Budget(steps) == 0
    decreases |steps|
  {
    if steps != [] {
      forall k | 0 <= k < |steps| - 1 ensures !steps[1..][k].Submit? {
        assert !steps[k + 1].Submit?;
      }
      NoBudget(steps[1..]);
    }
  }

  /** All rounds that are left, and the poll that fails the run. */
  lemma {:induction false} AllRounds(s: System, id: RunId, limit: int) returns (steps: seq<Step>)
    requires OnlyWaits(s, id) && s.rows[id].maxRetries < limit
    ensures Execution(s, steps) && NoSubmits(steps)
    ensures Work(s, steps) == 3 * ClaimsLeft(s.rows[id].attempts, s.rows[id].maxRetries) + 1
    ensures ClaimCount(After(s, steps).log, id) == ClaimCount(s.log, id) + ClaimsLeft(s.rows[id].attempts, s.rows[id].maxRetries)
    decreases limit - s.rows[id].attempts
  {
    if s.rows[id].attempts + 1 > s.rows[id].maxRetries {
      LastRound(s, id);
      steps := [Poll(0, id, 0.0)];
    } else {
      var round := Round(id, limit);
      OneRound(s, id, limit);
      var rest := AllRounds(After(s, round), id, limit);
      WorkAppend(s, round, rest);
      steps := round + rest;
    }
  }

  /** For every M the bound on the work, and the bound on the claims, are reached. */
  lemma BudgetReached(id: RunId, maxRetries: int) returns (steps: seq<Step>)
    ensures Execution(INITIAL, steps) && Work(INITIAL, steps) == Budget(steps) == Allowance(maxRetries)
    ensures var t := After(INITIAL, steps);
            && id in t.submitted && t.submitted[id].maxRetries == maxRetries
            && ClaimCount(t.log, id) == if maxRetries < 1 then 0 else (maxRetries + 1) / 2
  {
    var submit := Submit(id, "", "", "", maxRetries, 0.0);
    var s := Next(INITIAL, submit);
    var rest := AllRounds(s, id, maxRetries + 1);
    NoBudget(rest);
    steps := [submit] + rest;
    assert steps[1..] == rest;
    InitialInv();
    SubmitInv(INITIAL, submit);
    SubmittedStays(s, rest, id);
  }

  ghost predicate Quiet(s: System) {
    Pending(s.rows) == {} && s.held == map[]
  }

  predicate WorkerStep(step: Step) {
    step.Poll? || step.Settle?
  }

  /** The workers alone are stuck exactly in a quiet state. */
  lemma StuckIsQuiet(s: System)
    ensures Quiet(s) <==> forall step | WorkerStep(step) :: !Enabled(s, step)
  {
    if s.held != map[] {
      var w :| w in s.held;
      assert WorkerStep(Settle(w, Raised(""), 0, 0.0)) && Enabled(s, Settle(w, Raised(""), 0, 0.0));
    } else if Pending(s.rows) != {} {
      var id := OldestOf(s.rows, Pending(s.rows));
      assert WorkerStep(Poll(0, id, 0.0)) && Enabled(s, Poll(0, id, 0.0));
    }
  }

  /** So workers left to themselves stop, and stop quiet: no sequence of their steps is longer
      than the measure, and one that cannot be extended ends with nothing pending or held. */
  lemma {:induction false} WorkersDrain(s: System, steps: seq<Step>)
    requires Inv(s) && Execution(s, steps) && forall k | 0 <= k < |steps| :: WorkerStep(steps[k])
    ensures |steps| <= Measure(s)
    ensures (forall step | WorkerStep(step) :: !Enabled(After(s, steps), step)) ==> Quiet(After(s, steps))
    decreases |steps|
  {
    if steps == [] {
      StuckIsQuiet(s);
    } else {
      NextInv(s, steps[0]);
      WorkShrinks(s, steps[0]);
      WorkersDrain(Next(s, steps[0]), steps[1..]);
    }
  }
}
