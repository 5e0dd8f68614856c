/** What a finished run stores, over every execution of the queue. */
module RunResults {
  import opened Wrappers
  import opened RunStore
  import opened RunWorker
  import opened RunQueue

  /** A worker that holds the run settles it with this response, which is "ok". */
  ghost predicate AnswersOk(s: System, step: Step, id: RunId, r: Response) {
    && step.Settle? && step.worker in s.held && s.held[step.worker].runId == id && id in s.rows
    && step.outcome == Answered(r) && r.status == "ok"
  }

  /** The step fails the run with this error text: a claim that is one too many leaves none, an
      exception its message, and a bad response at the last attempt its own. */
  ghost predicate Fails(s: System, step: Step, id: RunId, text: Option<string>) {
    || (step.Poll? && step.id == id && id in s.rows && s.rows[id].attempts + 1 > s.rows[id].maxRetries && text == None)
    || (&& step.Settle? && step.worker in s.held && s.held[step.worker].runId == id && id in s.rows
        && (|| (step.outcome.Raised? && text == Some(step.outcome.message))
            || (&& step.outcome.Answered? && step.outcome.response.status != "ok"
                && s.held[step.worker].attempt >= step.limit && text == Some(FailureText(step.outcome.response)))))
  }

  ghost predicate AnsweredOk(s: System, steps: seq<Step>, id: RunId, r: Response)
    requires Execution(s, steps)
    decreases |steps|
  {
    steps != [] && (AnswersOk(s, steps[0], id, r) || AnsweredOk(Next(s, steps[0]), steps[1..], id, r))
  }

  ghost predicate Failed(s: System, steps: seq<Step>, id: RunId, text: Option<string>)
    requires Execution(s, steps)
    decreases |steps|
  {
    steps != [] && (Fails(s, steps[0], id, text) || Failed(Next(s, steps[0]), steps[1..], id, text))
  }

  ghost predicate HasSucceeded(s: System, id: RunId) {
    id in s.rows && s.rows[id].status == SUCCEEDED
  }

  ghost predicate HasFailed(s: System, id: RunId) {
    id in s.rows && s.rows[id].status == FAILED
  }

  /** The response is what the row stores. */
  ghost predicate StoresAnswer(s: System, id: RunId, r: Response) {
    && HasSucceeded(s, id)
    && s.rows[id].output == r.output && s.rows[id].error == None && s.rows[id].durationMs == r.durationMs
  }

  ghost predicate StoresError(s: System, id: RunId, text: Option<string>) {
    HasFailed(s, id) && s.rows[id].output == None && s.rows[id].error == text
  }

  /** No result is stored yet. */
  ghost predicate Unfinished(s: System, id: RunId) {
    id in s.rows ==> !Final(s.rows[id]) && s.rows[id].output == None && s.rows[id].error == None
  }

  /** A step stores an answer or an error, or the run stays unfinished. */
  lemma UnfinishedStep(s: System, step: Step, id: RunId)
    requires Inv(s) && Enabled(s, step) && Unfinished(s, id)
    ensures forall r | AnswersOk(s, step, id, r) :: StoresAnswer(Next(s, step), id, r)
    ensures forall text | Fails(s, step, id, text) :: StoresError(Next(s, step), id, text)
    ensures (forall r :: !AnswersOk(s, step, id, r)) && (forall text :: !Fails(s, step, id, text)) ==> Unfinished(Next(s, step), id)
  {
    if step.Settle? && s.held[step.worker].runId == id && id in s.rows {
      assert step.outcome.Raised? ==> Fails(s, step, id, Some(step.outcome.message));
      if step.outcome.Answered? {
        var r := step.outcome.response;
        assert r.status == "ok" ==> AnswersOk(s, step, id, r);
        assert r.status != "ok" && s.held[step.worker].attempt >= step.limit ==> Fails(s, step, id, Some(FailureText(r)));
      }
    }
    assert step.Poll? && step.id == id && s.rows[id].attempts + 1 > s.rows[id].maxRetries ==> Fails(s, step, id, None);
  }

  /** Nothing is answered or failed once a run is finished. */
  lemma {:induction false} NothingAfter(s: System, steps: seq<Step>, id: RunId)
    requires Inv(s) && Execution(s, steps) && id in s.rows && Final(s.rows[id])
    ensures forall r :: !AnsweredOk(s, steps, id, r)
    ensures forall text :: !Failed(s, steps, id, text)
    decreases |steps|
  {
    if steps != [] {
      FinalStep(s, steps[0], id);
      NextInv(s, steps[0]);
      NothingAfter(Next(s, steps[0]), steps[1..], id);
    }
  }

  /** Whatever a step of these decides stays decided. */
  lemma DecidedStays(s: System, steps: seq<Step>, id: RunId)
    requires Inv(s) && Execution(s, steps) && steps != [] && Unfinished(s, id)
    requires id in Next(s, steps[0]).rows && Final(Next(s, steps[0]).rows[id])
    ensures After(s, steps).rows == After(Next(s, steps[0]), steps[1..]).rows
    ensures id in After(s, steps).rows && After(s, steps).rows[id] == Next(s, steps[0]).rows[id]
    ensures forall r :: AnsweredOk(s, steps, id, r) <==> AnswersOk(s, steps[0], id, r)
    ensures forall text :: Failed(s, steps, id, text) <==> Fails(s, steps[0], id, text)
  {
    NextInv(s, steps[0]);
    FinalForever(Next(s, steps[0]), steps[1..], id);
    NothingAfter(Next(s, steps[0]), steps[1..], id);
  }

  ghost predicate Decided(s: System, steps: seq<Step>, id: RunId)
    requires Execution(s, steps)
  {
    && (HasSucceeded(After(s, steps), id) <==> exists r :: AnsweredOk(s, steps, id, r))
    && (forall r | AnsweredOk(s, steps, id, r) :: StoresAnswer(After(s, steps), id, r))
    && (HasFailed(After(s, steps), id) <==> exists text :: Failed(s, steps, id, text))
    && (forall text | Failed(s, steps, id, text) :: StoresError(After(s, steps), id, text))
  }

  lemma {:induction false} DecidedFrom(s: System, steps: seq<Step>, id: RunId)
    requires Inv(s) && Execution(s, steps) && Unfinished(s, id)
    ensures Decided(s, steps, id)
    decreases |steps|
  {
    if steps != [] {
      var step, t := steps[0], Next(s, steps[0]);
      UnfinishedStep(s, step, id);
      if r :| AnswersOk(s, step, id, r) {
        DecidedStays(s, steps, id);
      } else if text :| Fails(s, step, id, text) {
        DecidedStays(s, steps, id);
      } else {
        NextInv(s, step);
        DecidedFrom(t, steps[1..], id);
        forall r ensures AnsweredOk(s, steps, id, r) <==> AnsweredOk(t, steps[1..], id, r) {
        }
        forall text ensures Failed(s, steps, id, text) <==> Failed(t, steps[1..], id, text) {
        }
      }
    }
  }

  /** Over every execution: a run has succeeded exactly if a worker that held it settled it with an
      "ok" response, and then stores that response; it has failed exactly if a step failed it, and
      then stores that error. */
  lemma ResultsExactly(steps: seq<Step>, id: RunId)
    requires Execution(INITIAL, steps)
    ensures Decided(INITIAL, steps, id)
  {
    InitialInv();
    DecidedFrom(INITIAL, steps, id);
  }
}
