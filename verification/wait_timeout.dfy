/** WaitUntilTimeout: a caller, a goroutine running the work, a one-place channel and a timer, in any interleaving. */
module WaitTimeout {

  /** Result of the work or of the timeout function. */
  datatype Outcome = Succeeded | Failed(message: string)

  datatype Worker = Working | Assigned(result: Outcome) | Sent(result: Outcome)

  datatype Caller = Waiting | ReturnedWork(result: Outcome) | ReturnedTimeout(result: Outcome)

  /** `err` is the variable that both goroutines share. */
  datatype State = State(worker: Worker, caller: Caller, err: Outcome, channel: nat, timerFired: bool)

  const CAPACITY: nat := 1

  ghost predicate Init(s: State) {
    s == State(Working, Waiting, Succeeded, 0, false)
  }

  datatype Step =
    | WorkReturns(result: Outcome)
    | SendDone
    | TimerFires
    | ReceiveDone
    | TakeTimeout(result: Outcome)

  ghost predicate Enabled(s: State, step: Step) {
    match step
    case WorkReturns(_) => s.worker.Working?
    case SendDone => s.worker.Assigned? && s.channel < CAPACITY
    case TimerFires => true
    case ReceiveDone => s.caller.Waiting? && s.channel > 0
    case TakeTimeout(_) => s.caller.Waiting? && s.timerFired
  }

  ghost function Apply(s: State, step: Step): State
    requires Enabled(s, step)
  {
    match step
    case WorkReturns(r) => s.(worker := Assigned(r), err := r)
    case SendDone => s.(worker := Sent(s.worker.result), channel := s.channel + 1)
    case TimerFires => s.(timerFired := true)
    case ReceiveDone => s.(caller := ReturnedWork(s.err), channel := s.channel - 1)
    case TakeTimeout(r) => s.(caller := ReturnedTimeout(r))
  }

  /** Performing the steps in order, each enabled when its turn comes, leads from s to t. */
  ghost predicate Runs(s: State, steps: seq<Step>, t: State)
    decreases |steps|
  {
    if steps == [] then t == s
    else Enabled(s, steps[0]) && Runs(Apply(s, steps[0]), steps[1..], t)
  }

  /** The token is nowhere, in the channel, or received; the caller's answer is the shared variable's last value. */
  ghost predicate Inv(s: State) {
    && s.channel <= CAPACITY
    && (s.worker.Sent? <==> s.channel == 1 || s.caller.ReturnedWork?)
    && (s.caller.ReturnedWork? ==> s.channel == 0)
    && (s.worker.Assigned? || s.worker.Sent? ==> s.err == s.worker.result)
    && (s.caller.ReturnedWork? ==> s.worker.Sent? && s.caller.result == s.worker.result)
    && (s.caller.ReturnedTimeout? ==> s.timerFired)
  }

  /** History: what the run so far must contain. */
  ghost predicate Explained(s: State, history: seq<Step>) {
    && Inv(s)
    && (!s.worker.Working? ==> WorkReturns(s.worker.result) in history)
    && (s.timerFired ==> TimerFires in history)
    && (s.caller.ReturnedTimeout? ==> TakeTimeout(s.caller.result) in history)
  }

  lemma {:induction false} RunsKeepExplained(s: State, history: seq<Step>, steps: seq<Step>, t: State)
    requires Explained(s, history) && Runs(s, steps, t)
    ensures Explained(t, history + steps)
    decreases |steps|
  {
    if steps == [] {
      assert history + steps == history;
    } else {
      RunsKeepExplained(Apply(s, steps[0]), history + [steps[0]], steps[1..], t);
      assert history + [steps[0]] + steps[1..] == history + steps;
    }
  }

  /** Over every interleaving: a result of the work is returned only if the work produced it and its completion was
      received; a worker that is ready to send is never blocked; a timeout is returned only after the timer fired. */
  lemma WaitIsSound(s: State, steps: seq<Step>, t: State)
    requires Init(s) && Runs(s, steps, t)
    ensures t.caller.ReturnedWork? ==> t.worker == Sent(t.caller.result) && WorkReturns(t.caller.result) in steps
    ensures t.worker.Sent? ==> (t.caller.ReturnedWork? <==> t.channel == 0)
    ensures t.worker.Assigned? ==> Enabled(t, SendDone)
    ensures t.caller.Waiting? && t.worker.Sent? ==> Enabled(t, ReceiveDone)
    ensures t.caller.ReturnedTimeout? ==> TimerFires in steps && TakeTimeout(t.caller.result) in steps
  {
    RunsKeepExplained(s, [], steps, t);
    assert [] + steps == steps;
  }

  /** Once the caller has returned, no later step changes its answer. */
  lemma {:induction false} AnswerIsFinal(s: State, steps: seq<Step>, t: State)
    requires !s.caller.Waiting? && Runs(s, steps, t)
    ensures t.caller == s.caller
    decreases |steps|
  {
    if steps != [] {
      AnswerIsFinal(Apply(s, steps[0]), steps[1..], t);
    }
  }

  /** The caller may already have returned a timeout while the work goes on, and succeeds later. */
  lemma TimedOutWorkGoesOn(s: State, e: Outcome) returns (t: State)
    requires Init(s)
    ensures Runs(s, [TimerFires, TakeTimeout(e), WorkReturns(Succeeded)], t)
    ensures t.caller == ReturnedTimeout(e) && t.worker == Assigned(Succeeded)
  {
    var a := Apply(s, TimerFires);
    var b := Apply(a, TakeTimeout(e));
    t := Apply(b, WorkReturns(Succeeded));
    assert Runs(t, [], t);
    assert Runs(b, [WorkReturns(Succeeded)], t);
    assert Runs(a, [TakeTimeout(e), WorkReturns(Succeeded)], t) by {
      assert [TakeTimeout(e), WorkReturns(Succeeded)][1..] == [WorkReturns(Succeeded)];
    }
    assert [TimerFires, TakeTimeout(e), WorkReturns(Succeeded)][1..] == [TakeTimeout(e), WorkReturns(Succeeded)];
  }
}
