/**
  The life of a job: its status, the gate that holds its run while it is paused, and the
  gate's mirror, the pause request (player/jobs.py).
*/
module Jobs {
  import opened Sequences
  import opened Wrappers
  import opened Selections

  datatype Status = Queued | Running | Paused | WaitingForCall | Completed | Failed | Cancelled

  datatype Job = Job(status: Status, waitingFor: Option<string>, currentStep: Option<string>, error: Option<string>)

  /** Gates are open or closed, requests set or not; one never asked for is open, or not set. */
  datatype State = State(jobs: map<JobId, Job>, gates: map<JobId, bool>, requests: map<JobId, bool>, board: Board)

  const START: State := State(map[], map[], map[], NO_QUESTIONS)

  predicate GateOpen(s: State, id: JobId) { id in s.gates ==> s.gates[id] }

  predicate Requested(s: State, id: JobId) { id in s.requests && s.requests[id] }

  predicate IsPaused(s: State, id: JobId) { id in s.jobs && s.jobs[id].status.Paused? }

  datatype Event =
    | Create(id: JobId)
    | Start(id: JobId)
    | Complete(id: JobId)
    | Fail(id: JobId, reason: string)
    | Wait(id: JobId, step: string, url: string)
    | Resume(id: JobId)
    | Pause(id: JobId)
    | Cancel(id: JobId)
    | TouchGate(id: JobId)
    | TouchRequest(id: JobId)

  datatype Outcome = Done | NoSuchJob | CannotPause(status: Status)

  function WithStatus(s: State, id: JobId, status: Status): State
    requires id in s.jobs
  {
    s.(jobs := s.jobs[id := s.jobs[id].(status := status)])
  }

  /** The gate and its mirror moved together. */
  function WithGate(s: State, id: JobId, open: bool): State {
    s.(gates := s.gates[id := open], requests := s.requests[id := !open])
  }

  function OutcomeOf(s: State, e: Event): Outcome {
    if e.Create? || e.TouchGate? || e.TouchRequest? then Done
    else if e.id !in s.jobs then NoSuchJob
    else if e.Pause? && !s.jobs[e.id].status.Running? then CannotPause(s.jobs[e.id].status)
    else Done
  }

  function Next(s: State, e: Event): State {
    if !OutcomeOf(s, e).Done? then s
    else
      match e
      case Create(id) => s.(jobs := s.jobs[id := Job(Queued, None, None, None)], gates := s.gates[id := true])
      case Start(id) => WithStatus(s, id, Running)
      case Complete(id) => WithStatus(s, id, Completed)
      case Fail(id, reason) =>
        s.(jobs := s.jobs[id := s.jobs[id].(status := Failed, error := if reason == "" then None else Some(reason))])
      case Wait(id, step, url) =>
        var waiting := s.jobs[id].(status := WaitingForCall, waitingFor := Some(url), currentStep := Some(step));
        s.(jobs := s.jobs[id := waiting])
      case Resume(id) =>
        if s.jobs[id].status.WaitingForCall? then
          s.(jobs := s.jobs[id := s.jobs[id].(status := Running, waitingFor := None)])
        else if s.jobs[id].status.Paused? then WithGate(WithStatus(s, id, Running), id, true)
        else s
      case Pause(id) => WithGate(WithStatus(s, id, Paused), id, false)
      case Cancel(id) =>
        if s.jobs[id].status.Completed? || s.jobs[id].status.Failed? || s.jobs[id].status.Cancelled? then s
        else
          var closed := s.(board := ClosedFor(s.board, id));
          WithStatus(if s.jobs[id].status.Paused? then WithGate(closed, id, true) else closed, id, Cancelled)
      case TouchGate(id) => if id in s.gates then s else s.(gates := s.gates[id := true])
      case TouchRequest(id) => if id in s.requests then s else s.(requests := s.requests[id := false])
  }

  function After(s: State, events: seq<Event>): State {
    if events == [] then s else Next(After(s, events[..|events| - 1]), events[|events| - 1])
  }

  /** A request is set exactly while its gate is closed, and a gate is closed exactly while its job is paused. */
  ghost predicate InStep(s: State) { forall id :: InStepAt(s, id) }

  predicate InStepAt(s: State, id: JobId) {
    (Requested(s, id) <==> !GateOpen(s, id)) && (!GateOpen(s, id) <==> IsPaused(s, id))
  }

  /** What takes a paused job out of its pause without opening the gate, or without dropping the request. */
  predicate Interrupts(s: State, e: Event) {
    (e.Create? || e.Start? || e.Complete? || e.Fail? || e.Wait?) && IsPaused(s, e.id)
  }

  /** Gate, request and status stay in step through an event exactly when it does not interrupt a pause. */
  lemma StepKeepsInStepExactly(s: State, e: Event)
    requires InStep(s)
    ensures InStep(Next(s, e)) <==> !Interrupts(s, e)
  {
    var after := Next(s, e);
    if Interrupts(s, e) {
      assert InStepAt(s, e.id) && !InStepAt(after, e.id);
    } else {
      forall id ensures InStepAt(after, id) {
        assert InStepAt(s, id);
      }
    }
  }

  /** No event of the history interrupts a pause. */
  ghost predicate Orderly(s: State, events: seq<Event>) {
    forall i :: 0 <= i < |events| ==> OrderlyAt(s, events, i)
  }

  predicate OrderlyAt(s: State, events: seq<Event>, i: nat)
    requires i < |events|
  {
    !Interrupts(After(s, events[..i]), events[i])
  }

  lemma {:induction false} OrderlyStaysInStep(s: State, events: seq<Event>)
    requires InStep(s) && Orderly(s, events)
    ensures InStep(After(s, events))
  {
    if events == [] {
    } else {
      var front, last := events[..|events| - 1], events[|events| - 1];
      forall i | 0 <= i < |front| ensures OrderlyAt(s, front, i) {
        assert front[..i] == events[..i] && OrderlyAt(s, events, i);
      }
      assert OrderlyAt(s, events, |front|);
      OrderlyStaysInStep(s, front);
      StepKeepsInStepExactly(After(s, front), last);
    }
  }

  lemma AfterOneMore(s: State, events: seq<Event>, i: nat)
    requires i < |events|
    ensures After(s, events[..i + 1]) == Next(After(s, events[..i]), events[i])
  {
    TakeOneMore(events, i);
  }

  /** At every moment of a history all is in step exactly when no event of it interrupts a pause. */
  lemma InStepThroughoutExactly(s: State, events: seq<Event>)
    requires InStep(s)
    ensures (forall i :: 0 <= i <= |events| ==> InStep(After(s, events[..i]))) <==> Orderly(s, events)
  {
    if Orderly(s, events) {
      forall i | 0 <= i <= |events| ensures InStep(After(s, events[..i])) {
        PartIsOrderly(s, events, i);
        OrderlyStaysInStep(s, events[..i]);
      }
    } else {
      var i :| 0 <= i < |events| && !OrderlyAt(s, events, i);
      AfterOneMore(s, events, i);
      if InStep(After(s, events[..i])) {
        StepKeepsInStepExactly(After(s, events[..i]), events[i]);
      }
    }
  }

  lemma PartIsOrderly(s: State, events: seq<Event>, n: nat)
    requires Orderly(s, events) && n <= |events|
    ensures Orderly(s, events[..n])
  {
    forall i | 0 <= i < n ensures OrderlyAt(s, events[..n], i) {
      assert OrderlyAt(s, events, i) && events[..n][..i] == events[..i];
    }
  }

  /** Resuming undoes pausing: to whoever looks, nothing of any job is changed. */
  lemma ResumeUndoesPause(s: State, id: JobId)
    requires InStep(s) && id in s.jobs && s.jobs[id].status.Running?
    ensures var paused, back := Next(s, Pause(id)), Next(Next(s, Pause(id)), Resume(id));
            && IsPaused(paused, id) && !GateOpen(paused, id)
            && back.jobs == s.jobs && back.board == s.board
            && forall other :: (GateOpen(back, other) <==> GateOpen(s, other))
                 && (Requested(back, other) <==> Requested(s, other))
  {
    assert InStepAt(s, id);
    var back := Next(Next(s, Pause(id)), Resume(id));
    assert back.jobs[id] == s.jobs[id];
    assert back.jobs == s.jobs;
  }

  /** In every orderly history a cancelled job can go on to its end: its gate is open and it asks nothing. */
  lemma CancelAlwaysFreesTheRun(events: seq<Event>, id: JobId)
    requires Orderly(START, events) && id in After(START, events).jobs
    ensures var after := Next(After(START, events), Cancel(id));
            GateOpen(after, id) && !Requested(after, id)
  {
    OrderlyStaysInStep(START, events);
    CancelFrees(After(START, events), id);
  }

  lemma CancelFrees(s: State, id: JobId)
    requires InStep(s) && id in s.jobs
    ensures GateOpen(Next(s, Cancel(id)), id) && !Requested(Next(s, Cancel(id)), id)
  {
    assert InStepAt(s, id);
  }

  /** Started again while paused, a job runs behind a closed gate that cancelling does not open. */
  lemma InterruptedPauseStaysClosed(id: JobId)
    ensures var events := [Create(id), Start(id), Pause(id), Start(id), Cancel(id)];
            var s := After(START, events);
            id in s.jobs && s.jobs[id].status == Status.Cancelled && !GateOpen(s, id)
  {
    var s1 := Next(START, Create(id));
    var s2 := Next(s1, Start(id));
    var s3 := Next(s2, Pause(id));
    var s4 := Next(s3, Start(id));
    var s5 := Next(s4, Cancel(id));
    var e := [Create(id), Start(id), Pause(id), Start(id), Cancel(id)];
    assert e[..4] == [Create(id), Start(id), Pause(id), Start(id)];
    assert e[..4][..3] == [Create(id), Start(id), Pause(id)];
    assert e[..4][..3][..2] == [Create(id), Start(id)];
    assert e[..4][..3][..2][..1] == [Create(id)];
    assert e[..4][..3][..2][..1][..0] == [];
    assert After(START, []) == START;
    assert After(START, e[..4][..3][..2][..1]) == s1;
    assert After(START, e[..4][..3][..2]) == s2;
    assert After(START, e[..4][..3]) == s3;
    assert After(START, e[..4]) == s4;
    assert After(START, e) == s5;
  }

  // ---------- what one call does, as its caller sees it ----------

  /** Nothing of the job with this id is changed. */
  predicate SameFor(s: State, t: State, id: JobId) {
    && (id in s.jobs <==> id in t.jobs) && (id in s.jobs ==> s.jobs[id] == t.jobs[id])
    && (GateOpen(s, id) <==> GateOpen(t, id)) && (Requested(s, id) <==> Requested(t, id))
  }

  /** Only this job is touched, and everything stays in step unless a pause is interrupted. */
  ghost predicate Contained(s: State, t: State, id: JobId, interrupts: bool) {
    && (forall other :: other != id ==> SameFor(s, t, other))
    && (InStep(s) && !interrupts ==> InStep(t))
  }

  predicate HasEnded(s: State, id: JobId) {
    id in s.jobs && (s.jobs[id].status.Completed? || s.jobs[id].status.Failed? || s.jobs[id].status.Cancelled?)
  }

  /** The job with this id, if there is one, has this status now; no other job is changed. */
  predicate Moves(before: map<JobId, Job>, after: map<JobId, Job>, id: JobId, status: Status) {
    && after.Keys == before.Keys
    && (forall other :: other in before && other != id ==> after[other] == before[other])
    && (id in before ==> after[id].status == status)
  }

  lemma NextIsContained(s: State, e: Event)
    ensures Contained(s, Next(s, e), e.id, Interrupts(s, e))
  {
    if InStep(s) {
      StepKeepsInStepExactly(s, e);
    }
  }

  // ---------- the manager as the program keeps it ----------

  class JobManager {
    var jobs: map<JobId, Job>
    var gates: map<JobId, bool>
    var requests: map<JobId, bool>
    const selections: SelectionBoard

    ghost function Now(): State
      reads this, selections
    {
      State(jobs, gates, requests, selections.Now())
    }

    /** Every job has its gate, so moving it finds one. */
    ghost predicate Valid()
      reads this, selections
    {
      Selections.Valid(selections.Now()) && forall id :: id in jobs ==> id in gates
    }

    constructor ()
      ensures Valid() && Now() == START && fresh(selections)
    {
      jobs, gates, requests := map[], map[], map[];
      selections := new SelectionBoard();
    }

    method Create(id: JobId)
      requires Valid()
      modifies this
      ensures Valid() && Now() == Next(old(Now()), Event.Create(id))
      ensures id in jobs && jobs[id] == Job(Queued, None, None, None) && GateOpen(Now(), id)
      ensures Requested(Now(), id) <==> Requested(old(Now()), id)
      ensures Contained(old(Now()), Now(), id, IsPaused(old(Now()), id))
    {
      NextIsContained(Now(), Event.Create(id));
      jobs := jobs[id := Job(Queued, None, None, None)];
      gates := gates[id := true];
    }

    method SetStatus(id: JobId, status: Status)
      requires Valid() && id in jobs
      modifies this`jobs
      ensures Valid() && Now() == WithStatus(old(Now()), id, status)
    {
      jobs := jobs[id := jobs[id].(status := status)];
    }

    /** Opens or closes a gate there is; the program looks it up and fails where there is none. */
    method MoveGate(id: JobId, open: bool)
      requires id in gates
      modifies this`gates, this`requests
      ensures gates == old(gates)[id := open] && requests == old(requests)[id := !open]
    {
      requests := requests[id := !open];
      gates := gates[id := open];
    }

    method Start(id: JobId) returns (outcome: Outcome)
      requires Valid()
      modifies this`jobs
      ensures Valid() && Now() == Next(old(Now()), Event.Start(id))
      ensures outcome == if id in old(jobs) then Done else NoSuchJob
      ensures Moves(old(jobs), jobs, id, Running)
    {
      if id !in jobs {
        return NoSuchJob;
      }
      SetStatus(id, Running);
      return Done;
    }

    method Complete(id: JobId) returns (outcome: Outcome)
      requires Valid()
      modifies this`jobs
      ensures Valid() && Now() == Next(old(Now()), Event.Complete(id))
      ensures outcome == if id in old(jobs) then Done else NoSuchJob
      ensures Moves(old(jobs), jobs, id, Completed)
    {
      if id !in jobs {
        return NoSuchJob;
      }
      SetStatus(id, Completed);
      return Done;
    }

    method Fail(id: JobId, reason: string) returns (outcome: Outcome)
      requires Valid()
      modifies this`jobs
      ensures Valid() && Now() == Next(old(Now()), Event.Fail(id, reason))
      ensures outcome == if id in old(jobs) then Done else NoSuchJob
      ensures Moves(old(jobs), jobs, id, Failed)
      ensures id in jobs ==> jobs[id].error == if reason == "" then None else Some(reason)
    {
      if id !in jobs {
        return NoSuchJob;
      }
      jobs := jobs[id := jobs[id].(status := Failed, error := if reason == "" then None else Some(reason))];
      return Done;
    }

    method Wait(id: JobId, step: string, url: string) returns (outcome: Outcome)
      requires Valid()
      modifies this`jobs
      ensures Valid() && Now() == Next(old(Now()), Event.Wait(id, step, url))
      ensures outcome == if id in old(jobs) then Done else NoSuchJob
      ensures Moves(old(jobs), jobs, id, WaitingForCall)
      ensures id in jobs ==> jobs[id].waitingFor == Some(url) && jobs[id].currentStep == Some(step)
    {
      if id !in jobs {
        return NoSuchJob;
      }
      jobs := jobs[id := jobs[id].(status := WaitingForCall, waitingFor := Some(url), currentStep := Some(step))];
      return Done;
    }

    method Resume(id: JobId) returns (outcome: Outcome)
      requires Valid()
      modifies this
      ensures Valid() && Now() == Next(old(Now()), Event.Resume(id))
      ensures outcome == if id in old(jobs) then Done else NoSuchJob
      ensures IsPaused(old(Now()), id) ==> jobs[id].status.Running? && GateOpen(Now(), id) && !Requested(Now(), id)
      ensures id in jobs ==> old(jobs)[id].status.WaitingForCall? ==>
                jobs[id].status.Running? && jobs[id].waitingFor.None? && gates == old(gates)
                  && requests == old(requests)
      ensures id in jobs && !old(jobs)[id].status.Paused? && !old(jobs)[id].status.WaitingForCall? ==>
          Now() == old(Now())
      ensures Contained(old(Now()), Now(), id, false)
    {
      NextIsContained(Now(), Event.Resume(id));
      if id !in jobs {
        return NoSuchJob;
      }
      if jobs[id].status.WaitingForCall? {
        jobs := jobs[id := jobs[id].(status := Running, waitingFor := None)];
      } else if jobs[id].status.Paused? {
        SetStatus(id, Running);
        MoveGate(id, true);
      }
      return Done;
    }

    method Pause(id: JobId) returns (outcome: Outcome)
      requires Valid()
      modifies this
      ensures Valid() && Now() == Next(old(Now()), Event.Pause(id))
      ensures outcome == if id !in old(jobs) then NoSuchJob
                         else if !old(jobs)[id].status.Running? then CannotPause(old(jobs)[id].status)
                         else Done
      ensures outcome.Done? ==> IsPaused(Now(), id) && !GateOpen(Now(), id) && Requested(Now(), id)
      ensures !outcome.Done? ==> Now() == old(Now())
      ensures Contained(old(Now()), Now(), id, false)
    {
      NextIsContained(Now(), Event.Pause(id));
      if id !in jobs {
        return NoSuchJob;
      }
      if !jobs[id].status.Running? {
        return CannotPause(jobs[id].status);
      }
      SetStatus(id, Paused);
      MoveGate(id, false);
      return Done;
    }

    method Cancel(id: JobId) returns (outcome: Outcome)
      requires Valid()
      modifies this, selections
      ensures Valid() && Now() == Next(old(Now()), Event.Cancel(id))
      ensures outcome == if id in old(jobs) then Done else NoSuchJob
      ensures HasEnded(old(Now()), id) ==> Now() == old(Now())
      ensures id in jobs && !HasEnded(old(Now()), id) ==>
          jobs[id].status == Status.Cancelled && !HasPending(selections.Now(), id)
      ensures id in jobs && !HasEnded(old(Now()), id) && HasPending(old(selections.Now()), id) ==>
                selections.Now().cells[old(selections.Now()).open[id].answer].answer == Withdrawn
      ensures GateOpen(Now(), id) <==> old(GateOpen(Now(), id)) || IsPaused(old(Now()), id)
      ensures id in jobs && InStep(old(Now())) ==> GateOpen(Now(), id) && !Requested(Now(), id)
      ensures Contained(old(Now()), Now(), id, false)
    {
      NextIsContained(Now(), Event.Cancel(id));
      if id in jobs && InStep(Now()) {
        CancelFrees(Now(), id);
      }
      if id !in jobs {
        return NoSuchJob;
      }
      var status := jobs[id].status;
      if status.Completed? || status.Failed? || status.Cancelled? {
        return Done;
      }
      selections.Close(id);
      if status.Paused? {
        MoveGate(id, true);
      }
      SetStatus(id, Status.Cancelled);
      return Done;
    }

    method GetPauseEvent(id: JobId) returns (open: bool)
      requires Valid()
      modifies this`gates
      ensures Valid() && Now() == Next(old(Now()), TouchGate(id)) && open == GateOpen(old(Now()), id)
    {
      if id !in gates {
        gates := gates[id := true];
      }
      return gates[id];
    }

    method GetPauseRequest(id: JobId) returns (set_: bool)
      requires Valid()
      modifies this`requests
      ensures Valid() && Now() == Next(old(Now()), TouchRequest(id)) && set_ == Requested(old(Now()), id)
    {
      if id !in requests {
        requests := requests[id := false];
      }
      return requests[id];
    }
  }
}
