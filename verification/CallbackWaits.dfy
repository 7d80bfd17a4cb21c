/**
  What a wait ends with: a call or a refusal that reached its future, at once or through the
  loop's list (server/callbacks.py).
*/
module CallbackWaits {
  import opened Callbacks
  import opened Sequences

  // ---------- the loop's list ----------

  /** How often the loop runs a callback. */
  function Runs(events: seq<Event>): nat {
    if events == [] then 0 else (if events[0].RunLoop? then 1 else 0) + Runs(events[1..])
  }

  /** A step takes the first callback off the list when the loop runs it; otherwise it only adds behind. */
  lemma OnlyTheLoopTakes(s: State, e: Event, runOf: Key -> Owner)
    ensures var after := Step(s, e, runOf).scheduled;
            if e.RunLoop? && s.scheduled != [] then after == s.scheduled[1..] else s.scheduled <= after
  {
  }

  /** What is on the list comes up in its turn, after those before it. */
  lemma {:induction false} ComesUpInTurn(s: State, events: seq<Event>, n: nat, runOf: Key -> Owner)
    requires n < |s.scheduled| && Runs(events) == n
    ensures var up := After(s, events, runOf).scheduled;
            up != [] && up[0] == s.scheduled[n]
    decreases |events|
  {
    if events == [] {
    } else {
      var next := Step(s, events[0], runOf);
      OnlyTheLoopTakes(s, events[0], runOf);
      if events[0].RunLoop? {
        assert n > 0 && next.scheduled[n - 1] == s.scheduled[n];
        ComesUpInTurn(next, events[1..], n - 1, runOf);
      } else {
        assert next.scheduled[n] == s.scheduled[n];
        ComesUpInTurn(next, events[1..], n, runOf);
      }
    }
  }

  // ---------- refusals ----------

  predicate Open(s: State, key: Key) { Listening(s, key) && s.futures[s.listeners[key]].cell.Pending? }

  /** A refusal ends an open listener, at once or by the loop; where none is open nothing at all changes. */
  lemma RefusalReachesItsListener(s: State, r: Result, onLoop: bool, runOf: Key -> Owner)
    requires Valid(s)
    ensures var after := Step(s, Reject(r, onLoop), runOf);
            if !Open(s, r.key) then after == s
            else if onLoop then
              && after == s.(futures := after.futures)
              && Completes(s.futures, after.futures, s.listeners[r.key], Settled(r))
            else after == s.(scheduled := s.scheduled + [Settle(s.listeners[r.key], r)])
  {
    assert Listening(s, r.key) <==> r.key in s.listeners;
  }

  /** Once a call or refusal completed a future, every wait on it ends with exactly that, in time or not. */
  lemma WaitEndsWithIt(s: State, f: nat, r: Result, events: seq<Event>, runOf: Key -> Owner)
    requires Valid(s) && f < |s.futures| && s.futures[f].cell == Settled(r)
    ensures var later := After(s, events, runOf);
            && Valid(later) && f < |later.futures| && later.futures[f].cell == Settled(r)
            && forall i: nat, timedOut | CanEnd(later, i, timedOut) && later.waits[i].future == f ::
                 WaitEnded(later, i, timedOut).futures[f].cell == Settled(r)
  {
    EveryHistoryIsValid(s, events, runOf);
  }

  /** A refusal on the loop: whatever follows, a wait on the listener it ended returns it. */
  lemma RefusalEndsTheWait(s: State, r: Result, events: seq<Event>, runOf: Key -> Owner)
    requires Valid(s) && Open(s, r.key)
    ensures var later, f := After(s, [Reject(r, true)] + events, runOf), s.listeners[r.key];
            && f < |later.futures| && later.futures[f].cell == Settled(r)
            && forall i: nat, timedOut | CanEnd(later, i, timedOut) && later.waits[i].future == f ::
                 WaitEnded(later, i, timedOut).futures[f].cell == Settled(r)
  {
    RefusalReachesItsListener(s, r, true, runOf);
    StepKeepsValid(s, Reject(r, true), runOf);
    HeadAndTail(Reject(r, true), events);
    WaitEndsWithIt(Step(s, Reject(r, true), runOf), s.listeners[r.key], r, events, runOf);
  }

  /** What a callback completes its future with. */
  function Brought(c: Callback): Cell { if c.Cancel? then Cancelled else Settled(c.result) }

  /** The loop completes the future of its first callback exactly if that is still open, and no other future. */
  lemma LoopRunsItsFirst(s: State, runOf: Key -> Owner)
    requires Valid(s) && s.scheduled != []
    ensures var c, after := s.scheduled[0], Step(s, RunLoop, runOf);
            && c.future < |s.futures|
            && after == s.(futures := after.futures, scheduled := s.scheduled[1..])
            && (if s.futures[c.future].cell.Pending? then Completes(s.futures, after.futures, c.future, Brought(c))
                else after.futures == s.futures)
  {
    assert s.scheduled[0] in s.scheduled;
  }

  /** When the loop has run what was on its list before a callback, it comes to it and does what it brings. */
  lemma ScheduledIsRun(s: State, events: seq<Event>, n: nat, runOf: Key -> Owner)
    requires Valid(s) && n < |s.scheduled| && Runs(events) == n
    ensures var c, met := s.scheduled[n], After(s, events, runOf);
            var after := Step(met, RunLoop, runOf);
            && c.future < |met.futures|
            && (if met.futures[c.future].cell.Pending? then Completes(met.futures, after.futures, c.future, Brought(c))
                else after.futures == met.futures)
  {
    EveryHistoryIsValid(s, events, runOf);
    ComesUpInTurn(s, events, n, runOf);
    LoopRunsItsFirst(After(s, events, runOf), runOf);
  }

  /** A refusal from another thread: the loop comes to it and sets it exactly if the future is still open then. */
  lemma HandedOverRefusalIsSet(s: State, r: Result, events: seq<Event>, runOf: Key -> Owner)
    requires Valid(s) && Open(s, r.key) && Runs(events) == |s.scheduled|
    ensures var f, met := s.listeners[r.key], After(s, [Reject(r, false)] + events, runOf);
            var after := Step(met, RunLoop, runOf);
            && f < |met.futures|
            && (if met.futures[f].cell.Pending? then Completes(met.futures, after.futures, f, Settled(r))
                else after.futures == met.futures)
  {
    RefusalReachesItsListener(s, r, false, runOf);
    StepKeepsValid(s, Reject(r, false), runOf);
    HeadAndTail(Reject(r, false), events);
    ScheduledIsRun(Step(s, Reject(r, false), runOf), events, |s.scheduled|, runOf);
  }

  /** What a wait begins on is the listener of its key, so a refusal of that key is what it ends with. */
  lemma WaitIsOnItsListener(s: State, key: Key, runOf: Key -> Owner)
    requires Valid(s) && Listening(s, key)
    ensures var after := Step(s, BeginWait(key), runOf);
            && after == s.(awaited := s.awaited + {key}, waits := after.waits)
            && after.waits == s.waits + [Wait(key, s.listeners[key])]
  {
  }

  // ---------- a run forgotten ----------

  /** Some listener of the run has this future. */
  ghost predicate ListensFor(s: State, run: Run, runOf: Key -> Owner, f: nat) {
    exists key :: key in s.listeners && s.listeners[key] == f && runOf(key) == OfRun(run)
  }

  lemma {:induction false} CancelsOnlyThose(s: State, run: Run, runOf: Key -> Owner, order: seq<Key>, c: Callback)
    requires c in Cancels(s, run, runOf, order)
    ensures c.Cancel? && ListensFor(s, run, runOf, c.future)
  {
    if order == [] {
      assert false;
    } else if c in Cancels(s, run, runOf, order[1..]) {
      CancelsOnlyThose(s, run, runOf, order[1..], c);
    }
  }

  /** What forgetting a run asks of the loop is to cancel listeners of that run; waits and futures stay as they are. */
  lemma ForgettingOnlyCancels(s: State, run: Run, order: seq<Key>, runOf: Key -> Owner, i: nat)
    requires |s.scheduled| <= i < |Step(s, ForgetRun(run, order), runOf).scheduled|
    ensures var after := Step(s, ForgetRun(run, order), runOf);
            && after.futures == s.futures && after.waits == s.waits && s.scheduled <= after.scheduled
            && after.scheduled[i].Cancel? && ListensFor(s, run, runOf, after.scheduled[i].future)
  {
    CancelsOnlyThose(s, run, runOf, order, Step(s, ForgetRun(run, order), runOf).scheduled[i]);
  }

  // ---------- refusals counted ----------

  /** The calls on a key turned away since its run was last forgotten, or everything cleared. */
  function TurnedAway(events: seq<Event>, key: Key, runOf: Key -> Owner): nat {
    if events == [] then 0
    else CountedOn(TurnedAway(events[..|events| - 1], key, runOf), events[|events| - 1], key, runOf)
  }

  function CountedOn(before: nat, e: Event, key: Key, runOf: Key -> Owner): nat {
    match e
    case Refuse(k) => if k == key then before + 1 else before
    case ForgetRun(run, _) => if runOf(key) == OfRun(run) then 0 else before
    case Clear => 0
    case _ => before
  }

  function Count(s: State, key: Key): nat { if key in s.refused then s.refused[key] else 0 }

  lemma CountAfter(s: State, e: Event, key: Key, runOf: Key -> Owner)
    ensures Count(Step(s, e, runOf), key) == CountedOn(Count(s, key), e, key, runOf)
  {
  }

  /** In every history the count kept for a key is the number of its calls turned away since then. */
  lemma {:induction false} RefusalsAreCounted(events: seq<Event>, key: Key, runOf: Key -> Owner)
    ensures Count(After(START, events, runOf), key) == TurnedAway(events, key, runOf)
  {
    if events == [] {
    } else {
      var n := |events| - 1;
      RefusalsAreCounted(events[..n], key, runOf);
      OneStepFurther(START, events, n, runOf);
      assert events[..n + 1] == events;
      CountAfter(After(START, events[..n], runOf), events[n], key, runOf);
    }
  }
}
