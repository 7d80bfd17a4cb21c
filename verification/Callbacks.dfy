/**
  Listeners for inbound calls: set-once futures, a buffer for calls that come before their
  listener, and waits that end with a call, a refusal or a timeout (server/callbacks.py).
*/
module Callbacks {
  import opened Sequences

  /** What a listener is found by: the method of a call and its path, which tells the run. */
  type Key = string

  type Run = string

  /** The run a key belongs to, if any. */
  datatype Owner = Nobody | OfRun(run: Run)

  /** A call as the wait gets it; `refused` says it was turned away. */
  datatype Result = Result(key: Key, payload: int, refused: bool)

  datatype Cell = Pending | Settled(result: Result) | Cancelled

  /** A future, and the listener key it was made for. */
  datatype Future = Future(key: Key, cell: Cell)

  /** What another thread asked the loop to do next; only the last two look before they act. */
  datatype Callback = SetResult(future: nat, result: Result) | Settle(future: nat, result: Result) | Cancel(future: nat)

  /** A wait under way, on the future that was the listener when it began. */
  datatype Wait = Wait(key: Key, future: nat)

  datatype State = State(
    listeners: map<Key, nat>,
    buffered: map<Key, Result>,
    refused: map<Key, nat>,
    awaited: set<Key>,
    futures: seq<Future>,
    waits: seq<Wait>,
    scheduled: seq<Callback>
  )

  const START: State := State(map[], map[], map[], {}, [], [], [])

  // ---------- the operations ----------

  /** Refused or cancelled: a listener that a new registration replaces. */
  predicate IsStale(cell: Cell) {
    match cell
    case Pending => false
    case Settled(result) => result.refused
    case Cancelled => true
  }

  predicate Listening(s: State, key: Key) { key in s.listeners && s.listeners[key] < |s.futures| }

  function CellOf(s: State, key: Key): Cell
    requires Listening(s, key)
  {
    s.futures[s.listeners[key]].cell
  }

  function Put(futures: seq<Future>, f: nat, cell: Cell): seq<Future>
    requires f < |futures|
  {
    futures[f := futures[f].(cell := cell)]
  }

  /** Registering opens a listener where none serves, and hands it the call that came before it. */
  function Registered(s: State, key: Key): State {
    if Listening(s, key) && !IsStale(CellOf(s, key)) then s
    else
      var cell := if key in s.buffered then Settled(s.buffered[key]) else Pending;
      s.(listeners := s.listeners[key := |s.futures|],
         buffered := s.buffered - {key},
         futures := s.futures + [Future(key, cell)])
  }

  /** A call made on the loop itself. */
  function Resolved(s: State, r: Result): State {
    if !Listening(s, r.key) then s.(buffered := s.buffered[r.key := r])
    else if CellOf(s, r.key).Pending? then s.(futures := Put(s.futures, s.listeners[r.key], Settled(r)))
    else s
  }

  /** Whether the caller is told the call was taken. */
  predicate Taken(s: State, r: Result) { !Listening(s, r.key) || CellOf(s, r.key).Pending? }

  /** A call on another thread: the result is handed to the loop, which sets it without looking. */
  function ResolvedElsewhere(s: State, r: Result): State {
    if Listening(s, r.key) && CellOf(s, r.key).Pending? then
      s.(scheduled := s.scheduled + [SetResult(s.listeners[r.key], r)])
    else Resolved(s, r)
  }

  /** A refusal ends an open listener and is never buffered. */
  function Rejected(s: State, r: Result, onLoop: bool): State {
    if !Listening(s, r.key) || !CellOf(s, r.key).Pending? then s
    else if onLoop then s.(futures := Put(s.futures, s.listeners[r.key], Settled(r)))
    else s.(scheduled := s.scheduled + [Settle(s.listeners[r.key], r)])
  }

  function Counted(s: State, key: Key): State {
    s.(refused := s.refused[key := 1 + if key in s.refused then s.refused[key] else 0])
  }

  /** A wait on a key nothing listens for ends at once, timed out. */
  function WaitBegun(s: State, key: Key): State {
    if !Listening(s, key) then s
    else s.(awaited := s.awaited + {key}, waits := s.waits + [Wait(key, s.listeners[key])])
  }

  predicate CanEnd(s: State, i: nat, timedOut: bool) {
    i < |s.waits| && s.waits[i].future < |s.futures| && (timedOut || !s.futures[s.waits[i].future].cell.Pending?)
  }

  /** A wait ends: a timeout cancels its future, and the key's listener goes either way. */
  function WaitEnded(s: State, i: nat, timedOut: bool): State
    requires CanEnd(s, i, timedOut)
  {
    var w := s.waits[i];
    var open := s.futures[w.future].cell.Pending?;
    var futures := if timedOut && open then Put(s.futures, w.future, Cancelled) else s.futures;
    s.(awaited := s.awaited - {w.key}, listeners := s.listeners - {w.key}, futures := futures,
       waits := s.waits[..i] + s.waits[i + 1..])
  }

  /** All that is kept for a run goes; its listeners, met in `order`, are cancelled by the loop. */
  function RunForgotten(s: State, run: Run, runOf: Key -> Owner, order: seq<Key>): State {
    var gone := set key | key in s.listeners && runOf(key) == OfRun(run);
    s.(listeners := s.listeners - gone,
       buffered := map key | key in s.buffered && runOf(key) != OfRun(run) :: s.buffered[key],
       refused := map key | key in s.refused && runOf(key) != OfRun(run) :: s.refused[key],
       awaited := (set key | key in s.awaited && runOf(key) != OfRun(run)),
       scheduled := s.scheduled + Cancels(s, run, runOf, order))
  }

  function Cancels(s: State, run: Run, runOf: Key -> Owner, order: seq<Key>): seq<Callback> {
    if order == [] then []
    else
      (if order[0] in s.listeners && runOf(order[0]) == OfRun(run) then [Cancel(s.listeners[order[0]])] else [])
      + Cancels(s, run, runOf, order[1..])
  }

  /** Every listener cancelled, every table emptied. */
  function Cleared(s: State): State {
    var open := set key | key in s.listeners :: s.listeners[key];
    s.(listeners := map[], buffered := map[], refused := map[], awaited := {},
       futures := seq(|s.futures|, f requires 0 <= f < |s.futures| =>
         Closed(s.futures[f], f in open)))
  }

  function Closed(future: Future, open: bool): Future {
    if open && future.cell.Pending? then future.(cell := Cancelled) else future
  }

  /** The loop runs the next callback it was handed; setting a completed future fails. */
  function LoopRan(s: State): State
    requires s.scheduled != []
  {
    var next := s.(scheduled := s.scheduled[1..]);
    var c := s.scheduled[0];
    if c.future >= |s.futures| then next
    else
      var open := s.futures[c.future].cell.Pending?;
      match c
      case SetResult(f, r) => if open then next.(futures := Put(s.futures, f, Settled(r))) else next
      case Settle(f, r) => if open then next.(futures := Put(s.futures, f, Settled(r))) else next
      case Cancel(f) => if open then next.(futures := Put(s.futures, f, Cancelled)) else next
  }

  // ---------- every step ----------

  datatype Event =
    | Register(key: Key)
    | Resolve(result: Result, onLoop: bool)
    | Reject(result: Result, onLoop: bool)
    | Refuse(key: Key)
    | BeginWait(key: Key)
    | EndWait(index: nat, timedOut: bool)
    | ForgetRun(run: Run, order: seq<Key>)
    | Clear
    | RunLoop

  function Step(s: State, e: Event, runOf: Key -> Owner): State {
    match e
    case Register(key) => Registered(s, key)
    case Resolve(r, onLoop) => if onLoop then Resolved(s, r) else ResolvedElsewhere(s, r)
    case Reject(r, onLoop) => Rejected(s, r, onLoop)
    case Refuse(key) => Counted(s, key)
    case BeginWait(key) => WaitBegun(s, key)
    case EndWait(i, timedOut) => if CanEnd(s, i, timedOut) then WaitEnded(s, i, timedOut) else s
    case ForgetRun(run, order) => RunForgotten(s, run, runOf, order)
    case Clear => Cleared(s)
    case RunLoop => if s.scheduled == [] then s else LoopRan(s)
  }

  function After(s: State, events: seq<Event>, runOf: Key -> Owner): State
    decreases |events|
  {
    if events == [] then s else After(Step(s, events[0], runOf), events[1..], runOf)
  }

  predicate Addressed(s: State, f: nat, r: Result) { f < |s.futures| && s.futures[f].key == r.key }

  /**
    No key is both listened for and buffered; a listener is a future made for its key, and
    what completes, waits on or is scheduled for a future names that key.
  */
  ghost predicate Valid(s: State) {
    && (forall key :: key in s.listeners ==> Listening(s, key) && s.futures[s.listeners[key]].key == key)
    && (forall key :: key in s.buffered ==> key !in s.listeners && s.buffered[key].key == key)
    && (forall f :: 0 <= f < |s.futures| && s.futures[f].cell.Settled? ==> Addressed(s, f, s.futures[f].cell.result))
    && (forall w :: w in s.waits ==> w.future < |s.futures| && s.futures[w.future].key == w.key)
    && (forall c :: c in s.scheduled ==> c.future < |s.futures| && (c.Cancel? || Addressed(s, c.future, c.result)))
  }

  /** A future made stays, for its key, and once completed never changes. */
  ghost predicate SetOnce(before: seq<Future>, after: seq<Future>) {
    && |before| <= |after|
    && forall f :: 0 <= f < |before| ==>
         after[f].key == before[f].key && (!before[f].cell.Pending? ==> after[f] == before[f])
  }

  /** One future is completed, and nothing else about them changes. */
  ghost predicate Completes(before: seq<Future>, after: seq<Future>, f: nat, cell: Cell) {
    && f < |before| == |after|
    && before[f].cell.Pending? && after[f] == Future(before[f].key, cell)
    && forall g :: 0 <= g < |before| && g != f ==> after[g] == before[g]
  }

  lemma {:induction false} CancelsAreForFutures(s: State, run: Run, runOf: Key -> Owner, order: seq<Key>)
    requires Valid(s)
    ensures forall c :: c in Cancels(s, run, runOf, order) ==> c.Cancel? && c.future < |s.futures|
  {
    if order == [] {
    } else {
      CancelsAreForFutures(s, run, runOf, order[1..]);
    }
  }

  lemma RegisterKeepsValid(s: State, key: Key)
    requires Valid(s)
    ensures Valid(Registered(s, key)) && SetOnce(s.futures, Registered(s, key).futures)
  {
  }

  lemma PutKeepsValid(s: State, f: nat, cell: Cell)
    requires Valid(s) && f < |s.futures| && s.futures[f].cell.Pending?
    requires cell.Settled? ==> Addressed(s, f, cell.result)
    ensures Valid(s.(futures := Put(s.futures, f, cell))) && SetOnce(s.futures, Put(s.futures, f, cell))
  {
    assert forall w :: w in s.waits ==> w.future < |s.futures|;
  }

  lemma ScheduledKeepsValid(s: State, c: Callback)
    requires Valid(s) && c.future < |s.futures| && (c.Cancel? || Addressed(s, c.future, c.result))
    ensures Valid(s.(scheduled := s.scheduled + [c]))
  {
  }

  lemma EndKeepsValid(s: State, i: nat, timedOut: bool)
    requires Valid(s) && CanEnd(s, i, timedOut)
    ensures Valid(WaitEnded(s, i, timedOut)) && SetOnce(s.futures, WaitEnded(s, i, timedOut).futures)
  {
    var w := s.waits[i];
    var fewer := s.(awaited := s.awaited - {w.key}, listeners := s.listeners - {w.key},
                       waits := s.waits[..i] + s.waits[i + 1..]);
    assert Valid(fewer) by {
      assert forall x :: x in fewer.waits ==> x in s.waits;
    }
    if timedOut && s.futures[w.future].cell.Pending? {
      PutKeepsValid(fewer, w.future, Cancelled);
    }
  }

  lemma LoopKeepsValid(s: State)
    requires Valid(s) && s.scheduled != []
    ensures Valid(LoopRan(s)) && SetOnce(s.futures, LoopRan(s).futures)
  {
    var next := s.(scheduled := s.scheduled[1..]);
    var c := s.scheduled[0];
    assert c in s.scheduled;
    assert Valid(next);
    if c.future < |s.futures| && s.futures[c.future].cell.Pending? {
      PutKeepsValid(next, c.future, if c.Cancel? then Cancelled else Settled(c.result));
    }
  }

  lemma ClearKeepsValid(s: State)
    requires Valid(s)
    ensures Valid(Cleared(s)) && SetOnce(s.futures, Cleared(s).futures)
  {
  }

  /** Shutting down ends every wait that is open, forgets every call, and changes no future that is done or dropped. */
  lemma ClearingEndsEverything(s: State)
    requires Valid(s)
    ensures var after := Cleared(s);
            && after.listeners == map[] && after.buffered == map[] && after.refused == map[] && after.awaited == {}
            && after.waits == s.waits && after.scheduled == s.scheduled
            && |after.futures| == |s.futures|
            && (forall key :: key in s.listeners ==> !after.futures[s.listeners[key]].cell.Pending?)
            && (forall f :: 0 <= f < |s.futures| ==>
                  after.futures[f] == s.futures[f]
                  || (s.futures[f].cell.Pending? && after.futures[f].cell.Cancelled? && Listening(s, s.futures[f].key)))
  {
    ClearKeepsValid(s);
    var open := set key | key in s.listeners :: s.listeners[key];
    forall key | key in s.listeners ensures !Cleared(s).futures[s.listeners[key]].cell.Pending? {
      assert s.listeners[key] in open && Listening(s, key);
    }
    forall f | 0 <= f < |s.futures|
      ensures Cleared(s).futures[f] == s.futures[f]
           || (s.futures[f].cell.Pending? && Cleared(s).futures[f].cell.Cancelled? && Listening(s, s.futures[f].key))
    {
      if f in open {
        var key :| key in s.listeners && s.listeners[key] == f;
        assert Listening(s, key);
      }
    }
  }

  lemma CountKeepsValid(s: State, key: Key)
    requires Valid(s)
    ensures Valid(Counted(s, key)) && SetOnce(s.futures, Counted(s, key).futures)
  {
  }

  lemma WaitKeepsValid(s: State, key: Key)
    requires Valid(s)
    ensures Valid(WaitBegun(s, key)) && SetOnce(s.futures, WaitBegun(s, key).futures)
  {
  }

  lemma ForgetKeepsValid(s: State, run: Run, runOf: Key -> Owner, order: seq<Key>)
    requires Valid(s)
    ensures Valid(RunForgotten(s, run, runOf, order)) && SetOnce(s.futures, RunForgotten(s, run, runOf, order).futures)
  {
    CancelsAreForFutures(s, run, runOf, order);
  }

  lemma StepKeepsValid(s: State, e: Event, runOf: Key -> Owner)
    requires Valid(s)
    ensures Valid(Step(s, e, runOf)) && SetOnce(s.futures, Step(s, e, runOf).futures)
  {
    match e
    case Register(key) => RegisterKeepsValid(s, key);
    case Resolve(r, onLoop) => CallKeepsValid(s, r, onLoop);
    case Reject(r, onLoop) => RejectKeepsValid(s, r, onLoop);
    case Refuse(key) => CountKeepsValid(s, key);
    case BeginWait(key) => WaitKeepsValid(s, key);
    case EndWait(i, timedOut) => if CanEnd(s, i, timedOut) { EndKeepsValid(s, i, timedOut); }
    case ForgetRun(run, order) => ForgetKeepsValid(s, run, runOf, order);
    case Clear => ClearKeepsValid(s);
    case RunLoop => if s.scheduled != [] { LoopKeepsValid(s); }
  }

  lemma CallKeepsValid(s: State, r: Result, onLoop: bool)
    requires Valid(s)
    ensures var after := if onLoop then Resolved(s, r) else ResolvedElsewhere(s, r);
            Valid(after) && SetOnce(s.futures, after.futures)
  {
    if Listening(s, r.key) && CellOf(s, r.key).Pending? {
      PutKeepsValid(s, s.listeners[r.key], Settled(r));
      ScheduledKeepsValid(s, SetResult(s.listeners[r.key], r));
    }
  }

  lemma RejectKeepsValid(s: State, r: Result, onLoop: bool)
    requires Valid(s)
    ensures Valid(Rejected(s, r, onLoop)) && SetOnce(s.futures, Rejected(s, r, onLoop).futures)
  {
    if Listening(s, r.key) && CellOf(s, r.key).Pending? {
      PutKeepsValid(s, s.listeners[r.key], Settled(r));
      ScheduledKeepsValid(s, Settle(s.listeners[r.key], r));
    }
  }

  /** Over every sequence of events: the tables stay apart, and a future is completed at most once. */
  lemma {:induction false} EveryHistoryIsValid(s: State, events: seq<Event>, runOf: Key -> Owner)
    requires Valid(s)
    ensures Valid(After(s, events, runOf)) && SetOnce(s.futures, After(s, events, runOf).futures)
    decreases |events|
  {
    if events == [] {
    } else {
      StepKeepsValid(s, events[0], runOf);
      EveryHistoryIsValid(Step(s, events[0], runOf), events[1..], runOf);
    }
  }

  // ---------- what a call comes to ----------

  /** The call came while nothing listened, or a listener was there that can serve it. */
  predicate InTime(s: State, key: Key) {
    if key in s.listeners then Listening(s, key) && !IsStale(CellOf(s, key)) else key !in s.buffered
  }

  /**
    A call before its listener and one after it come to the same state exactly when the
    listener there is not stale, and where none is, no earlier call was buffered.
  */
  lemma EarlyCallIsLateCall(s: State, r: Result)
    requires Valid(s) && !r.refused
    ensures Registered(Resolved(s, r), r.key) == Resolved(Registered(s, r.key), r)
            && (Taken(s, r) <==> Taken(Registered(s, r.key), r))
            <==> InTime(s, r.key)
  {
    var early, late := Registered(Resolved(s, r), r.key), Resolved(Registered(s, r.key), r);
    if r.key !in s.listeners {
      assert Resolved(s, r).buffered - {r.key} == s.buffered - {r.key};
      if r.key !in s.buffered {
        assert early.futures == s.futures + [Future(r.key, Settled(r))];
        assert late.futures == s.futures + [Future(r.key, Settled(r))];
      } else {
        assert !Taken(Registered(s, r.key), r);
      }
    } else if IsStale(CellOf(s, r.key)) {
      assert !Taken(s, r) && Taken(Registered(s, r.key), r);
    }
  }

  // ---------- which calls are lost ----------

  ghost predicate InAFuture(s: State, r: Result) { exists f :: 0 <= f < |s.futures| && s.futures[f].cell == Settled(r) }

  predicate Buffered(s: State, r: Result) { r.key in s.buffered && s.buffered[r.key] == r }

  predicate Carries(c: Callback, r: Result) { !c.Cancel? && c.result == r }

  ghost predicate HandedOver(scheduled: seq<Callback>, r: Result) {
    exists i :: 0 <= i < |scheduled| && Carries(scheduled[i], r)
  }

  /** A result is kept while a future has it, the buffer has it, or the loop has still to set it. */
  ghost predicate Kept(s: State, r: Result) { InAFuture(s, r) || Buffered(s, r) || HandedOver(s.scheduled, r) }

  /**
    What loses a result no future has: a later call for its key overwrites it in the buffer,
    its run is forgotten or everything is cleared while it is there, or the loop comes to set
    it on a future that is done.
  */
  ghost predicate Drops(s: State, e: Event, runOf: Key -> Owner, r: Result) {
    && !InAFuture(s, r)
    && match e
       case Resolve(x, _) => Buffered(s, r) && !HandedOver(s.scheduled, r) && x.key == r.key && x != r
       case ForgetRun(run, _) => Buffered(s, r) && !HandedOver(s.scheduled, r) && runOf(r.key) == OfRun(run)
       case Clear => Buffered(s, r) && !HandedOver(s.scheduled, r)
       case RunLoop =>
         && !Buffered(s, r)
         && s.scheduled != [] && Carries(s.scheduled[0], r) && !HandedOver(s.scheduled[1..], r)
         && s.scheduled[0].future < |s.futures| && !s.futures[s.scheduled[0].future].cell.Pending?
       case _ => false
  }

  /** Whether the event brings this very result. */
  predicate Brings(e: Event, r: Result) { (e.Resolve? || e.Reject?) && e.result == r }

  lemma TakenIsKept(s: State, r: Result, onLoop: bool)
    requires Valid(s) && Taken(s, r)
    ensures Kept(if onLoop then Resolved(s, r) else ResolvedElsewhere(s, r), r)
  {
    var after := if onLoop then Resolved(s, r) else ResolvedElsewhere(s, r);
    if Listening(s, r.key) {
      if onLoop {
        assert after.futures[s.listeners[r.key]].cell == Settled(r);
      } else {
        assert Carries(after.scheduled[|s.scheduled|], r);
      }
    }
  }

  /** A future that has a result keeps it. */
  lemma FutureKeeps(s: State, e: Event, runOf: Key -> Owner, r: Result)
    requires Valid(s) && InAFuture(s, r)
    ensures InAFuture(Step(s, e, runOf), r)
  {
    StepKeepsValid(s, e, runOf);
    var f :| 0 <= f < |s.futures| && s.futures[f].cell == Settled(r);
    assert Step(s, e, runOf).futures[f] == s.futures[f];
  }

  /** What is handed over after a step was before, or is what a call or refusal brought. */
  lemma HandedOverAfter(s: State, e: Event, runOf: Key -> Owner, r: Result)
    ensures !e.RunLoop? && HandedOver(s.scheduled, r) ==> HandedOver(Step(s, e, runOf).scheduled, r)
    ensures !e.RunLoop? && !Brings(e, r) && HandedOver(Step(s, e, runOf).scheduled, r) ==> HandedOver(s.scheduled, r)
    ensures e.RunLoop? && s.scheduled != [] ==>
              Step(s, e, runOf).scheduled == s.scheduled[1..]
              && (HandedOver(s.scheduled, r) <==> Carries(s.scheduled[0], r) || HandedOver(s.scheduled[1..], r))
  {
    var after := Step(s, e, runOf);
    if e.ForgetRun? {
      OnlyCancels(s, e.run, runOf, e.order);
      forall i | 0 <= i < |s.scheduled| ensures after.scheduled[i] == s.scheduled[i] {
      }
    } else if !e.RunLoop? && HandedOver(s.scheduled, r) {
      var i :| 0 <= i < |s.scheduled| && Carries(s.scheduled[i], r);
      assert after.scheduled[i] == s.scheduled[i];
    }
    if e.RunLoop? && s.scheduled != [] {
      if i :| 0 <= i < |s.scheduled| && Carries(s.scheduled[i], r) {
        assert i > 0 ==> s.scheduled[1..][i - 1] == s.scheduled[i];
      }
      if i :| 0 <= i < |s.scheduled[1..]| && Carries(s.scheduled[1..][i], r) {
        assert s.scheduled[i + 1] == s.scheduled[1..][i];
      }
    }
  }

  /** The loop puts a result into a future only off its list. */
  lemma FutureAfterLoop(s: State, runOf: Key -> Owner, r: Result)
    requires Valid(s) && InAFuture(Step(s, RunLoop, runOf), r) && !InAFuture(s, r)
    ensures s.scheduled != [] && Carries(s.scheduled[0], r) && s.futures[s.scheduled[0].future].cell.Pending?
    ensures HandedOver(s.scheduled, r)
  {
    var after := Step(s, RunLoop, runOf);
    var f :| 0 <= f < |after.futures| && after.futures[f].cell == Settled(r);
    assert s.scheduled != [] && Carries(s.scheduled[0], r);
  }

  /** A step that does not bring a result puts it into a future only from the buffer or off the loop's list. */
  lemma FutureAfter(s: State, e: Event, runOf: Key -> Owner, r: Result)
    requires Valid(s) && !e.RunLoop? && !Brings(e, r) && InAFuture(Step(s, e, runOf), r)
    ensures InAFuture(s, r) || (e.Register? && Buffered(s, r))
  {
    var after := Step(s, e, runOf);
    var f :| 0 <= f < |after.futures| && after.futures[f].cell == Settled(r);
    if f < |s.futures| && s.futures[f].cell == Settled(r) {
      assert InAFuture(s, r);
    }
  }

  /** One step loses a result that was kept exactly in the cases above. */
  lemma StepLosesExactly(s: State, e: Event, runOf: Key -> Owner, r: Result)
    requires Valid(s) && Kept(s, r)
    ensures !Kept(Step(s, e, runOf), r) <==> Drops(s, e, runOf, r)
  {
    HandedOverAfter(s, e, runOf, r);
    if InAFuture(s, r) {
      FutureKeeps(s, e, runOf, r);
    } else if !Brings(e, r) {
      StepLosesUnfinished(s, e, runOf, r);
    } else {
      BroughtAgainIsKept(s, e, runOf, r);
    }
  }

  lemma BroughtAgainIsKept(s: State, e: Event, runOf: Key -> Owner, r: Result)
    requires Valid(s) && Kept(s, r) && Brings(e, r)
    ensures Kept(Step(s, e, runOf), r)
  {
    HandedOverAfter(s, e, runOf, r);
    if InAFuture(s, r) {
      FutureKeeps(s, e, runOf, r);
    }
  }

  lemma RegisterLosesNothing(s: State, key: Key, runOf: Key -> Owner, r: Result)
    requires Valid(s) && Kept(s, r) && !InAFuture(s, r)
    ensures Kept(Step(s, Register(key), runOf), r)
  {
    HandedOverAfter(s, Register(key), runOf, r);
    if Buffered(s, r) && key == r.key {
      assert Step(s, Register(key), runOf).futures[|s.futures|].cell == Settled(r);
    }
  }

  lemma LoopLosesExactly(s: State, runOf: Key -> Owner, r: Result)
    requires Valid(s) && Kept(s, r) && !InAFuture(s, r)
    ensures !Kept(Step(s, RunLoop, runOf), r) <==> Drops(s, RunLoop, runOf, r)
  {
    var after := Step(s, RunLoop, runOf);
    HandedOverAfter(s, RunLoop, runOf, r);
    if InAFuture(after, r) {
      FutureAfterLoop(s, runOf, r);
    }
    if s.scheduled != [] && Carries(s.scheduled[0], r) {
      var f := s.scheduled[0].future;
      assert s.scheduled[0] in s.scheduled;
      if s.futures[f].cell.Pending? {
        assert after.futures[f].cell == Settled(r);
      }
    }
  }

  lemma StepLosesUnfinished(s: State, e: Event, runOf: Key -> Owner, r: Result)
    requires Valid(s) && Kept(s, r) && !InAFuture(s, r) && !Brings(e, r)
    ensures !Kept(Step(s, e, runOf), r) <==> Drops(s, e, runOf, r)
  {
    if e.Register? {
      RegisterLosesNothing(s, e.key, runOf, r);
    } else if e.RunLoop? {
      LoopLosesExactly(s, runOf, r);
    } else {
      HandedOverAfter(s, e, runOf, r);
      if InAFuture(Step(s, e, runOf), r) {
        FutureAfter(s, e, runOf, r);
      }
    }
  }

  lemma StepBringsNothingBack(s: State, e: Event, runOf: Key -> Owner, r: Result)
    requires Valid(s) && !Kept(s, r) && !Brings(e, r)
    ensures !Kept(Step(s, e, runOf), r)
  {
    var after := Step(s, e, runOf);
    HandedOverAfter(s, e, runOf, r);
    if InAFuture(after, r) {
      if e.RunLoop? {
        FutureAfterLoop(s, runOf, r);
      } else {
        FutureAfter(s, e, runOf, r);
      }
    }
    if Buffered(after, r) {
      assert Buffered(s, r);
    }
  }

  /** What is lost stays lost until the same call comes again. */
  lemma {:induction false} LostStaysLost(s: State, events: seq<Event>, runOf: Key -> Owner, r: Result)
    requires Valid(s) && !Kept(s, r) && forall e :: e in events ==> !Brings(e, r)
    ensures !Kept(After(s, events, runOf), r)
    decreases |events|
  {
    if events == [] {
    } else {
      StepKeepsValid(s, events[0], runOf);
      StepBringsNothingBack(s, events[0], runOf, r);
      LostStaysLost(Step(s, events[0], runOf), events[1..], runOf, r);
    }
  }

  ghost predicate DropsAt(s: State, events: seq<Event>, i: nat, runOf: Key -> Owner, r: Result)
    requires i < |events|
  {
    Drops(After(s, events[..i], runOf), events[i], runOf, r)
  }

  /** One of the events drops it, in the state it meets. */
  ghost predicate Dropped(s: State, events: seq<Event>, runOf: Key -> Owner, r: Result) {
    exists i: nat :: i < |events| && DropsAt(s, events, i, runOf, r)
  }

  lemma DropsLater(s: State, events: seq<Event>, i: nat, runOf: Key -> Owner, r: Result)
    requires events != [] && i < |events[1..]|
    ensures DropsAt(s, events, i + 1, runOf, r) == DropsAt(Step(s, events[0], runOf), events[1..], i, runOf, r)
  {
    assert events[..i + 1][1..] == events[1..][..i];
  }

  /** Over any history a result that is kept is lost in the end exactly when one of its events drops it. */
  lemma {:induction false} LostExactly(s: State, events: seq<Event>, runOf: Key -> Owner, r: Result)
    requires Valid(s) && Kept(s, r) && forall e :: e in events ==> !Brings(e, r)
    ensures !Kept(After(s, events, runOf), r) <==> Dropped(s, events, runOf, r)
    decreases |events|
  {
    if events == [] {
    } else {
      var e, next, rest := events[0], Step(s, events[0], runOf), events[1..];
      assert events[..0] == [];
      StepKeepsValid(s, e, runOf);
      StepLosesExactly(s, e, runOf, r);
      if Drops(s, e, runOf, r) {
        LostStaysLost(next, rest, runOf, r);
        assert DropsAt(s, events, 0, runOf, r);
      } else {
        LostExactly(next, rest, runOf, r);
        if Dropped(next, rest, runOf, r) {
          var i: nat :| i < |rest| && DropsAt(next, rest, i, runOf, r);
          DropsLater(s, events, i, runOf, r);
        }
        if Dropped(s, events, runOf, r) {
          var i: nat :| i < |events| && DropsAt(s, events, i, runOf, r);
          assert i > 0;
          DropsLater(s, events, i - 1, runOf, r);
        }
      }
    }
  }

  lemma {:induction false} AfterJoined(s: State, a: seq<Event>, b: seq<Event>, runOf: Key -> Owner)
    ensures After(s, a + b, runOf) == After(After(s, a, runOf), b, runOf)
    decreases |a|
  {
    if a == [] {
      assert a + b == b;
    } else {
      assert (a + b)[1..] == a[1..] + b;
      AfterJoined(Step(s, a[0], runOf), a[1..], b, runOf);
    }
  }

  /**
    In every history from the start, a call that was told it was taken, and does not come
    again, is in no future, buffer or list in the end exactly when a later event dropped it.
  */
  lemma TakenCallIsLostExactly(events: seq<Event>, i: nat, runOf: Key -> Owner)
    requires i < |events| && events[i].Resolve? && Taken(After(START, events[..i], runOf), events[i].result)
    requires forall j :: i + 1 <= j < |events| ==> !Brings(events[j], events[i].result)
    ensures !Kept(After(START, events, runOf), events[i].result) <==>
            Dropped(After(START, events[..i + 1], runOf), events[i + 1..], runOf, events[i].result)
  {
    KeptOnceTaken(events, i, runOf);
    NotBroughtAgain(events, i, events[i].result);
    LostExactly(After(START, events[..i + 1], runOf), events[i + 1..], runOf, events[i].result);
    AfterAll(START, events, i + 1, runOf);
  }

  lemma KeptOnceTaken(events: seq<Event>, i: nat, runOf: Key -> Owner)
    requires i < |events| && events[i].Resolve? && Taken(After(START, events[..i], runOf), events[i].result)
    ensures Valid(After(START, events[..i + 1], runOf)) && Kept(After(START, events[..i + 1], runOf), events[i].result)
  {
    EveryHistoryIsValid(START, events[..i], runOf);
    EveryHistoryIsValid(START, events[..i + 1], runOf);
    OneStepFurther(START, events, i, runOf);
    TakenIsKept(After(START, events[..i], runOf), events[i].result, events[i].onLoop);
  }

  lemma AfterAll(s: State, events: seq<Event>, n: nat, runOf: Key -> Owner)
    requires n <= |events|
    ensures After(After(s, events[..n], runOf), events[n..], runOf) == After(s, events, runOf)
  {
    AfterJoined(s, events[..n], events[n..], runOf);
    Rejoined(events, n);
  }

  lemma OneStepFurther(s: State, events: seq<Event>, i: nat, runOf: Key -> Owner)
    requires i < |events|
    ensures After(s, events[..i + 1], runOf) == Step(After(s, events[..i], runOf), events[i], runOf)
  {
    AfterJoined(s, events[..i], [events[i]], runOf);
    assert events[..i] + [events[i]] == events[..i + 1];
    assert [events[i]][1..] == [];
  }

  lemma NotBroughtAgain(events: seq<Event>, i: nat, r: Result)
    requires i < |events| && forall j :: i + 1 <= j < |events| ==> !Brings(events[j], r)
    ensures forall e :: e in events[i + 1..] ==> !Brings(e, r)
  {
  }

  lemma {:induction false} OnlyCancels(s: State, run: Run, runOf: Key -> Owner, order: seq<Key>)
    ensures forall c :: c in Cancels(s, run, runOf, order) ==> c.Cancel?
  {
    if order == [] {
    } else {
      OnlyCancels(s, run, runOf, order[1..]);
    }
  }

  /** With every call and refusal on the loop, the loop's own list loses none: only the buffer does. */
  lemma {:induction false} OnTheLoopOnlyTheBufferLoses(s: State, events: seq<Event>, i: nat, runOf: Key -> Owner,
      r: Result)
    requires forall c :: c in s.scheduled ==> c.Cancel?
    requires forall e :: e in events && (e.Resolve? || e.Reject?) ==> e.onLoop
    requires i < |events| && DropsAt(s, events, i, runOf, r)
    ensures !events[i].RunLoop? && Buffered(After(s, events[..i], runOf), r)
    decreases |events|
  {
    if i == 0 {
      assert events[..0] == [];
      assert s.scheduled != [] ==> s.scheduled[0] in s.scheduled;
    } else {
      var next := Step(s, events[0], runOf);
      assert events[0] in events;
      if events[0].ForgetRun? {
        OnlyCancels(s, events[0].run, runOf, events[0].order);
      }
      DropsLater(s, events, i - 1, runOf, r);
      OnTheLoopOnlyTheBufferLoses(next, events[1..], i - 1, runOf, r);
      assert events[..i][1..] == events[1..][..i - 1];
    }
  }

  /** Two early calls on one key, both told they were taken: the listener gets the second, and the first is nowhere. */
  lemma EarlyCallIsOverwritten(a: Result, b: Result, runOf: Key -> Owner)
    requires a.key == b.key && a != b
    ensures var events := [Resolve(a, true), Resolve(b, true), Register(a.key)];
            && Taken(START, a) && Taken(Resolved(START, a), b)
            && After(START, events, runOf).futures == [Future(a.key, Settled(b))]
            && !Kept(After(START, events, runOf), a)
  {
    var s1 := Step(START, Resolve(a, true), runOf);
    var s2 := Step(s1, Resolve(b, true), runOf);
    var s3 := Step(s2, Register(a.key), runOf);
    var e := [Resolve(a, true), Resolve(b, true), Register(a.key)];
    assert e[1..] == [Resolve(b, true), Register(a.key)] && e[1..][1..] == [Register(a.key)] && e[1..][1..][1..] == [];
    assert After(s3, [], runOf) == s3;
    assert After(s2, [Register(a.key)], runOf) == s3;
    assert After(s1, e[1..], runOf) == s3;
    assert s3.futures == [Future(a.key, Settled(b))];
  }

  /** Two calls from another thread can both be told they were taken, and the second is lost. */
  lemma CallsFromElsewhereCanBeLost(key: Key, a: Result, b: Result, runOf: Key -> Owner)
    requires a.key == key && b.key == key && a != b
    ensures var open := Registered(START, key);
            && Taken(open, a) && Taken(ResolvedElsewhere(open, a), b)
            && !Kept(After(open, [Resolve(a, false), Resolve(b, false), RunLoop, RunLoop], runOf), b)
  {
    var s0 := Registered(START, key);
    var s1 := Step(s0, Resolve(a, false), runOf);
    var s2 := Step(s1, Resolve(b, false), runOf);
    assert s2.scheduled == [SetResult(0, a), SetResult(0, b)];
    var s3 := Step(s2, RunLoop, runOf);
    assert s3.scheduled == [SetResult(0, b)];
    var s4 := Step(s3, RunLoop, runOf);
    assert s4.futures == [Future(key, Settled(a))] && s4.scheduled == [];
    var e := [Resolve(a, false), Resolve(b, false), RunLoop, RunLoop];
    assert e[1..] == [Resolve(b, false), RunLoop, RunLoop];
    assert e[1..][1..] == [RunLoop, RunLoop];
    assert e[1..][1..][1..] == [RunLoop];
    assert After(s4, [], runOf) == s4;
    assert After(s3, [RunLoop], runOf) == s4;
    assert After(s2, [RunLoop, RunLoop], runOf) == s4;
    assert After(s1, e[1..], runOf) == s4;
  }

  /** A wait that ends takes with it whatever listens on its key by then, its own future or a later one. */
  lemma EndingWaitDropsTheListener(s: State, i: nat, timedOut: bool)
    requires Valid(s) && CanEnd(s, i, timedOut)
    ensures var w, after := s.waits[i], WaitEnded(s, i, timedOut);
            && w.key !in after.listeners
            && (forall key :: key != w.key ==> (key in after.listeners <==> key in s.listeners))
            && !after.futures[w.future].cell.Pending?
            && (after.futures[w.future].cell.Settled? ==> after.futures[w.future].cell.result.key == w.key)
            && (forall f :: 0 <= f < |s.futures| && f != w.future ==> after.futures[f] == s.futures[f])
  {
    assert s.waits[i] in s.waits;
  }

  /** Forgetting a run leaves every other run as it was, and cancels its open listeners once the loop gets to it. */
  lemma ForgettingARunIsItsOwn(s: State, run: Run, runOf: Key -> Owner, order: seq<Key>, key: Key)
    requires Valid(s)
    ensures var after := RunForgotten(s, run, runOf, order);
            if runOf(key) == OfRun(run) then
              && key !in after.listeners && key !in after.buffered && key !in after.refused && key !in after.awaited
              && (key in s.listeners && key in order ==> Cancel(s.listeners[key]) in after.scheduled)
            else
              && (key in after.listeners <==> key in s.listeners)
              && (key in s.listeners ==> after.listeners[key] == s.listeners[key])
              && (key in after.buffered <==> key in s.buffered)
              && (key in s.buffered ==> after.buffered[key] == s.buffered[key])
              && (key in after.refused <==> key in s.refused)
              && (key in after.awaited <==> key in s.awaited)
  {
    CancelsEach(s, run, runOf, order, key);
  }

  lemma {:induction false} CancelsEach(s: State, run: Run, runOf: Key -> Owner, order: seq<Key>, key: Key)
    ensures key in s.listeners && runOf(key) == OfRun(run) && key in order ==>
        Cancel(s.listeners[key]) in Cancels(s, run, runOf, order)
  {
    if order == [] {
    } else {
      CancelsEach(s, run, runOf, order[1..], key);
    }
  }

  // ---------- the manager as the program keeps it ----------

  class CallbackManager {
    const runOf: Key -> Owner
    var listeners: map<Key, nat>
    var buffered: map<Key, Result>
    var refused: map<Key, nat>
    var awaited: set<Key>
    /** The loop's: the futures it made, the waits on them, the callbacks it was handed. */
    var futures: seq<Future>
    var waits: seq<Wait>
    var scheduled: seq<Callback>

    ghost function Now(): State
      reads this
    {
      State(listeners, buffered, refused, awaited, futures, waits, scheduled)
    }

    constructor (runOf: Key -> Owner)
      ensures Now() == START && Valid(Now())
    {
      this.runOf := runOf;
      listeners, buffered, refused, awaited := map[], map[], map[], {};
      futures, waits, scheduled := [], [], [];
    }

    method Register(key: Key)
      requires Valid(Now())
      modifies this
      ensures Valid(Now()) && Now() == Registered(old(Now()), key)
      ensures key in listeners
      ensures var serves := key in old(listeners) && match old(CellOf(Now(), key))
                                                     case Pending => true
                                                     case Settled(result) => !result.refused
                                                     case Cancelled => false;
              if serves then Now() == old(Now()) else
                && listeners == old(listeners)[key := |old(futures)|]
                && futures == old(futures) + [futures[listeners[key]]]
                && CellOf(Now(), key) == (if key in old(buffered) then Settled(old(buffered)[key]) else Pending)
                && buffered == old(buffered) - {key}
      ensures Now() == old(Now()).(listeners := listeners, futures := futures, buffered := buffered)
    {
      RegisterKeepsValid(Now(), key);
      Open(key);
    }

    method Open(key: Key)
      requires key in listeners ==> listeners[key] < |futures|
      modifies this`listeners, this`buffered, this`futures
      ensures Now() == Registered(old(Now()), key)
    {
      if key in listeners && IsStale(futures[listeners[key]].cell) {
        listeners := listeners - {key};
      }
      if key !in listeners {
        assert listeners[key := |futures|] == old(listeners)[key := |futures|];
        listeners := listeners[key := |futures|];
        futures := futures + [Future(key, Pending)];
        if key in buffered {
          futures := Put(futures, |futures| - 1, Settled(buffered[key]));
        }
        buffered := buffered - {key};
        assert futures == Registered(old(Now()), key).futures;
      }
    }

    method Resolve(r: Result, onLoop: bool) returns (taken: bool)
      requires Valid(Now())
      modifies this
      ensures Valid(Now()) && SetOnce(old(futures), futures)
      ensures Now() == if onLoop then Resolved(old(Now()), r) else ResolvedElsewhere(old(Now()), r)
      ensures taken <==> r.key !in old(listeners) || old(CellOf(Now(), r.key)).Pending?
      ensures if taken then Kept(Now(), r) else Now() == old(Now())
      ensures listeners == old(listeners)
      ensures taken && r.key !in listeners ==> futures == old(futures) && buffered == old(buffered)[r.key := r]
      ensures taken && r.key in listeners && onLoop ==>
                Completes(old(futures), futures, listeners[r.key], Settled(r)) && scheduled == old(scheduled)
      ensures taken && r.key in listeners && !onLoop ==>
                futures == old(futures) && scheduled == old(scheduled) + [SetResult(listeners[r.key], r)]
    {
      CallKeepsValid(Now(), r, onLoop);
      if Taken(Now(), r) {
        TakenIsKept(Now(), r, onLoop);
      }
      if r.key in listeners {
        if !futures[listeners[r.key]].cell.Pending? {
          return false;
        }
        if onLoop {
          futures := Put(futures, listeners[r.key], Settled(r));
        } else {
          scheduled := scheduled + [SetResult(listeners[r.key], r)];
        }
        return true;
      }
      buffered := buffered[r.key := r];
      return true;
    }

    method Reject(r: Result, onLoop: bool) returns (ended: bool)
      requires Valid(Now())
      modifies this
      ensures Valid(Now()) && Now() == Rejected(old(Now()), r, onLoop)
      ensures ended <==> r.key in old(listeners) && old(CellOf(Now(), r.key)).Pending?
      ensures Now() == old(Now()).(futures := futures, scheduled := scheduled)
      ensures !ended ==> Now() == old(Now())
      ensures ended && onLoop ==>
                Completes(old(futures), futures, listeners[r.key], Settled(r)) && scheduled == old(scheduled)
      ensures ended && !onLoop ==>
                futures == old(futures) && scheduled == old(scheduled) + [Settle(listeners[r.key], r)]
    {
      RejectKeepsValid(Now(), r, onLoop);
      if r.key !in listeners || !futures[listeners[r.key]].cell.Pending? {
        return false;
      }
      if onLoop {
        futures := Put(futures, listeners[r.key], Settled(r));
      } else {
        scheduled := scheduled + [Settle(listeners[r.key], r)];
      }
      return true;
    }

    method Refuse(key: Key)
      modifies this`refused
      ensures Now() == Counted(old(Now()), key)
    {
      refused := refused[key := 1 + if key in refused then refused[key] else 0];
    }

    /** The first half of a wait: whether there is anything to wait on. */
    method BeginWait(key: Key) returns (waiting: bool)
      requires Valid(Now())
      modifies this`awaited, this`waits
      ensures Valid(Now()) && Now() == WaitBegun(old(Now()), key)
      ensures waiting <==> key in listeners
      ensures if waiting then waits == old(waits) + [Wait(key, listeners[key])] && awaited == old(awaited) + {key}
              else Now() == old(Now())
    {
      StepKeepsValid(Now(), Event.BeginWait(key), runOf);
      if key !in listeners {
        return false;
      }
      awaited := awaited + {key};
      waits := waits + [Wait(key, listeners[key])];
      return true;
    }

    /** The second half: what the wait returns, a timeout being a cancelled future. */
    method EndWait(i: nat, timedOut: bool) returns (cell: Cell)
      requires Valid(Now()) && CanEnd(Now(), i, timedOut)
      modifies this
      ensures Valid(Now()) && Now() == WaitEnded(old(Now()), i, timedOut)
      ensures cell == futures[old(waits)[i].future].cell && !cell.Pending?
      ensures cell.Settled? ==> cell.result.key == old(waits)[i].key
      ensures var was := old(futures)[old(waits)[i].future].cell;
              cell == if was.Pending? then Cancelled else was
      ensures var key := old(waits)[i].key;
              awaited == old(awaited) - {key} && listeners == old(listeners) - {key}
      ensures waits == old(waits)[..i] + old(waits)[i + 1..]
      ensures buffered == old(buffered) && refused == old(refused) && scheduled == old(scheduled)
    {
      EndKeepsValid(Now(), i, timedOut);
      EndingWaitDropsTheListener(Now(), i, timedOut);
      var w := waits[i];
      if timedOut && futures[w.future].cell.Pending? {
        futures := Put(futures, w.future, Cancelled);
      }
      awaited := awaited - {w.key};
      listeners := listeners - {w.key};
      waits := waits[..i] + waits[i + 1..];
      return futures[w.future].cell;
    }

    method ForgetRun(run: Run) returns (ghost order: seq<Key>)
      requires Valid(Now())
      modifies this
      ensures Valid(Now()) && Now() == RunForgotten(old(Now()), run, runOf, order)
      ensures forall key :: key in old(listeners) && runOf(key) == OfRun(run) ==> key in order
    {
      order := Forget(run);
      StepKeepsValid(old(Now()), Event.ForgetRun(run, order), runOf);
    }

    method Forget(run: Run) returns (ghost order: seq<Key>)
      modifies this
      ensures Now() == RunForgotten(old(Now()), run, runOf, order)
      ensures forall key :: key in old(listeners) && runOf(key) == OfRun(run) ==> key in order
    {
      order := CancelListeners(run);
      buffered := map key | key in buffered && runOf(key) != OfRun(run) :: buffered[key];
      refused := map key | key in refused && runOf(key) != OfRun(run) :: refused[key];
      awaited := set key | key in awaited && runOf(key) != OfRun(run);
    }

    method CancelListeners(run: Run) returns (ghost order: seq<Key>)
      modifies this`listeners, this`scheduled
      ensures listeners == old(listeners) - (set key | key in old(listeners) && runOf(key) == OfRun(run))
      ensures scheduled == old(scheduled) + Cancels(old(Now()), run, runOf, order)
      ensures forall key :: key in old(listeners) && runOf(key) == OfRun(run) ==> key in order
    {
      ghost var before := Now();
      var keys: set<Key> := set key | key in listeners && runOf(key) == OfRun(run);
      var left := keys;
      order := [];
      while left != {}
        invariant left <= keys && forall key :: key in keys - left <==> key in order
        invariant listeners == before.listeners - (keys - left)
        invariant scheduled == before.scheduled + Cancels(before, run, runOf, order)
        decreases |left|
      {
        var key :| key in left;
        CancelsOneMore(before, run, runOf, order, key);
        scheduled := scheduled + [Cancel(listeners[key])];
        listeners := listeners - {key};
        left := left - {key};
        order := order + [key];
      }
      assert keys - {} == keys;
    }

    method Clear()
      requires Valid(Now())
      modifies this
      ensures Valid(Now()) && Now() == Cleared(old(Now()))
    {
      ClearKeepsValid(Now());
      CancelOpen();
      listeners, buffered, refused, awaited := map[], map[], map[], {};
    }

    /** Cancels every listener that still waits. */
    method CancelOpen()
      modifies this`futures
      ensures Now() == old(Now()).(futures := Cleared(old(Now())).futures)
    {
      var open := set key | key in listeners :: listeners[key];
      ghost var before := futures;
      ghost var closed := Cleared(Now()).futures;
      for f := 0 to |futures|
        invariant |futures| == |before|
        invariant forall g :: 0 <= g < f ==> futures[g] == closed[g]
        invariant forall g :: f <= g < |futures| ==> futures[g] == before[g]
      {
        assert closed[f] == Closed(before[f], f in open);
        if f in open && futures[f].cell.Pending? {
          futures := Put(futures, f, Cancelled);
        }
      }
      assert futures == closed;
    }
  }

  lemma {:induction false} CancelsOneMore(s: State, run: Run, runOf: Key -> Owner, order: seq<Key>, key: Key)
    ensures Cancels(s, run, runOf, order + [key])
         == Cancels(s, run, runOf, order)
           + (if key in s.listeners && runOf(key) == OfRun(run) then [Cancel(s.listeners[key])] else [])
  {
    if order == [] {
      assert [key][1..] == [];
    } else {
      assert (order + [key])[1..] == order[1..] + [key];
      CancelsOneMore(s, run, runOf, order[1..], key);
    }
  }
}
