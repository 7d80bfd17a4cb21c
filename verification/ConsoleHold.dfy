/**
  Console lines of other threads held while a window is up (logging/structured.py): the hold
  itself as a class, and the threads that share it as a protocol whose every step is what one
  thread does under one lock, in any interleaving.
*/
module ConsoleHold {
  import opened Wrappers

  type Thread = nat

  /** A log record and the thread it was logged on. */
  datatype Record = Record(thread: Thread, text: string)

  // ---------- the hold ----------

  /** Whose window is up, how many of its windows are nested, and the records waiting. */
  datatype Hold = Hold(owner: Option<Thread>, depth: nat, held: seq<Record>)

  /** A window of another thread is up, so what `thread` logs is held back. */
  predicate Waits(h: Hold, thread: Thread) { h.owner.Some? && h.owner != Some(thread) }

  function Opened(h: Hold, thread: Thread): Hold { Hold(Some(thread), h.depth + 1, h.held) }

  function Closed(h: Hold): Hold
    requires h.depth > 0
  {
    if h.depth > 1 then h.(depth := h.depth - 1) else Hold(None, 0, [])
  }

  /** What closing a window hands to the console. */
  function Released(h: Hold): seq<Record> { if h.depth > 1 then [] else h.held }

  function Offered(h: Hold, thread: Thread, r: Record): Hold {
    if Waits(h, thread) then h.(held := h.held + [r]) else h
  }

  /** A window is up exactly while it is owned, and records wait only then. */
  predicate IsUpOrEmpty(h: Hold) {
    (h.depth > 0 <==> h.owner.Some?) && (h.held != [] ==> h.owner.Some?)
  }

  class WindowHold {
    var owner: Option<Thread>
    var depth: nat
    var held: seq<Record>

    function Contents(): Hold
      reads this
    {
      Hold(owner, depth, held)
    }

    ghost predicate Valid()
      reads this
    {
      IsUpOrEmpty(Contents())
    }

    constructor ()
      ensures Valid() && Contents() == Hold(None, 0, [])
    {
      owner, depth, held := None, 0, [];
    }

    /** The window lock lets in the thread whose window is up, or any when none is. */
    method Open(thread: Thread)
      requires Valid() && (owner.None? || owner == Some(thread))
      modifies this
      ensures Valid() && Contents() == Opened(old(Contents()), thread)
      ensures forall other :: Waits(Contents(), other) <==> other != thread
      ensures held == old(held) && (old(owner).None? ==> held == [])
    {
      owner := Some(thread);
      depth := depth + 1;
    }

    method Close() returns (released: seq<Record>)
      requires Valid() && owner.Some?
      modifies this
      ensures Valid() && Contents() == Closed(old(Contents())) && released == Released(old(Contents()))
      ensures released + held == old(held)
      ensures owner.Some? ==> owner == old(owner) && released == []
      ensures owner.None? <==> old(depth) == 1
      ensures owner.None? ==> forall other :: !Waits(Contents(), other)
    {
      depth := depth - 1;
      released := [];
      if depth == 0 {
        owner, released, held := None, held, [];
      }
    }

    method Keeps(thread: Thread, r: Record) returns (kept: bool)
      requires Valid()
      modifies this`held
      ensures Valid() && Contents() == Offered(old(Contents()), thread, r)
      ensures kept <==> depth > 0 && owner != Some(thread)
      ensures held == if kept then old(held) + [r] else old(held)
    {
      if owner.None? || owner == Some(thread) {
        return false;
      }
      held := held + [r];
      return true;
    }
  }

  // ---------- threads ----------

  /** A record let through to the console, and the move that let it through. */
  datatype Passed = Passed(record: Record, since: nat)

  /**
    `holder` has the lock that lets one thread have windows. The records a closed window
    released are in `flushing` until the closing thread has written them, and `passed` are
    let through but not written yet. `clock` counts the moves; the last four fields are the
    history.
  */
  datatype State = State(
    holder: Option<Thread>,
    hold: Hold,
    closing: bool,
    flushing: seq<Record>,
    passed: seq<Passed>,
    clock: nat,
    logged: seq<Record>,
    everHeld: seq<Record>,
    flushed: seq<Record>,
    written: seq<Record>
  )

  const START: State := State(None, Hold(None, 0, []), false, [], [], 0, [], [], [], [])

  datatype Move =
    | OpenWindow(thread: Thread)
    | CloseWindow(thread: Thread)
    | FlushOne(thread: Thread)
    | ReleaseWindow(thread: Thread)
    | Log(record: Record)
    | Write(index: nat)

  predicate Enabled(s: State, move: Move) {
    match move
    case OpenWindow(t) => (s.holder.None? || s.holder == Some(t)) && !s.closing
    case CloseWindow(t) => s.holder == Some(t) && s.hold.depth > 0
    case FlushOne(t) => s.holder == Some(t) && s.flushing != []
    case ReleaseWindow(t) => s.holder == Some(t) && s.closing && s.flushing == []
    case Log(_) => true
    case Write(i) => i < |s.passed|
  }

  /** A record a window released is offered to the hold again before it is written. */
  function FlushedOne(s: State, t: Thread): State
    requires s.flushing != []
  {
    var r := s.flushing[0];
    if Waits(s.hold, t) then
      s.(hold := Offered(s.hold, t, r), flushing := s.flushing[1..], everHeld := s.everHeld + [r])
    else
      s.(flushing := s.flushing[1..], flushed := s.flushed + [r], written := s.written + [r])
  }

  function Logged(s: State, r: Record): State {
    var next := s.(hold := Offered(s.hold, r.thread, r), logged := s.logged + [r]);
    if Waits(s.hold, r.thread) then next.(everHeld := s.everHeld + [r])
    else next.(passed := s.passed + [Passed(r, s.clock)])
  }

  function Taken(s: State, move: Move): State
    requires Enabled(s, move)
  {
    Done(s, move).(clock := s.clock + 1)
  }

  function Done(s: State, move: Move): State
    requires Enabled(s, move)
  {
    match move
    case OpenWindow(t) => s.(holder := Some(t), hold := Opened(s.hold, t))
    case CloseWindow(t) =>
      s.(hold := Closed(s.hold), flushing := Released(s.hold), closing := s.hold.depth == 1)
    case FlushOne(t) => FlushedOne(s, t)
    case ReleaseWindow(t) => s.(closing := false, holder := None)
    case Log(r) => Logged(s, r)
    case Write(i) =>
      s.(passed := s.passed[..i] + s.passed[i + 1..], written := s.written + [s.passed[i].record])
  }

  /** The state after a run, None where some move was not possible. */
  function After(moves: seq<Move>): Option<State> {
    if moves == [] then Some(START)
    else
      var before := After(moves[..|moves| - 1]);
      var move := moves[|moves| - 1];
      if before.Some? && Enabled(before.value, move) then Some(Taken(before.value, move)) else None
  }

  /** How many times `r` is in `records`. */
  function Times(records: seq<Record>, r: Record): nat {
    if records == [] then 0
    else Times(records[..|records| - 1], r) + if records[|records| - 1] == r then 1 else 0
  }

  function Records(passed: seq<Passed>): seq<Record> { seq(|passed|, i requires 0 <= i < |passed| => passed[i].record) }

  /** Every record logged is written once, or held, or being flushed, or on its way. */
  ghost predicate Conserved(s: State) { forall r :: CountedOnce(s, r) }

  ghost predicate CountedOnce(s: State, r: Record) {
    Times(s.logged, r) == Times(s.written, r) + Times(s.hold.held, r) + Times(s.flushing, r)
      + Times(Records(s.passed), r)
  }

  /** Held records are written in the order they were held, across all windows. */
  ghost predicate InOrder(s: State) { s.everHeld == s.flushed + s.flushing + s.hold.held }

  /** The window that is up is the lock holder's; nothing is released or opened outside of it. */
  ghost predicate Windows(s: State) {
    && IsUpOrEmpty(s.hold)
    && (s.hold.owner.Some? ==> s.holder == s.hold.owner && !s.closing)
    && (s.flushing != [] ==> s.closing)
    && (s.closing ==> s.holder.Some?)
    && (s.holder.Some? ==> s.hold.owner.Some? || s.closing)
  }

  ghost predicate Inv(s: State) { Conserved(s) && InOrder(s) && Windows(s) }

  lemma OneMore(records: seq<Record>, x: Record, r: Record)
    ensures Times(records + [x], r) == Times(records, r) + if x == r then 1 else 0
  {
    assert (records + [x])[..|records|] == records;
  }

  lemma {:induction false} OneLess(records: seq<Record>, i: nat, r: Record)
    requires i < |records|
    ensures Times(records, r) == Times(records[..i] + records[i + 1..], r) + if records[i] == r then 1 else 0
  {
    var front, last := records[..|records| - 1], records[|records| - 1];
    if i == |front| {
      assert records[..i] + records[i + 1..] == front;
    } else {
      OneLess(front, i, r);
      assert records[..i] + records[i + 1..] == (front[..i] + front[i + 1..]) + [last];
      OneMore(front[..i] + front[i + 1..], last, r);
    }
  }

  lemma LoggedConserves(s: State, x: Record, r: Record)
    requires CountedOnce(s, r)
    ensures CountedOnce(Logged(s, x), r)
  {
    OneMore(s.logged, x, r);
    if Waits(s.hold, x.thread) {
      OneMore(s.hold.held, x, r);
    } else {
      OneMore(Records(s.passed), x, r);
      assert Records(s.passed + [Passed(x, s.clock)]) == Records(s.passed) + [x];
    }
  }

  lemma FrontLess(records: seq<Record>, r: Record)
    requires records != []
    ensures Times(records, r) == Times(records[1..], r) + if records[0] == r then 1 else 0
  {
    OneLess(records, 0, r);
    assert records[..0] + records[1..] == records[1..];
  }

  lemma FlushedConserves(s: State, t: Thread, r: Record)
    requires CountedOnce(s, r) && s.flushing != []
    ensures CountedOnce(FlushedOne(s, t), r)
  {
    FrontLess(s.flushing, r);
    if Waits(s.hold, t) {
      OneMore(s.hold.held, s.flushing[0], r);
    } else {
      OneMore(s.written, s.flushing[0], r);
    }
  }

  lemma WriteConserves(s: State, i: nat, r: Record)
    requires CountedOnce(s, r) && i < |s.passed|
    ensures CountedOnce(Taken(s, Write(i)), r)
  {
    OneLess(Records(s.passed), i, r);
    assert Records(s.passed[..i] + s.passed[i + 1..]) == Records(s.passed)[..i] + Records(s.passed)[i + 1..];
    OneMore(s.written, s.passed[i].record, r);
  }

  lemma TakenConserves(s: State, move: Move)
    requires Conserved(s) && Windows(s) && Enabled(s, move)
    ensures Conserved(Taken(s, move))
  {
    forall r ensures CountedOnce(Taken(s, move), r) {
      assert CountedOnce(s, r);
      match move
      case FlushOne(t) => FlushedConserves(s, t, r);
      case Log(x) => LoggedConserves(s, x, r);
      case Write(i) => WriteConserves(s, i, r);
      case _ =>
    }
  }

  lemma TakenKeepsOrder(s: State, move: Move)
    requires InOrder(s) && Windows(s) && Enabled(s, move)
    ensures InOrder(Taken(s, move))
  {
    match move
    case FlushOne(_) => assert s.flushing == [s.flushing[0]] + s.flushing[1..];
    case _ =>
  }

  lemma TakenKeepsWindows(s: State, move: Move)
    requires Windows(s) && Enabled(s, move)
    ensures Windows(Taken(s, move))
  {
  }

  /** In every interleaving no record is lost, none is written twice, and held ones keep their order. */
  lemma {:induction false} EveryInterleavingKeepsInv(moves: seq<Move>)
    requires After(moves).Some?
    ensures Inv(After(moves).value)
  {
    if moves == [] {
    } else {
      var before, move := After(moves[..|moves| - 1]).value, moves[|moves| - 1];
      EveryInterleavingKeepsInv(moves[..|moves| - 1]);
      TakenConserves(before, move);
      TakenKeepsOrder(before, move);
      TakenKeepsWindows(before, move);
    }
  }

  /** With no window up or closing, everything ever held has been written, in its order. */
  lemma NothingStaysHeld(moves: seq<Move>)
    requires After(moves).Some? && After(moves).value.holder.None?
    ensures var s := After(moves).value;
            s.hold == Hold(None, 0, []) && s.flushing == [] && s.flushed == s.everHeld
  {
    EveryInterleavingKeepsInv(moves);
  }

  // ---------- exactly when a record lands in a window ----------

  /** The hold after the first `k` moves. */
  ghost function HoldAt(moves: seq<Move>, k: nat): Hold
    requires k <= |moves| && After(moves).Some?
  {
    RunsBefore(moves, k);
    After(moves[..k]).value.hold
  }

  lemma {:induction false} RunsBefore(moves: seq<Move>, k: nat)
    requires k <= |moves| && After(moves).Some?
    ensures After(moves[..k]).Some?
  {
    if k == |moves| {
      assert moves[..k] == moves;
    } else {
      var front := moves[..|moves| - 1];
      assert front[..k] == moves[..k];
      RunsBefore(front, k);
    }
  }

  lemma SameHoldBefore(moves: seq<Move>, k: nat)
    requires k < |moves| && After(moves).Some?
    ensures After(moves[..|moves| - 1]).Some? && HoldAt(moves[..|moves| - 1], k) == HoldAt(moves, k)
  {
    assert moves[..|moves| - 1][..k] == moves[..k];
  }

  /** Move `m` opened a window of `t`, and it is up ever since. */
  ghost predicate UpSince(moves: seq<Move>, t: Thread, m: nat)
    requires After(moves).Some?
  {
    && m < |moves| && moves[m] == OpenWindow(t) && HoldAt(moves, m).owner.None?
    && forall k :: m < k <= |moves| ==> HoldAt(moves, k).owner == Some(t)
  }

  lemma HoldAtEnd(moves: seq<Move>)
    requires After(moves).Some?
    ensures HoldAt(moves, |moves|) == After(moves).value.hold
  {
    assert moves[..|moves|] == moves;
  }

  lemma UpOneMore(moves: seq<Move>, t: Thread, m: nat)
    requires moves != [] && After(moves).Some? && After(moves).value.hold.owner == Some(t)
    requires After(moves[..|moves| - 1]).Some? && UpSince(moves[..|moves| - 1], t, m)
    ensures UpSince(moves, t, m)
  {
    HoldAtEnd(moves);
    SameHoldBefore(moves, m);
    forall k | m < k <= |moves| ensures HoldAt(moves, k).owner == Some(t) {
      if k < |moves| {
        SameHoldBefore(moves, k);
      }
    }
  }

  /** The window that is up was opened by some move. */
  lemma {:induction false} SinceItOpened(moves: seq<Move>, t: Thread) returns (m: nat)
    requires After(moves).Some? && After(moves).value.hold.owner == Some(t)
    ensures UpSince(moves, t, m)
  {
    var front, move := moves[..|moves| - 1], moves[|moves| - 1];
    var before := After(front).value;
    EveryInterleavingKeepsInv(front);
    if before.hold.owner == Some(t) {
      m := SinceItOpened(front, t);
      UpOneMore(moves, t, m);
    } else {
      m := |front|;
      OnlyOpeningTakesOver(before, move, t);
      HoldAtEnd(moves);
    }
  }

  lemma OnlyOpeningTakesOver(s: State, move: Move, t: Thread)
    requires Windows(s) && Enabled(s, move) && s.hold.owner != Some(t) && Taken(s, move).hold.owner == Some(t)
    ensures move == OpenWindow(t) && s.hold.owner.None?
  {
  }

  /** The move that let a record through: its log call, with no window of another thread up. */
  ghost predicate LetThrough(moves: seq<Move>, p: Passed)
    requires After(moves).Some?
  {
    p.since < |moves| && moves[p.since] == Log(p.record) && !Waits(HoldAt(moves, p.since), p.record.thread)
  }

  lemma {:induction false} ClockIsLength(moves: seq<Move>)
    requires After(moves).Some?
    ensures After(moves).value.clock == |moves|
  {
    if moves == [] {
    } else {
      ClockIsLength(moves[..|moves| - 1]);
    }
  }

  /** A record on its way is on it since before the move, or was let through by it. */
  lemma PassedByMove(s: State, move: Move, p: Passed)
    requires Enabled(s, move) && p in Taken(s, move).passed
    ensures p in s.passed || (move == Log(p.record) && p.since == s.clock && !Waits(s.hold, p.record.thread))
  {
  }

  lemma {:induction false} PassedWasLetThrough(moves: seq<Move>, p: Passed)
    requires After(moves).Some? && p in After(moves).value.passed
    ensures LetThrough(moves, p)
  {
    var front, move := moves[..|moves| - 1], moves[|moves| - 1];
    PassedByMove(After(front).value, move, p);
    if p in After(front).value.passed {
      PassedWasLetThrough(front, p);
      SameHoldBefore(moves, p.since);
    } else {
      ClockIsLength(front);
      assert HoldAt(moves, |front|) == After(front).value.hold;
    }
  }

  /** A window of another thread opened after the record was let through, and is still up. */
  ghost predicate OpenedMeanwhile(moves: seq<Move>, p: Passed, t: Thread, m: nat)
    requires After(moves).Some?
  {
    t != p.record.thread && p.since < m && UpSince(moves, t, m)
  }

  lemma LandsWhereOpened(moves: seq<Move>, p: Passed, t: Thread, m: nat)
    requires After(moves).Some? && OpenedMeanwhile(moves, p, t, m)
    ensures Waits(After(moves).value.hold, p.record.thread)
  {
    HoldAtEnd(moves);
    assert HoldAt(moves, |moves|).owner == Some(t);
  }

  lemma OpenedWhereLands(moves: seq<Move>, p: Passed) returns (t: Thread, m: nat)
    requires After(moves).Some? && LetThrough(moves, p) && Waits(After(moves).value.hold, p.record.thread)
    ensures OpenedMeanwhile(moves, p, t, m)
  {
    t := After(moves).value.hold.owner.value;
    m := SinceItOpened(moves, t);
  }

  ghost predicate LandsInAWindow(moves: seq<Move>, p: Passed)
    requires After(moves).Some?
  {
    exists t: Thread, m: nat :: OpenedMeanwhile(moves, p, t, m)
  }

  /**
    In every interleaving, the record that is written now lands in another thread's window
    exactly when that window opened after the record was let through and is still up: the
    check and the write are two steps.
  */
  lemma LandsInAWindowExactly(moves: seq<Move>, i: nat)
    requires After(moves).Some? && i < |After(moves).value.passed|
    ensures LetThrough(moves, After(moves).value.passed[i])
    ensures Waits(After(moves).value.hold, After(moves).value.passed[i].record.thread)
       <==> LandsInAWindow(moves, After(moves).value.passed[i])
  {
    var p := After(moves).value.passed[i];
    PassedWasLetThrough(moves, p);
    if Waits(After(moves).value.hold, p.record.thread) {
      var t, m := OpenedWhereLands(moves, p);
      assert LandsInAWindow(moves, p);
    }
    if LandsInAWindow(moves, p) {
      var t: Thread, m: nat :| OpenedMeanwhile(moves, p, t, m);
      LandsWhereOpened(moves, p, t, m);
    }
  }

  /** While a closed window's records are being written, no window is up and none can open. */
  lemma FlushesOutsideWindows(moves: seq<Move>, t: Thread)
    requires After(moves).Some? && Enabled(After(moves).value, FlushOne(t))
    ensures var s := After(moves).value;
            && !Waits(s.hold, t)
            && Taken(s, FlushOne(t)).written == s.written + [s.flushing[0]]
            && forall other :: !Enabled(s, OpenWindow(other))
  {
    EveryInterleavingKeepsInv(moves);
  }

  /** Two threads, one window: the record let through before it opened lands inside it. */
  lemma ARecordCanLandInAWindow(logger: Thread, asker: Thread, text: string)
    requires logger != asker
    ensures var end := After([Log(Record(logger, text)), OpenWindow(asker), Write(0)]);
            end.Some? && Waits(end.value.hold, logger) && end.value.written == [Record(logger, text)]
  {
    var log, open := Log(Record(logger, text)), OpenWindow(asker);
    assert [log, open, Write(0)][..2] == [log, open];
    assert [log, open][..1] == [log];
    assert [log][..0] == [];
    assert After([log]) == Some(Taken(START, log));
    assert After([log, open]) == Some(Taken(Taken(START, log), open));
  }
}
