/**
  Questions of jobs, at most one open for each, and the cells their answers go to
  (player/selections.py).
*/
module Selections {
  import opened Wrappers

  type JobId = string
  type StepId = string

  datatype Answer = Waiting | Chosen(value: string) | Withdrawn

  /** An answer a step waits for: whose it is, what it may be, and what it came to. */
  datatype Cell = Cell(job: JobId, options: seq<string>, answer: Answer)

  /** An open question: the step that asks, what it offers, and the cell its answer goes to. */
  datatype Question = Question(step: Option<StepId>, options: seq<string>, answer: nat)

  datatype Board = Board(open: map<JobId, Question>, cells: seq<Cell>)

  const NO_QUESTIONS: Board := Board(map[], [])

  datatype Reply = Answered | NotWaiting | WaitingAt(step: Option<StepId>) | NotOffered(options: seq<string>)

  predicate IsWaiting(b: Board, f: nat) { f < |b.cells| && b.cells[f].answer.Waiting? }

  function Put(cells: seq<Cell>, f: nat, answer: Answer): seq<Cell>
    requires f < |cells|
  {
    cells[f := cells[f].(answer := answer)]
  }

  /** The job asks nothing any more: its cell is withdrawn, unless it was answered. */
  function ClosedFor(b: Board, job: JobId): Board {
    if job !in b.open then b
    else
      var f := b.open[job].answer;
      Board(b.open - {job}, if IsWaiting(b, f) then Put(b.cells, f, Withdrawn) else b.cells)
  }

  function Asked(b: Board, job: JobId, step: Option<StepId>, options: seq<string>): Board {
    var closed := ClosedFor(b, job);
    Board(closed.open[job := Question(step, options, |closed.cells|)], closed.cells + [Cell(job, options, Waiting)])
  }

  predicate HasPending(b: Board, job: JobId) { job in b.open && IsWaiting(b, b.open[job].answer) }

  /** What an answer comes to: refused for a question not open, another step or an option not offered. */
  function ReplyTo(b: Board, job: JobId, value: string, step: Option<StepId>): Reply {
    if !HasPending(b, job) then NotWaiting
    else if step.Some? && step != b.open[job].step then WaitingAt(b.open[job].step)
    else if value !in b.open[job].options then NotOffered(b.open[job].options)
    else Answered
  }

  function Told(b: Board, job: JobId, value: string, step: Option<StepId>): Board {
    if ReplyTo(b, job, value, step).Answered? then b.(cells := Put(b.cells, b.open[job].answer, Chosen(value))) else b
  }

  /** The step that waits is cancelled itself, and its future with it. */
  function Abandoned(b: Board, f: nat): Board {
    if IsWaiting(b, f) then b.(cells := Put(b.cells, f, Withdrawn)) else b
  }

  datatype Event =
    | Ask(job: JobId, step: Option<StepId>, options: seq<string>)
    | Tell(job: JobId, value: string, step: Option<StepId>)
    | Close(job: JobId)
    | Abandon(cell: nat)

  function Step(b: Board, e: Event): Board {
    match e
    case Ask(job, step, options) => Asked(b, job, step, options)
    case Tell(job, value, step) => Told(b, job, value, step)
    case Close(job) => ClosedFor(b, job)
    case Abandon(f) => Abandoned(b, f)
  }

  function After(b: Board, events: seq<Event>): Board {
    if events == [] then b else Step(After(b, events[..|events| - 1]), events[|events| - 1])
  }

  /**
    An answer is one of the options of its own question; a job waits for an answer only on
    its open question, so on one at most.
  */
  ghost predicate Valid(b: Board) {
    && (forall f :: 0 <= f < |b.cells| && b.cells[f].answer.Chosen? ==> b.cells[f].answer.value in b.cells[f].options)
    && (forall f :: 0 <= f < |b.cells| && IsWaiting(b, f) ==>
          b.cells[f].job in b.open && b.open[b.cells[f].job].answer == f)
    && (forall job :: job in b.open ==>
          && b.open[job].answer < |b.cells|
          && b.cells[b.open[job].answer].job == job
          && b.cells[b.open[job].answer].options == b.open[job].options)
  }

  /** Questions stay what they were, and what was answered or withdrawn stays so. */
  ghost predicate Settled(before: Board, after: Board) {
    && |before.cells| <= |after.cells|
    && forall f :: 0 <= f < |before.cells| ==>
         && after.cells[f].job == before.cells[f].job && after.cells[f].options == before.cells[f].options
         && (!before.cells[f].answer.Waiting? ==> after.cells[f] == before.cells[f])
  }

  /** Of the cells only this one is other than it was. */
  ghost predicate OnlyCell(before: seq<Cell>, after: seq<Cell>, f: int, answer: Answer) {
    && |after| == |before|
    && (forall g :: 0 <= g < |before| && g != f ==> after[g] == before[g])
    && (0 <= f < |before| ==> after[f] == Cell(before[f].job, before[f].options, answer))
  }

  lemma CloseKeepsValid(b: Board, job: JobId)
    requires Valid(b)
    ensures Valid(ClosedFor(b, job)) && Settled(b, ClosedFor(b, job))
    ensures forall f :: 0 <= f < |ClosedFor(b, job).cells| && IsWaiting(ClosedFor(b, job), f) ==>
              ClosedFor(b, job).cells[f].job != job
  {
  }

  lemma OpenKeepsValid(b: Board, job: JobId, step: Option<StepId>, options: seq<string>)
    requires Valid(b) && forall f :: 0 <= f < |b.cells| && IsWaiting(b, f) ==> b.cells[f].job != job
    ensures var asked := b.open[job := Question(step, options, |b.cells|)];
            var after := Board(asked, b.cells + [Cell(job, options, Waiting)]);
            Valid(after) && Settled(b, after)
  {
  }

  /** The question just asked gets exactly an offered value, told for its step or for none in particular. */
  lemma AnsweredExactly(b: Board, job: JobId, step: Option<StepId>, options: seq<string>, value: string,
                        told: Option<StepId>)
    requires Valid(b)
    ensures var asked := Asked(b, job, step, options);
            var f, after := asked.open[job].answer, Told(asked, job, value, told);
            && f < |after.cells| && IsWaiting(asked, f)
            && (after.cells[f].answer == Chosen(value) <==> value in options && (told.None? || told == step))
            && (after.cells[f].answer != Chosen(value) ==> after == asked)
  {
    CloseKeepsValid(b, job);
  }

  lemma StepKeepsValid(b: Board, e: Event)
    requires Valid(b)
    ensures Valid(Step(b, e)) && Settled(b, Step(b, e))
  {
    match e
    case Ask(job, step, options) =>
      CloseKeepsValid(b, job);
      OpenKeepsValid(ClosedFor(b, job), job, step, options);
    case Close(job) => CloseKeepsValid(b, job);
    case _ =>
  }

  /** Over every history: answers are options of their question, and no withdrawn question is answered later. */
  lemma {:induction false} EveryHistoryIsValid(b: Board, events: seq<Event>)
    requires Valid(b)
    ensures Valid(After(b, events)) && Settled(b, After(b, events))
  {
    if events == [] {
    } else {
      EveryHistoryIsValid(b, events[..|events| - 1]);
      StepKeepsValid(After(b, events[..|events| - 1]), events[|events| - 1]);
    }
  }

  /** Once a job asks again, or its question is closed, what it asked before is never answered. */
  lemma SupersededIsNeverAnswered(b: Board, f: nat, e: Event, events: seq<Event>)
    requires Valid(b) && IsWaiting(b, f)
    requires e.Ask? || e.Close?
    requires e.job == b.cells[f].job
    ensures var after := After(Step(b, e), events);
            f < |after.cells| && after.cells[f].answer == Withdrawn
  {
    StepKeepsValid(b, e);
    EveryHistoryIsValid(Step(b, e), events);
  }

  /** A job waits for one answer at most. */
  lemma OneQuestionAtATime(events: seq<Event>, f: nat, g: nat)
    ensures var b := After(NO_QUESTIONS, events);
            IsWaiting(b, f) && IsWaiting(b, g) && b.cells[f].job == b.cells[g].job ==> f == g
  {
    EveryHistoryIsValid(NO_QUESTIONS, events);
  }

  // ---------- the board as the program keeps it ----------

  class SelectionBoard {
    var open: map<JobId, Question>
    /** The loop's: every answer future made. */
    var cells: seq<Cell>

    ghost function Now(): Board
      reads this
    {
      Board(open, cells)
    }

    constructor ()
      ensures Now() == NO_QUESTIONS && Valid(Now())
    {
      open, cells := map[], [];
    }

    method Ask(job: JobId, step: Option<StepId>, options: seq<string>) returns (answer: nat)
      requires Valid(Now())
      modifies this
      ensures Valid(Now()) && Now() == Asked(old(Now()), job, step, options)
      ensures IsWaiting(Now(), answer) && open == old(open)[job := Question(step, options, answer)]
      ensures cells[..answer] + [Cell(job, options, Waiting)] == cells
      ensures var before := cells[..answer];
              if HasPending(old(Now()), job) then OnlyCell(old(cells), before, old(open)[job].answer, Withdrawn)
              else before == old(cells)
    {
      StepKeepsValid(Now(), Event.Ask(job, step, options));
      Close(job);
      answer := |cells|;
      cells := cells + [Cell(job, options, Waiting)];
      open := open[job := Question(step, options, answer)];
    }

    method Pending(job: JobId) returns (question: Option<Question>)
      requires Valid(Now())
      ensures question == if HasPending(Now(), job) then Some(open[job]) else None
    {
      if job in open && cells[open[job].answer].answer.Waiting? {
        return Some(open[job]);
      }
      return None;
    }

    method Tell(job: JobId, value: string, step: Option<StepId>) returns (reply: Reply)
      requires Valid(Now())
      modifies this`cells
      ensures Valid(Now()) && Now() == Told(old(Now()), job, value, step)
      ensures reply == ReplyTo(old(Now()), job, value, step)
      ensures reply.NotWaiting? <==> !HasPending(old(Now()), job)
      ensures reply.WaitingAt? ==> step.Some? && step != open[job].step && reply.step == open[job].step
      ensures reply.NotOffered? ==>
                && (step.None? || step == open[job].step)
                && value !in open[job].options && reply.options == open[job].options
      ensures reply.Answered? ==>
                && (step.None? || step == open[job].step) && value in open[job].options
                && OnlyCell(old(cells), cells, open[job].answer, Chosen(value))
      ensures !reply.Answered? ==> cells == old(cells)
    {
      StepKeepsValid(Now(), Event.Tell(job, value, step));
      var question := Pending(job);
      if question.None? {
        return NotWaiting;
      }
      if step.Some? && step != question.value.step {
        return WaitingAt(question.value.step);
      }
      if value !in question.value.options {
        return NotOffered(question.value.options);
      }
      cells := Put(cells, question.value.answer, Chosen(value));
      return Answered;
    }

    method Close(job: JobId)
      requires Valid(Now())
      modifies this
      ensures Valid(Now()) && Now() == ClosedFor(old(Now()), job)
      ensures open == old(open) - {job}
      ensures if HasPending(old(Now()), job) then OnlyCell(old(cells), cells, old(open)[job].answer, Withdrawn)
              else cells == old(cells)
    {
      StepKeepsValid(Now(), Event.Close(job));
      if job in open {
        var question := open[job];
        open := open - {job};
        if cells[question.answer].answer.Waiting? {
          cells := Put(cells, question.answer, Withdrawn);
        }
      }
    }
  }
}
