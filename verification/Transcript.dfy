/**
  The run transcript: what is printed, in any chunks, as plain lines (logging/transcript.py).
*/
module Transcript {
  import opened Sequences

  // ---------- the terminal's own bookkeeping ----------

  const ESC: char := '\U{1b}'
  const BEL: char := '\U{7}'

  predicate IsParameter(c: char) { '0' <= c <= '9' || c == ';' || c == '?' }

  predicate IsLetter(c: char) { 'a' <= c <= 'z' || 'A' <= c <= 'Z' }

  /** How many characters at the front of `s` are parameters of a control sequence. */
  function Parameters(s: string): (n: nat)
    ensures n <= |s|
  {
    if s != "" && IsParameter(s[0]) then 1 + Parameters(s[1..]) else 0
  }

  /** How many characters at the front of `s` can stand in an operating system command. */
  function Command(s: string): (n: nat)
    ensures n <= |s|
  {
    if s != "" && s[0] != BEL && s[0] != ESC then 1 + Command(s[1..]) else 0
  }

  /** The length of the escape sequence at the front of `s`, 0 where none is complete. */
  function EscapeLength(s: string): (n: nat)
    ensures n <= |s|
  {
    if |s| < 2 || s[0] != ESC then 0
    else if s[1] == '[' then
      var n := 2 + Parameters(s[2..]);
      if n < |s| && IsLetter(s[n]) then n + 1 else 0
    else if s[1] == ']' then
      var n := 2 + Command(s[2..]);
      if n < |s| && s[n] == BEL then n + 1
      else if n + 1 < |s| && s[n] == ESC && s[n + 1] == '\\' then n + 2
      else 0
    else 0
  }

  /** A control sequence: parameters behind `ESC [`, then a letter. */
  predicate IsControl(q: string) {
    && |q| >= 3 && q[0] == ESC && q[1] == '[' && IsLetter(q[|q| - 1])
    && forall i :: 2 <= i < |q| - 1 ==> IsParameter(q[i])
  }

  /** A system command: anything behind `ESC ]` but the two characters that can end it, then one of its ends. */
  predicate IsCommand(q: string) {
    && |q| >= 3 && q[0] == ESC && q[1] == ']'
    && (|| (q[|q| - 1] == BEL && IsCommandText(q[2..|q| - 1]))
        || (|q| >= 4 && q[|q| - 2] == ESC && q[|q| - 1] == '\\' && IsCommandText(q[2..|q| - 2])))
  }

  predicate IsCommandText(t: string) { BEL !in t && ESC !in t }

  predicate IsSequence(q: string) { IsControl(q) || IsCommand(q) }

  lemma {:induction false} ParametersExactly(s: string, n: nat)
    requires n < |s| && !IsParameter(s[n]) && forall i :: 0 <= i < n ==> IsParameter(s[i])
    ensures Parameters(s) == n
  {
    if n == 0 {
    } else {
      ParametersExactly(s[1..], n - 1);
    }
  }

  lemma {:induction false} ParametersAre(s: string)
    ensures forall i :: 0 <= i < Parameters(s) ==> IsParameter(s[i])
  {
    if s == "" || !IsParameter(s[0]) {
    } else {
      ParametersAre(s[1..]);
      forall i | 0 <= i < Parameters(s) ensures IsParameter(s[i]) {
        if i > 0 { assert s[i] == s[1..][i - 1]; }
      }
    }
  }

  lemma {:induction false} CommandExactly(s: string, n: nat)
    requires n < |s| && (s[n] == BEL || s[n] == ESC) && IsCommandText(s[..n])
    ensures Command(s) == n
  {
    if n == 0 {
    } else {
      assert s[0] == s[..n][0] && s[1..][..n - 1] == s[..n][1..];
      CommandExactly(s[1..], n - 1);
    }
  }

  lemma {:induction false} CommandIs(s: string)
    ensures IsCommandText(s[..Command(s)])
  {
    if s == "" || s[0] == BEL || s[0] == ESC {
    } else {
      CommandIs(s[1..]);
      assert s[..Command(s)] == [s[0]] + s[1..][..Command(s) - 1];
    }
  }

  /** What is measured is a sequence. */
  lemma MeasuredIsASequence(s: string)
    requires EscapeLength(s) > 0
    ensures IsSequence(s[..EscapeLength(s)])
  {
    var n := EscapeLength(s);
    var q := s[..n];
    if s[1] == '[' {
      ParametersAre(s[2..]);
      forall i | 2 <= i < n - 1 ensures IsParameter(q[i]) {
        assert q[i] == s[2..][i - 2];
      }
      assert IsControl(q);
    } else {
      CommandIs(s[2..]);
      var end := 2 + Command(s[2..]);
      assert q[2..end] == s[2..][..end - 2];
      assert IsCommand(q);
    }
  }

  lemma SequenceIsMeasured(s: string, n: nat)
    requires n <= |s| && IsSequence(s[..n])
    ensures EscapeLength(s) == n
  {
    var q := s[..n];
    if IsControl(q) {
      forall i | 0 <= i < n - 3 ensures IsParameter(s[2..][i]) {
        assert s[2..][i] == q[i + 2];
      }
      ParametersExactly(s[2..], n - 3);
    } else if q[n - 1] == BEL && IsCommandText(q[2..n - 1]) {
      assert q[2..n - 1] == s[2..][..n - 3];
      CommandExactly(s[2..], n - 3);
    } else {
      assert q[2..n - 2] == s[2..][..n - 4];
      CommandExactly(s[2..], n - 4);
    }
  }

  /** The length measured is that of the one sequence in front, whatever follows it; 0 says that none is there. */
  lemma EscapeLengthExactly(s: string, n: nat)
    requires 0 < n <= |s|
    ensures EscapeLength(s) == n <==> IsSequence(s[..n])
  {
    if EscapeLength(s) == n {
      MeasuredIsASequence(s);
    } else if IsSequence(s[..n]) {
      SequenceIsMeasured(s, n);
    }
  }

  /** `s` without its escape sequences, found from the left. */
  function Stripped(s: string): string
    decreases |s|
  {
    if s == "" then ""
    else if EscapeLength(s) > 0 then Stripped(s[EscapeLength(s)..])
    else [s[0]] + Stripped(s[1..])
  }

  /** Read from the left, the text comes to position `at` with no escape sequence across it. */
  predicate Clears(s: string, at: nat)
    requires at <= |s|
    decreases |s|
  {
    if at == 0 then true
    else if EscapeLength(s) > 0 then EscapeLength(s) <= at && Clears(s[EscapeLength(s)..], at - EscapeLength(s))
    else Clears(s[1..], at - 1)
  }

  // ---------- lines ----------

  /** What follows the last carriage return: the last state of a redrawn line. */
  function LastState(line: string): string
  {
    if '\r' in line then
      if line[0] == '\r' && '\r' !in line[1..] then line[1..] else LastState(line[1..])
    else line
  }

  /** It is a tail of the line with no carriage return in it, all of the line or just behind one. */
  lemma {:induction false} LastStateIsTheTail(line: string)
    ensures |LastState(line)| <= |line| && line[|line| - |LastState(line)|..] == LastState(line)
    ensures '\r' !in LastState(line)
    ensures LastState(line) == line || line[|line| - |LastState(line)| - 1] == '\r'
  {
    if '\r' in line && (line[0] != '\r' || '\r' in line[1..]) {
      LastStateIsTheTail(line[1..]);
    }
  }

  /** Where the first line of `s` ends, |s| where it does not. */
  function LineEnd(s: string): (n: nat)
    ensures n <= |s|
    ensures n < |s| ==> s[n] == '\n'
    ensures '\n' !in s[..n]
  {
    if s == "" || s[0] == '\n' then 0
    else
      var n := 1 + LineEnd(s[1..]);
      assert s[..n] == [s[0]] + s[1..][..n - 1];
      n
  }

  /** The complete lines of `s`, each in its last state. */
  function Lines(s: string): string
    decreases |s|
  {
    var n := LineEnd(s);
    if n == |s| then "" else LastState(s[..n]) + "\n" + Lines(s[n + 1..])
  }

  /** What of `s` is not a complete line. */
  function Rest(s: string): (rest: string)
    ensures |rest| <= |s|
    decreases |s|
  {
    var n := LineEnd(s);
    if n == |s| then s else Rest(s[n + 1..])
  }

  /** The transcript of a whole text: its lines, and a partial last line ended. */
  function Rendered(s: string): string {
    Lines(s) + if Rest(s) == "" then "" else LastState(Rest(s)) + "\n"
  }

  lemma {:induction false} LineEndStays(a: string, b: string)
    requires LineEnd(a) < |a|
    ensures LineEnd(a + b) == LineEnd(a)
  {
    if a[0] != '\n' {
      JoinedDrop(a, b, 1);
      LineEndStays(a[1..], b);
    }
  }

  /** A text behind others: their lines, then the lines of what they left open with it. */
  lemma {:induction false} LinesJoined(a: string, b: string)
    ensures Lines(a + b) == Lines(a) + Lines(Rest(a) + b)
    ensures Rest(a + b) == Rest(Rest(a) + b)
    decreases |a|
  {
    var n := LineEnd(a);
    if n < |a| {
      LineEndStays(a, b);
      JoinedTake(a, b, n);
      JoinedDrop(a, b, n + 1);
      LinesJoined(a[n + 1..], b);
      Associates(LastState(a[..n]) + "\n", Lines(a[n + 1..]), Lines(Rest(a) + b));
    } else {
      assert "" + Lines(a + b) == Lines(a + b);
    }
  }

  // ---------- what a transcript is, line by line ----------

  /** A text cut at its line feeds, the last line being what follows the last feed. */
  function LinesOf(text: string): (lines: seq<string>)
    ensures lines != []
  {
    if text == "" then [""]
    else
      var lines := LinesOf(text[1..]);
      if text[0] == '\n' then [""] + lines else [[text[0]] + lines[0]] + lines[1..]
  }

  /** What follows the last feed of a text. */
  function LastLine(text: string): string { LinesOf(text)[|LinesOf(text)| - 1] }

  /** What `LinesOf` undoes: lines with a feed between any two. */
  function Fed(lines: seq<string>): string
    requires lines != []
  {
    if |lines| == 1 then lines[0] else lines[0] + "\n" + Fed(lines[1..])
  }

  /** Cutting loses nothing and leaves no feed. */
  lemma {:induction false} CutAndFed(text: string)
    ensures Fed(LinesOf(text)) == text
    ensures forall i :: 0 <= i < |LinesOf(text)| ==> '\n' !in LinesOf(text)[i]
  {
    if text == "" {
    } else {
      var lines := LinesOf(text[1..]);
      CutAndFed(text[1..]);
      if text[0] == '\n' {
        HeadAndTail("", lines);
        assert "" + "\n" + Fed(lines) == text;
      } else {
        HeadAndTail([text[0]] + lines[0], lines[1..]);
        if |lines| > 1 {
          assert [text[0]] + lines[0] + "\n" + Fed(lines[1..]) == [text[0]] + Fed(lines);
        }
      }
    }
  }

  /** The state a line is left in: what follows its last carriage return, all of it where there is none. */
  ghost predicate IsStateOf(state: string, line: string) {
    && '\r' !in state
    && (state == line || exists i :: 0 <= i < |line| && line[i] == '\r' && state == line[i + 1..])
  }

  lemma {:induction false} LastStateIsTheState(line: string)
    ensures IsStateOf(LastState(line), line)
  {
    LastStateIsTheTail(line);
    var at := |line| - |LastState(line)|;
    if LastState(line) != line {
      assert at > 0 && line[at - 1] == '\r' && LastState(line) == line[at - 1 + 1..];
    }
  }

  lemma OneState(a: string, b: string, line: string)
    requires IsStateOf(a, line) && IsStateOf(b, line)
    ensures a == b
  {
    TailWithout(a, b, line);
    TailWithout(b, a, line);
  }

  lemma TailWithout(a: string, b: string, line: string)
    requires IsStateOf(a, line) && IsStateOf(b, line)
    ensures |a| <= |b|
  {
  }

  /** The file so far: the state of each complete line of the text, each ended. */
  ghost predicate HoldsItsLines(file: string, text: string) {
    && |LinesOf(file)| == |LinesOf(text)|
    && LastLine(file) == ""
    && forall i :: 0 <= i < |LinesOf(text)| - 1 ==> IsStateOf(LinesOf(file)[i], LinesOf(text)[i])
  }

  /** The closed file: the same, and a last line that is not empty is in its state and ended too. */
  ghost predicate IsTranscriptOf(file: string, text: string) {
    if LastLine(text) == "" then HoldsItsLines(file, text) else HoldsItsLines(file, text + "\n")
  }

  lemma {:induction false} OneLine(line: string)
    requires '\n' !in line
    ensures LinesOf(line) == [line]
  {
    if line == "" {
    } else {
      OneLine(line[1..]);
      assert [line[0]] + line[1..] == line;
    }
  }

  lemma {:induction false} LineInFront(line: string, text: string)
    requires '\n' !in line
    ensures LinesOf(line + "\n" + text) == [line] + LinesOf(text)
  {
    var whole := line + "\n" + text;
    if line == "" {
      assert whole[1..] == text;
    } else {
      assert whole[1..] == line[1..] + "\n" + text;
      LineInFront(line[1..], text);
      HeadAndTail(line[1..], LinesOf(text));
      assert [line[0]] + line[1..] == line;
    }
  }

  lemma LineAhead(state: string, line: string, file: string, text: string)
    requires '\n' !in state && '\n' !in line && IsStateOf(state, line) && HoldsItsLines(file, text)
    ensures HoldsItsLines(state + "\n" + file, line + "\n" + text)
  {
    LineInFront(state, file);
    LineInFront(line, text);
    HeadAndTail(state, LinesOf(file));
    HeadAndTail(line, LinesOf(text));
    var out, lines := LinesOf(state + "\n" + file), LinesOf(line + "\n" + text);
    forall i | 0 <= i < |lines| - 1 ensures IsStateOf(out[i], lines[i]) {
      if i > 0 {
        assert out[i] == LinesOf(file)[i - 1] && lines[i] == LinesOf(text)[i - 1];
      }
    }
  }

  lemma StateHasNoFeed(line: string)
    requires '\n' !in line
    ensures '\n' !in LastState(line)
  {
    LastStateIsTheTail(line);
  }

  /** What the tee has written and what it keeps back of a text. */
  lemma {:induction false} LinesAreHeld(text: string)
    ensures HoldsItsLines(Lines(text), text)
    ensures Rest(text) == LastLine(text)
    decreases |text|
  {
    var n := LineEnd(text);
    if n == |text| {
      assert text[..n] == text;
      OneLine(text);
    } else {
      var line, behind := text[..n], text[n + 1..];
      assert line + "\n" + behind == text;
      LinesAreHeld(behind);
      LastStateIsTheState(line);
      StateHasNoFeed(line);
      LineAhead(LastState(line), line, Lines(behind), behind);
      LineInFront(line, behind);
    }
  }

  /** Ending what is left open ends the lines. */
  lemma FeedBehind(text: string)
    ensures Lines(text + "\n") == Lines(text) + LastState(Rest(text)) + "\n"
  {
    LinesJoined(text, "\n");
    var rest := Rest(text);
    LinesAreHeld(text);
    CutAndFed(text);
    OneEndedLine(rest);
    Associates(Lines(text), LastState(rest), "\n");
  }

  lemma OneEndedLine(line: string)
    requires '\n' !in line
    ensures Lines(line + "\n") == LastState(line) + "\n"
  {
    var s := line + "\n";
    assert s[..|line|] == line && s[|line| + 1..] == "";
    LineEndIs(s, |line|);
    assert LastState(line) + "\n" + "" == LastState(line) + "\n";
  }

  lemma LineEndIs(s: string, n: nat)
    requires n < |s| && s[n] == '\n' && '\n' !in s[..n]
    ensures LineEnd(s) == n
  {
  }

  lemma RenderedIsTheTranscript(text: string)
    ensures IsTranscriptOf(Rendered(text), text)
  {
    LinesAreHeld(text);
    if Rest(text) == "" {
      assert Lines(text) + "" == Lines(text);
    } else {
      LinesAreHeld(text + "\n");
      FeedBehind(text);
      Associates(Lines(text), LastState(Rest(text)), "\n");
    }
  }

  /** A text has one transcript. */
  lemma OneTranscript(a: string, b: string, text: string)
    requires IsTranscriptOf(a, text) && IsTranscriptOf(b, text)
    ensures a == b
  {
    var whole := if LastLine(text) == "" then text else text + "\n";
    var n := |LinesOf(whole)| - 1;
    forall i | 0 <= i < n ensures LinesOf(a)[i] == LinesOf(b)[i] {
      OneState(LinesOf(a)[i], LinesOf(b)[i], LinesOf(whole)[i]);
    }
    assert LinesOf(a) == LinesOf(b);
    CutAndFed(a);
    CutAndFed(b);
  }

  lemma {:induction false} LinesWithoutReturns(text: string)
    requires '\r' !in text
    ensures forall i :: 0 <= i < |LinesOf(text)| ==> '\r' !in LinesOf(text)[i]
  {
    if text == "" {
    } else {
      LinesWithoutReturns(text[1..]);
    }
  }

  lemma {:induction false} EndedTextEndsEmpty(text: string)
    requires text == "" || text[|text| - 1] == '\n'
    ensures LastLine(text) == ""
  {
    if |text| <= 1 {
      if text != "" { assert text[1..] == ""; }
    } else {
      EndedTextEndsEmpty(text[1..]);
    }
  }

  /** A text of ended lines without carriage returns, blank ones included, is its own transcript. */
  lemma PlainTextStays(file: string, text: string)
    requires IsTranscriptOf(file, text)
    requires '\r' !in text && (text == "" || text[|text| - 1] == '\n')
    ensures file == text
  {
    LinesWithoutReturns(text);
    EndedTextEndsEmpty(text);
    assert forall i :: 0 <= i < |LinesOf(text)| ==> IsStateOf(LinesOf(text)[i], LinesOf(text)[i]);
    OneTranscript(text, file, text);
  }

  // ---------- writing in chunks ----------

  function Concat(chunks: seq<string>): string {
    if chunks == [] then "" else Concat(chunks[..|chunks| - 1]) + chunks[|chunks| - 1]
  }

  function StrippedEach(chunks: seq<string>): seq<string> {
    if chunks == [] then [] else StrippedEach(chunks[..|chunks| - 1]) + [Stripped(chunks[|chunks| - 1])]
  }

  class Tee {
    /** What the transcript file holds, and the part of a line not written yet. */
    var file: string
    var pending: string

    constructor ()
      ensures file == "" && pending == ""
    {
      file, pending := "", "";
    }

    /** However a text comes in, the file holds its complete lines and the rest is pending. */
    ghost predicate Holds(text: string)
      reads this
    {
      file == Lines(text) && pending == Rest(text)
    }

    method ToFile(text: string, ghost before: string)
      requires Holds(before)
      modifies this
      ensures Holds(before + Stripped(text))
      ensures HoldsItsLines(file, before + Stripped(text)) && pending == LastLine(before + Stripped(text))
    {
      var cleaned := Stripped(text);
      LinesJoined(before, cleaned);
      LinesAreHeld(before + cleaned);
      if cleaned == "" {
        assert before + cleaned == before;
        return;
      }
      pending := pending + cleaned;
      WriteLines();
    }

    /** Writes the complete lines of what is pending. */
    method WriteLines()
      modifies this
      ensures file == old(file) + Lines(old(pending)) && pending == Rest(old(pending))
    {
      ghost var all := pending;
      while true
        invariant old(file) + Lines(all) == file + Lines(pending) && Rest(all) == Rest(pending)
        decreases |pending|
      {
        var index := LineEnd(pending);
        if index == |pending| {
          break;
        }
        var line := pending[..index];
        Associates(file, LastState(line) + "\n", Lines(pending[index + 1..]));
        pending := pending[index + 1..];
        file := file + (LastState(line) + "\n");
      }
    }

    method Close(ghost text: string)
      requires Holds(text)
      modifies this
      ensures file == Rendered(text) && pending == ""
      ensures IsTranscriptOf(file, text)
    {
      RenderedIsTheTranscript(text);
      if pending != "" {
        file := file + (LastState(pending) + "\n");
        pending := "";
      }
    }
  }

  /** Whatever the chunks, the file after closing is the transcript of their stripped text at once. */
  method Record(chunks: seq<string>) returns (file: string)
    ensures file == Rendered(Concat(StrippedEach(chunks)))
    ensures IsTranscriptOf(file, Concat(StrippedEach(chunks)))
  {
    var tee := new Tee();
    for i := 0 to |chunks|
      invariant fresh(tee) && tee.Holds(Concat(StrippedEach(chunks[..i])))
    {
      OneMoreChunk(chunks, i);
      tee.ToFile(chunks[i], Concat(StrippedEach(chunks[..i])));
    }
    assert chunks[..|chunks|] == chunks;
    tee.Close(Concat(StrippedEach(chunks)));
    file := tee.file;
  }

  lemma OneMoreChunk(chunks: seq<string>, i: nat)
    requires i < |chunks|
    ensures Concat(StrippedEach(chunks[..i + 1])) == Concat(StrippedEach(chunks[..i])) + Stripped(chunks[i])
  {
    assert chunks[..i + 1][..i] == chunks[..i];
    var each := StrippedEach(chunks[..i + 1]);
    assert each[..|each| - 1] == StrippedEach(chunks[..i]);
  }

  // ---------- escape sequences and chunks ----------

  lemma {:induction false} ParametersJoined(a: string, b: string)
    ensures Parameters(a) < |a| ==> Parameters(a + b) == Parameters(a)
    ensures Parameters(a) == |a| ==> Parameters(a + b) == |a| + Parameters(b)
  {
    if a == "" {
      assert a + b == b;
    } else {
      assert (a + b)[1..] == a[1..] + b;
      ParametersJoined(a[1..], b);
    }
  }

  lemma {:induction false} CommandJoined(a: string, b: string)
    ensures Command(a) < |a| ==> Command(a + b) == Command(a)
    ensures Command(a) == |a| ==> Command(a + b) == |a| + Command(b)
  {
    if a == "" {
      assert a + b == b;
    } else {
      assert (a + b)[1..] == a[1..] + b;
      CommandJoined(a[1..], b);
    }
  }

  /** An escape sequence complete in `a` is the one in front of `a + b`; any other reaches into `b`. */
  lemma EscapeJoined(a: string, b: string)
    requires a != ""
    ensures EscapeLength(a) > 0 ==> EscapeLength(a + b) == EscapeLength(a)
    ensures EscapeLength(a) == 0 && EscapeLength(a + b) > 0 ==> EscapeLength(a + b) > |a|
  {
    if |a| >= 2 {
      assert (a + b)[2..] == a[2..] + b;
      ParametersJoined(a[2..], b);
      CommandJoined(a[2..], b);
    }
  }

  /** Where no escape sequence lies across the split, stripping the parts is stripping the whole. */
  lemma {:induction false} StrippedJoined(a: string, b: string)
    requires Clears(a + b, |a|)
    ensures Stripped(a + b) == Stripped(a) + Stripped(b)
    decreases |a|
  {
    if a == "" {
      assert a + b == b;
    } else {
      EscapeJoined(a, b);
      var n := EscapeLength(a);
      if n > 0 {
        JoinedDrop(a, b, n);
        StrippedJoined(a[n..], b);
      } else {
        JoinedDrop(a, b, 1);
        StrippedJoined(a[1..], b);
        Associates([a[0]], Stripped(a[1..]), Stripped(b));
      }
    }
  }

  lemma {:induction false} NoEscapeInside(s: string)
    ensures forall i :: 0 <= i < Parameters(s) ==> s[i] != ESC
    ensures forall i :: 0 <= i < Command(s) ==> s[i] != ESC
  {
    if s == "" {
    } else {
      NoEscapeInside(s[1..]);
      forall i | 0 <= i < Parameters(s) ensures s[i] != ESC {
        if i > 0 { assert s[i] == s[1..][i - 1]; }
      }
      forall i | 0 <= i < Command(s) ensures s[i] != ESC {
        if i > 0 { assert s[i] == s[1..][i - 1]; }
      }
    }
  }

  /** Past its first character an escape sequence starts no other. */
  lemma SequenceStartsOnce(s: string, j: nat)
    requires 1 <= j < EscapeLength(s)
    ensures s[j] != ESC || (j + 1 < EscapeLength(s) && s[j + 1] == '\\')
  {
    NoEscapeInside(s[2..]);
    if j >= 2 {
      assert s[j] == s[2..][j - 2];
    }
  }

  /** A stretch in which no sequence starts is kept. */
  lemma {:induction false} StretchIsKept(s: string, m: nat)
    requires m <= |s| && forall i :: 0 <= i < m ==> EscapeLength(s[i..]) == 0
    ensures Stripped(s) == s[..m] + Stripped(s[m..])
  {
    if m == 0 {
      assert s[0..] == s;
    } else {
      assert s[0..] == s && s[..m] == [s[0]] + s[1..][..m - 1];
      forall i | 0 <= i < m - 1 ensures EscapeLength(s[1..][i..]) == 0 {
        DropDrop(s, 1, i);
      }
      StretchIsKept(s[1..], m - 1);
      DropDrop(s, 1, m - 1);
      Associates([s[0]], s[1..][..m - 1], Stripped(s[m..]));
    }
  }

  /** No escape sequence starts in the first `n` characters. */
  ghost predicate FreeOfStarts(s: string, n: nat)
    requires n <= |s|
  {
    forall i, j :: 0 <= i < n && i < j <= |s| ==> !IsSequence(s[i..j])
  }

  /** Free of starts at `i`: nothing is measured there. */
  lemma NothingMeasured(s: string, n: nat, i: nat)
    requires i < n <= |s| && FreeOfStarts(s, n)
    ensures EscapeLength(s[i..]) == 0
  {
    var m := EscapeLength(s[i..]);
    if m > 0 {
      MeasuredIsASequence(s[i..]);
      DropTake(s, i, m);
    }
  }

  /** A text in which none starts is kept. */
  lemma NothingStripped(s: string)
    requires FreeOfStarts(s, |s|)
    ensures Stripped(s) == s
  {
    forall i | 0 <= i < |s| ensures EscapeLength(s[i..]) == 0 {
      NothingMeasured(s, |s|, i);
    }
    StretchIsKept(s, |s|);
  }

  /** The first escape sequence of a text is taken out, and stripping goes on behind it. */
  lemma FirstSequenceGoes(a: string, q: string, b: string)
    requires IsSequence(q) && FreeOfStarts(a + (q + b), |a|)
    ensures Stripped(a + (q + b)) == a + Stripped(b)
  {
    var s := a + (q + b);
    forall i | 0 <= i < |a| ensures EscapeLength(s[i..]) == 0 {
      NothingMeasured(s, |a|, i);
    }
    StretchIsKept(s, |a|);
    JoinedDrop(a, q + b, |a|);
    JoinedTake(a, q + b, |a|);
    SequenceInFront(q, b);
  }

  lemma SequenceInFront(q: string, b: string)
    requires IsSequence(q)
    ensures Stripped(q + b) == Stripped(b)
  {
    assert (q + b)[..|q|] == q && (q + b)[|q|..] == b;
    SequenceIsMeasured(q + b, |q|);
  }

  lemma StretchLength(s: string, m: nat)
    requires m <= |s| && forall i :: 0 <= i < m ==> EscapeLength(s[i..]) == 0
    ensures |Stripped(s)| == m + |Stripped(s[m..])|
  {
    StretchIsKept(s, m);
  }

  /** A cut-off sequence: nothing in its front part is one. */
  lemma NoneInFront(a: string, b: string, i: nat)
    requires i < |a| && EscapeLength(a + b) > |a| && EscapeLength(a) == 0
    ensures EscapeLength(a[i..]) == 0
  {
    assert a[0..] == a;
    if i > 0 {
      SequenceStartsOnce(a + b, i);
      assert a[i..][0] == (a + b)[i];
      if i + 1 < |a| { assert a[i..][1] == (a + b)[i + 1]; }
    }
  }

  /** Nor in the part behind the split. */
  lemma NoneBehind(a: string, b: string, i: nat)
    requires a != "" && |a| + i < EscapeLength(a + b)
    ensures EscapeLength(b[i..]) == 0
  {
    SequenceStartsOnce(a + b, |a| + i);
    assert b[i..][0] == (a + b)[|a| + i];
    if i + 1 < |b| { assert b[i..][1] == (a + b)[|a| + i + 1]; }
  }

  /** A sequence that lies across the split is kept, in two parts, by stripping the parts. */
  lemma CutSequenceIsKept(a: string, b: string)
    requires a != "" && EscapeLength(a + b) > |a| && EscapeLength(a) == 0
    ensures |Stripped(a)| + |Stripped(b)| > |Stripped(a + b)|
  {
    FrontIsKept(a, b);
    BehindIsKept(a, b);
    StrippedOver(a, b);
  }

  lemma BehindIsKept(a: string, b: string)
    requires a != "" && EscapeLength(a + b) > |a|
    ensures var n := EscapeLength(a + b) - |a|;
            n <= |b| && |Stripped(b)| == n + |Stripped(b[n..])|
  {
    var n := EscapeLength(a + b) - |a|;
    forall i | 0 <= i < n ensures EscapeLength(b[i..]) == 0 {
      NoneBehind(a, b, i);
    }
    StretchLength(b, n);
  }

  lemma StrippedOver(a: string, b: string)
    requires a != "" && EscapeLength(a + b) > |a|
    ensures Stripped(a + b) == Stripped(b[EscapeLength(a + b) - |a|..])
  {
    assert (a + b)[EscapeLength(a + b)..] == b[EscapeLength(a + b) - |a|..];
  }

  lemma FrontIsKept(a: string, b: string)
    requires a != "" && EscapeLength(a + b) > |a| && EscapeLength(a) == 0
    ensures |Stripped(a)| >= |a|
  {
    forall i | 0 <= i < |a| ensures EscapeLength(a[i..]) == 0 {
      NoneInFront(a, b, i);
    }
    StretchLength(a, |a|);
  }

  lemma {:induction false} SplitSequenceIsKept(a: string, b: string)
    requires !Clears(a + b, |a|)
    ensures |Stripped(a)| + |Stripped(b)| > |Stripped(a + b)|
    decreases |a|
  {
    EscapeJoined(a, b);
    var n := EscapeLength(a);
    if n > 0 {
      JoinedDrop(a, b, n);
      SplitSequenceIsKept(a[n..], b);
    } else if EscapeLength(a + b) > 0 {
      CutSequenceIsKept(a, b);
    } else {
      JoinedDrop(a, b, 1);
      SplitSequenceIsKept(a[1..], b);
    }
  }

  /** Two writes are stripped as one exactly when no escape sequence lies across them. */
  lemma StrippedInTwoExactly(a: string, b: string)
    ensures Stripped(a + b) == Stripped(a) + Stripped(b) <==> Clears(a + b, |a|)
  {
    if Clears(a + b, |a|) {
      StrippedJoined(a, b);
    } else {
      SplitSequenceIsKept(a, b);
    }
  }

  /** No escape sequence of the whole text lies across any two writes. */
  predicate ClearsEach(chunks: seq<string>) {
    chunks == []
    || (&& Clears(Concat(chunks), |Concat(chunks[..|chunks| - 1])|)
        && ClearsEach(chunks[..|chunks| - 1]))
  }

  lemma {:induction false} StrippedAsOne(chunks: seq<string>)
    requires ClearsEach(chunks)
    ensures Concat(StrippedEach(chunks)) == Stripped(Concat(chunks))
  {
    if chunks == [] {
    } else {
      var front := chunks[..|chunks| - 1];
      StrippedAsOne(front);
      StrippedJoined(Concat(front), chunks[|chunks| - 1]);
      OneMoreChunk(chunks, |chunks| - 1);
      assert chunks[..|chunks|] == chunks;
    }
  }

  lemma LastChunk(chunks: seq<string>)
    requires chunks != []
    ensures var front, last := chunks[..|chunks| - 1], chunks[|chunks| - 1];
            && Concat(chunks) == Concat(front) + last
            && Concat(StrippedEach(chunks)) == Concat(StrippedEach(front)) + Stripped(last)
  {
    OneMoreChunk(chunks, |chunks| - 1);
    assert chunks[..|chunks|] == chunks;
  }

  /** Cleaned one by one, writes keep more than cleaned as one where a sequence lies across some of them. */
  lemma {:induction false} EachKeepsMore(chunks: seq<string>)
    ensures |Concat(StrippedEach(chunks))| >= |Stripped(Concat(chunks))|
    ensures !ClearsEach(chunks) ==> |Concat(StrippedEach(chunks))| > |Stripped(Concat(chunks))|
  {
    if chunks == [] {
    } else {
      var front, last := chunks[..|chunks| - 1], chunks[|chunks| - 1];
      EachKeepsMore(front);
      LastChunk(chunks);
      if Clears(Concat(chunks), |Concat(front)|) {
        StrippedJoined(Concat(front), last);
      } else {
        SplitSequenceIsKept(Concat(front), last);
      }
    }
  }

  /** However many writes there are: they are cleaned as one exactly when no escape sequence lies across any of them. */
  lemma StrippedAsOneExactly(chunks: seq<string>)
    ensures Concat(StrippedEach(chunks)) == Stripped(Concat(chunks)) <==> ClearsEach(chunks)
  {
    EachKeepsMore(chunks);
    if ClearsEach(chunks) {
      StrippedAsOne(chunks);
    }
  }

  /** What starts a colour code and what ends it, in two writes. */
  const COLOUR_STARTS: string := [ESC, '[', '3']
  const COLOUR_ENDS: string := "1m"

  lemma ColourIsOneSequence()
    ensures EscapeLength(COLOUR_STARTS + COLOUR_ENDS) == 5
  {
    var rest := (COLOUR_STARTS + COLOUR_ENDS)[2..];
    assert rest == "31m" && rest[1..] == "1m" && rest[1..][1..] == "m";
    assert Parameters("m") == 0 && Parameters("1m") == 1;
    assert Parameters("31m") == 2;
  }

  lemma ColourStartIsKept()
    ensures Stripped(COLOUR_STARTS) == COLOUR_STARTS
  {
    assert COLOUR_STARTS[2..] == "3" && "3"[1..] == "";
    assert Parameters("3") == 1 && EscapeLength(COLOUR_STARTS) == 0;
    assert COLOUR_STARTS[1..] == "[3" && "[3"[1..] == "3";
    assert Stripped("3") == "3" && Stripped("[3") == "[3";
  }

  lemma ColourEndIsKept()
    ensures Stripped(COLOUR_ENDS) == COLOUR_ENDS
  {
    assert COLOUR_ENDS[1..] == "m" && "m"[1..] == "";
  }

  lemma TwoWrites(a: string, b: string)
    ensures Concat([a, b]) == a + b && Concat(StrippedEach([a, b])) == Stripped(a) + Stripped(b)
  {
    assert [a, b][..1] == [a] && [a][..0] == [];
    LastChunk([a]);
    LastChunk([a, b]);
    assert "" + a == a && "" + Stripped(a) == Stripped(a);
  }

  /** Written at once it is cleaned away; in two writes both its parts stay in the transcript. */
  lemma SplitColourStays()
    ensures Stripped(COLOUR_STARTS + COLOUR_ENDS) == ""
    ensures Concat(StrippedEach([COLOUR_STARTS, COLOUR_ENDS])) == COLOUR_STARTS + COLOUR_ENDS
    ensures !ClearsEach([COLOUR_STARTS, COLOUR_ENDS])
  {
    var whole := COLOUR_STARTS + COLOUR_ENDS;
    ColourIsOneSequence();
    assert whole[5..] == "" && Stripped(whole) == "";
    ColourStartIsKept();
    ColourEndIsKept();
    TwoWrites(COLOUR_STARTS, COLOUR_ENDS);
    StrippedAsOneExactly([COLOUR_STARTS, COLOUR_ENDS]);
  }

  /** Two ways of writing one text, neither cutting an escape sequence, leave the same transcript. */
  lemma ChunksDoNotMatter(a: seq<string>, b: seq<string>)
    requires Concat(a) == Concat(b) && ClearsEach(a) && ClearsEach(b)
    ensures Rendered(Concat(StrippedEach(a))) == Rendered(Concat(StrippedEach(b)))
  {
    StrippedAsOne(a);
    StrippedAsOne(b);
  }
}
