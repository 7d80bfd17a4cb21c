/**
  Secrets a truncation cut short: a prefix of a secret that ends exactly at a
  truncation marker is masked (logging/_secret_pattern.py).
*/
module CutMasking {
  import opened Sequences
  import opened SecretPattern
  import opened TextMasking

  /** How many characters of a cut secret must be left for them to be masked. */
  const MIN_CUT_PREFIX: nat := 8

  const CUT_HEAD: string := "...[truncated "
  const CUT_TAIL: string := " chars]"

  function Digits(s: string): (n: nat)
    ensures n <= |s|
    ensures forall i :: 0 <= i < n ==> '0' <= s[i] <= '9'
    ensures n < |s| ==> !('0' <= s[n] <= '9')
  {
    if s != "" && '0' <= s[0] <= '9' then 1 + Digits(s[1..]) else 0
  }

  /** The length of the truncation marker at the front of `s`, 0 where none is. */
  function CutLength(s: string): (n: nat)
    ensures n <= |s|
  {
    if !(CUT_HEAD <= s) then 0
    else
      var digits := Digits(s[|CUT_HEAD|..]);
      if digits > 0 && CUT_TAIL <= s[|CUT_HEAD| + digits..] then |CUT_HEAD| + digits + |CUT_TAIL| else 0
  }

  /** Where the first truncation marker of `s` starts, |s| where there is none. */
  function FirstCut(s: string): (i: nat)
    ensures i <= |s|
  {
    if s == "" || CutLength(s) > 0 then 0 else 1 + FirstCut(s[1..])
  }

  lemma {:induction false} FirstCutIsFirst(s: string)
    ensures FirstCut(s) < |s| ==> CutLength(s[FirstCut(s)..]) > 0
    ensures forall j :: 0 <= j < FirstCut(s) ==> CutLength(s[j..]) == 0
  {
    assert s[0..] == s;
    if s == "" || CutLength(s) > 0 {
    } else {
      FirstCutIsFirst(s[1..]);
      assert forall j :: 1 <= j <= |s| ==> s[j..] == s[1..][j - 1..];
    }
  }

  lemma {:induction false} FirstCutUnique(s: string, i: nat)
    requires i <= |s| && (i < |s| ==> CutLength(s[i..]) > 0)
    requires forall j :: 0 <= j < i ==> CutLength(s[j..]) == 0
    ensures FirstCut(s) == i
  {
    FirstCutIsFirst(s);
  }

  /** The text up to the first truncation marker, the marker, and the text behind it. */
  function Before(s: string): string { s[..FirstCut(s)] }

  function CutEnd(s: string): (end: nat)
    ensures FirstCut(s) <= end <= |s|
    ensures FirstCut(s) < |s| ==> FirstCut(s) < end
  {
    FirstCutIsFirst(s);
    FirstCut(s) + CutLength(s[FirstCut(s)..])
  }

  function Cut(s: string): string { s[FirstCut(s)..CutEnd(s)] }

  function Behind(s: string): (behind: string)
    ensures FirstCut(s) < |s| ==> |behind| < |s|
  {
    s[CutEnd(s)..]
  }

  lemma Pieces(s: string)
    ensures s == Before(s) + Cut(s) + Behind(s)
  {
  }

  /** `tail` is what a cut left of some secret: at least MIN_CUT_PREFIX characters of it. */
  ghost predicate CutTail(secrets: set<string>, tail: string) {
    |tail| >= MIN_CUT_PREFIX && exists w :: w in secrets && |w| > MIN_CUT_PREFIX && tail <= w
  }

  /** Where the longest such tail of `s` from `p` on starts, |s| where there is none. */
  ghost function FirstCutTail(secrets: set<string>, s: string, p: nat): (q: nat)
    requires p <= |s|
    ensures p <= q <= |s|
    ensures q < |s| <==> CutTail(secrets, s[q..])
    ensures forall j :: p <= j < q ==> !CutTail(secrets, s[j..])
    decreases |s| - p
  {
    if p == |s| || CutTail(secrets, s[p..]) then p else FirstCutTail(secrets, s, p + 1)
  }

  /** The text before a truncation marker, its longest cut secret masked. */
  ghost function TailMasked(secrets: set<string>, before: string): string {
    var p := FirstCutTail(secrets, before, 0);
    if p == |before| then before else before[..p] + MARK
  }

  /** The reference: every stretch before a truncation marker, searched at every position. */
  ghost function CutsMasked(secrets: set<string>, s: string): string
    decreases |s|
  {
    if FirstCut(s) == |s| then s
    else TailMasked(secrets, Before(s)) + Cut(s) + CutsMasked(secrets, Behind(s))
  }

  // ---------- what is asked of a text with cut secrets ----------

  predicate AreDigits(d: string) { d != "" && forall i :: 0 <= i < |d| ==> '0' <= d[i] <= '9' }

  /** A truncation marker: how many characters were left out, in words. */
  ghost predicate IsMarker(m: string) { exists d :: AreDigits(d) && m == CUT_HEAD + d + CUT_TAIL }

  ghost predicate MarkerAt(s: string, i: int, j: int) { 0 <= i <= j <= |s| && IsMarker(s[i..j]) }

  ghost predicate HasNoMarker(s: string) { forall i, j :: !MarkerAt(s, i, j) }

  /** A stretch of text and the truncation marker it ends at. */
  datatype Stretch = Stretch(before: string, marker: string)

  function Spliced(parts: seq<Stretch>, last: string): string {
    if parts == [] then last else parts[0].before + parts[0].marker + Spliced(parts[1..], last)
  }

  /** `s` cut at its truncation markers, found from the left. */
  ghost predicate CutsInto(s: string, parts: seq<Stretch>, last: string) {
    && s == Spliced(parts, last)
    && HasNoMarker(last)
    && forall i :: 0 <= i < |parts| ==> HasNoMarker(parts[i].before) && IsMarker(parts[i].marker)
  }

  /** No secret was cut at its end and `before` is kept; or the longest rest of one is masked and all before it kept. */
  ghost predicate IsTailMasked(secrets: set<string>, before: string, after: string) {
    || (NoTailUpTo(secrets, before, |before|) && after == before)
    || exists p: nat :: p < |before| && IsLongestTail(secrets, before, p) && after == before[..p] + MARK
  }

  /** None of the tails of `s` that start before `p` is what a cut left. */
  ghost predicate NoTailUpTo(secrets: set<string>, s: string, p: nat)
    requires p <= |s|
  {
    forall q :: 0 <= q < p ==> !CutTail(secrets, s[q..])
  }

  ghost predicate IsLongestTail(secrets: set<string>, s: string, p: nat)
    requires p <= |s|
  {
    CutTail(secrets, s[p..]) && NoTailUpTo(secrets, s, p)
  }

  ghost predicate AreTailsMasked(secrets: set<string>, parts: seq<Stretch>, out: seq<Stretch>) {
    && |out| == |parts|
    && forall i :: 0 <= i < |parts| ==>
         out[i].marker == parts[i].marker && IsTailMasked(secrets, parts[i].before, out[i].before)
  }

  /** Cut at its markers, the text has each stretch before one masked so; markers and the last stretch are kept. */
  ghost predicate IsCutMasked(secrets: set<string>, s: string, masked: string) {
    exists parts, out, last ::
      CutsInto(s, parts, last) && AreTailsMasked(secrets, parts, out) && masked == Spliced(out, last)
  }

  lemma {:induction false} DigitsAre(d: string, s: string)
    requires AreDigits(d) || d == ""
    requires s != "" && !('0' <= s[0] <= '9')
    ensures Digits(d + s) == |d|
  {
    if d == "" {
      assert d + s == s;
    } else {
      JoinedDrop(d, s, 1);
      DigitsAre(d[1..], s);
    }
  }

  lemma MarkerIsMeasured(d: string, s: string)
    requires AreDigits(d)
    ensures CutLength(CUT_HEAD + d + CUT_TAIL + s) == |CUT_HEAD + d + CUT_TAIL|
  {
    FourPieces(CUT_HEAD, d, CUT_TAIL, s);
    DigitsAre(d, CUT_TAIL + s);
  }

  lemma FourPieces(a: string, b: string, c: string, d: string)
    ensures a <= a + b + c + d && c <= c + d
    ensures (a + b + c + d)[|a|..] == b + (c + d)
    ensures (a + b + c + d)[|a| + |b|..] == c + d
  {
  }

  lemma MeasuredIsAMarker(s: string)
    requires CutLength(s) > 0
    ensures IsMarker(s[..CutLength(s)])
  {
    var h := |CUT_HEAD|;
    var n := Digits(s[h..]);
    var d := s[h..h + n];
    assert AreDigits(d) by {
      forall i | 0 <= i < n ensures '0' <= d[i] <= '9' {
        assert d[i] == s[h..][i];
      }
    }
    ThreeStretches(s, h, n, |CUT_TAIL|);
  }

  lemma ThreeStretches(s: string, a: nat, b: nat, c: nat)
    requires a + b + c <= |s|
    ensures s[..a + b + c] == s[..a] + s[a..a + b] + s[a + b..][..c]
  {
  }

  /** What is measured in front is the one marker there, whatever follows; 0 says there is none. */
  lemma CutLengthExactly(s: string, n: nat)
    requires n <= |s|
    ensures CutLength(s) == n > 0 <==> IsMarker(s[..n])
  {
    if CutLength(s) == n > 0 {
      MeasuredIsAMarker(s);
    }
    if d :| AreDigits(d) && s[..n] == CUT_HEAD + d + CUT_TAIL {
      MarkerIsMeasured(d, s[n..]);
      Rejoined(s, n);
    }
  }

  /** Where nothing is measured there is no marker, and the other way round. */
  lemma NoMarkerExactly(s: string, end: nat)
    requires end <= |s|
    ensures (forall j :: 0 <= j < end ==> CutLength(s[j..]) == 0) ==> HasNoMarker(s[..end])
    ensures HasNoMarker(s) ==> forall j :: 0 <= j < |s| ==> CutLength(s[j..]) == 0
  {
    if forall j :: 0 <= j < end ==> CutLength(s[j..]) == 0 {
      forall i, j | 0 <= i <= j <= end ensures !MarkerAt(s[..end], i, j) {
        assert s[..end][i..j] == s[i..][..j - i];
        CutLengthExactly(s[i..], j - i);
      }
    }
    if HasNoMarker(s) {
      forall j | 0 <= j < |s| ensures CutLength(s[j..]) == 0 {
        var n := CutLength(s[j..]);
        CutLengthExactly(s[j..], n);
        DropTake(s, j, n);
        assert !MarkerAt(s, j, j + n);
      }
    }
  }

  lemma HeadDots(s: string)
    requires CUT_HEAD <= s
    ensures s[0] == s[1] == s[2] == '.'
  {
    assert s[0] == CUT_HEAD[0] && s[1] == CUT_HEAD[1] && s[2] == CUT_HEAD[2];
  }

  /** The only dots of a truncation marker are its first three characters. */
  lemma CutHasNoMoreDots(s: string, k: nat)
    requires 3 <= k < CutLength(s)
    ensures s[k] != '.'
  {
    var h := |CUT_HEAD|;
    var d := Digits(s[h..]);
    if k < h {
      assert s[k] == s[..h][k] == CUT_HEAD[k];
    } else if k < h + d {
      assert s[k] == s[h..][k - h];
    } else {
      assert s[k] == s[h + d..][k - h - d] == CUT_TAIL[k - h - d];
    }
  }

  /** Past its first character a truncation marker starts no other. */
  lemma StartsOnce(s: string, k: nat)
    requires 1 <= k < CutLength(s)
    ensures CutLength(s[k..]) == 0
  {
    if CUT_HEAD <= s[k..] {
      HeadDots(s[k..]);
      if k >= 3 {
        CutHasNoMoreDots(s, k);
      } else {
        CutHasNoMoreDots(s, k + 2);
      }
    }
  }

  /** A marker that starts in `b` ends in it, where another follows. */
  lemma NoneReachesOver(b: string, behind: string, j: nat)
    requires j < |b| && CutLength(behind) > 0 && CutLength((b + behind)[j..]) > 0
    ensures CutLength(b[j..]) > 0
  {
    var s := (b + behind)[j..];
    JoinedDrop(b, behind, j);
    if CutLength(s) > |b[j..]| {
      JoinedDrop(b[j..], behind, |b[j..]|);
      assert behind == s[|b[j..]|..];
      StartsOnce(s, |b[j..]|);
    } else {
      JoinedTake(b[j..], behind, CutLength(s));
      CutLocal(s, b[j..]);
    }
  }

  /** A text that starts with a marker, behind one without: that marker is the first found. */
  lemma FoundBehind(b: string, m: string, r: string)
    requires HasNoMarker(b) && IsMarker(m)
    ensures FirstCut(b + m + r) == |b| < |b + m + r|
    ensures Before(b + m + r) == b && Cut(b + m + r) == m && Behind(b + m + r) == r
  {
    var s := b + m + r;
    Cuttings(b, m, r);
    MarkerInFront(m, r);
    NoMarkerExactly(b, |b|);
    forall j | 0 <= j < |b| ensures CutLength(s[j..]) == 0 {
      assert s == b + (m + r);
      if CutLength(s[j..]) > 0 {
        NoneReachesOver(b, m + r, j);
      }
    }
    FirstCutUnique(s, |b|);
  }

  lemma MarkerInFront(m: string, r: string)
    requires IsMarker(m)
    ensures CutLength(m + r) == |m| > 0
  {
    Cuttings("", m, r);
    assert "" + m + r == m + r && (m + r)[..|m|] == m;
    CutLengthExactly(m + r, |m|);
  }

  lemma TailMaskedExactly(secrets: set<string>, before: string, after: string)
    ensures IsTailMasked(secrets, before, after) <==> after == TailMasked(secrets, before)
  {
    var p := FirstCutTail(secrets, before, 0);
    if p < |before| {
      assert IsLongestTail(secrets, before, p);
    }
    if q: nat :| q < |before| && IsLongestTail(secrets, before, q) && after == before[..q] + MARK {
      assert q == p;
    }
  }

  lemma {:induction false} CutsMaskedInto(secrets: set<string>, s: string)
    returns (parts: seq<Stretch>, out: seq<Stretch>, last: string)
    ensures CutsInto(s, parts, last) && AreTailsMasked(secrets, parts, out)
    ensures CutsMasked(secrets, s) == Spliced(out, last)
    decreases |s|
  {
    FirstCutIsFirst(s);
    NoMarkerExactly(s, FirstCut(s));
    if FirstCut(s) == |s| {
      parts, out, last := [], [], s;
      assert s[..|s|] == s;
    } else {
      var more, shown;
      more, shown, last := CutsMaskedInto(secrets, Behind(s));
      var after := TailMasked(secrets, Before(s));
      TailMaskedExactly(secrets, Before(s), after);
      CutIsAMarker(s);
      Pieces(s);
      OnePartMore(secrets, Stretch(Before(s), Cut(s)), after, more, shown, last);
      parts, out := [Stretch(Before(s), Cut(s))] + more, [Stretch(after, Cut(s))] + shown;
    }
  }

  lemma OnePartMore(secrets: set<string>, part: Stretch, after: string, more: seq<Stretch>, shown: seq<Stretch>,
                    last: string)
    requires CutsInto(Spliced(more, last), more, last) && AreTailsMasked(secrets, more, shown)
    requires HasNoMarker(part.before) && IsMarker(part.marker) && IsTailMasked(secrets, part.before, after)
    ensures var parts, out := [part] + more, [Stretch(after, part.marker)] + shown;
            && CutsInto(part.before + part.marker + Spliced(more, last), parts, last)
            && AreTailsMasked(secrets, parts, out)
            && Spliced(out, last) == after + part.marker + Spliced(shown, last)
  {
    HeadAndTail(part, more);
    HeadAndTail(Stretch(after, part.marker), shown);
  }

  lemma CutIsAMarker(s: string)
    requires FirstCut(s) < |s|
    ensures IsMarker(Cut(s))
  {
    FirstCutIsFirst(s);
    CutIsMeasured(s);
    MeasuredIsAMarker(s[FirstCut(s)..]);
  }

  lemma CutIsMeasured(s: string)
    ensures Cut(s) == s[FirstCut(s)..][..CutLength(s[FirstCut(s)..])]
  {
    DropTake(s, FirstCut(s), CutLength(s[FirstCut(s)..]));
  }

  lemma {:induction false} OneCutMasked(secrets: set<string>, parts: seq<Stretch>, out: seq<Stretch>, last: string)
    requires CutsInto(Spliced(parts, last), parts, last) && AreTailsMasked(secrets, parts, out)
    ensures Spliced(out, last) == CutsMasked(secrets, Spliced(parts, last))
    decreases |parts|
  {
    if parts == [] {
      NoMarkerExactly(last, |last|);
      FirstCutUnique(last, |last|);
    } else {
      FoundBehind(parts[0].before, parts[0].marker, Spliced(parts[1..], last));
      TailMaskedExactly(secrets, parts[0].before, out[0].before);
      OneCutMasked(secrets, parts[1..], out[1..], last);
    }
  }

  /** The text with its cut secrets masked is that and nothing else. */
  lemma CutsMaskedExactly(secrets: set<string>, s: string, masked: string)
    ensures IsCutMasked(secrets, s, masked) <==> masked == CutsMasked(secrets, s)
  {
    var parts, out, last := CutsMaskedInto(secrets, s);
    if IsCutMasked(secrets, s, masked) {
      var a, b, c :| CutsInto(s, a, c) && AreTailsMasked(secrets, a, b) && masked == Spliced(b, c);
      OneCutMasked(secrets, a, b, c);
    }
  }

  // ---------- the index and the bounded search ----------

  /** Under each head of MIN_CUT_PREFIX characters, exactly the longer secrets that start with it. */
  ghost predicate Indexes(index: map<string, seq<string>>, secrets: set<string>) {
    && (forall head, w :: head in index && w in index[head] ==>
         w in secrets && |w| > MIN_CUT_PREFIX && w[..MIN_CUT_PREFIX] == head)
    && (forall w :: w in secrets && |w| > MIN_CUT_PREFIX ==>
         w[..MIN_CUT_PREFIX] in index && w in index[w[..MIN_CUT_PREFIX]])
  }

  method CutPrefixes(secrets: seq<string>) returns (index: map<string, seq<string>>)
    ensures Indexes(index, set w | w in secrets)
  {
    index := map[];
    ghost var filed: set<string> := {};
    for i := 0 to |secrets|
      invariant Indexes(index, filed) && Elements(secrets[..i], filed)
    {
      var secret := secrets[i];
      if |secret| > MIN_CUT_PREFIX {
        var head := secret[..MIN_CUT_PREFIX];
        var found := if head in index then index[head] else [];
        index := index[head := found + [secret]];
      }
      filed := filed + {secret};
      assert secrets[..i + 1] == secrets[..i] + [secret];
    }
    assert secrets[..|secrets|] == secrets;
    assert filed == set w | w in secrets;
  }

  method HasPrefix(secrets: seq<string>, tail: string) returns (found: bool)
    ensures found <==> exists i :: 0 <= i < |secrets| && tail <= secrets[i]
  {
    for i := 0 to |secrets|
      invariant forall j :: 0 <= j < i ==> !(tail <= secrets[j])
    {
      if tail <= secrets[i] { return true; }
    }
    return false;
  }

  /** `longest` bounds every secret that can be cut. */
  ghost predicate Bounds(longest: nat, secrets: set<string>) {
    forall w :: w in secrets && |w| > MIN_CUT_PREFIX ==> |w| <= longest
  }

  /** Whether a secret goes on from this tail, asked of those the index has under its head. */
  method Continues(tail: string, index: map<string, seq<string>>, ghost secrets: set<string>) returns (found: bool)
    requires Indexes(index, secrets) && |tail| >= MIN_CUT_PREFIX
    ensures found <==> CutTail(secrets, tail)
  {
    var head := tail[..MIN_CUT_PREFIX];
    found := HasPrefix(if head in index then index[head] else [], tail);
    TailByIndex(index, secrets, tail);
  }

  /** One stretch: only the last `longest` positions are tried, and only the secrets the index names. */
  method MaskTail(text: string, index: map<string, seq<string>>, longest: nat, ghost secrets: set<string>)
    returns (before: string)
    requires Indexes(index, secrets) && Bounds(longest, secrets)
    ensures IsTailMasked(secrets, text, before)
  {
    var window := if |text| > longest then |text| - longest else 0;
    var position := window;
    TooLong(secrets, text, longest);
    while position + MIN_CUT_PREFIX <= |text|
      invariant window <= position <= |text|
      invariant NoTailUpTo(secrets, text, position)
    {
      var found := Continues(text[position..], index, secrets);
      if found {
        assert IsLongestTail(secrets, text, position);
        return text[..position] + MARK;
      }
      position := position + 1;
    }
    TooShort(secrets, text, position);
    before := text;
  }

  lemma TooLong(secrets: set<string>, text: string, longest: nat)
    requires Bounds(longest, secrets)
    ensures NoTailUpTo(secrets, text, if |text| > longest then |text| - longest else 0)
  {
  }

  lemma TooShort(secrets: set<string>, text: string, position: nat)
    requires position <= |text| < position + MIN_CUT_PREFIX && NoTailUpTo(secrets, text, position)
    ensures NoTailUpTo(secrets, text, |text|)
  {
  }

  /** A tail is a cut secret exactly when one of the secrets filed under its head continues it. */
  lemma TailByIndex(index: map<string, seq<string>>, secrets: set<string>, tail: string)
    requires Indexes(index, secrets) && |tail| >= MIN_CUT_PREFIX
    ensures var heads := if tail[..MIN_CUT_PREFIX] in index then index[tail[..MIN_CUT_PREFIX]] else [];
            CutTail(secrets, tail) <==> exists i :: 0 <= i < |heads| && tail <= heads[i]
  {
    var head := tail[..MIN_CUT_PREFIX];
    var heads := if head in index then index[head] else [];
    if CutTail(secrets, tail) {
      var w :| w in secrets && |w| > MIN_CUT_PREFIX && tail <= w;
      assert w[..MIN_CUT_PREFIX] == head;
      assert w in heads;
    }
    if i :| 0 <= i < |heads| && tail <= heads[i] {
      assert heads[i] in index[head];
    }
  }

  method MaskCutPrefix(text: string, index: map<string, seq<string>>, longest: nat, ghost secrets: set<string>)
    returns (masked: string)
    requires Indexes(index, secrets) && Bounds(longest, secrets)
    ensures masked == CutsMasked(secrets, text) && IsCutMasked(secrets, text, masked)
  {
    CutsMaskedExactly(secrets, text, CutsMasked(secrets, text));
    if index == map[] || !Contains(text, CUT_HEAD) {
      NothingToCut(text, index, secrets);
      return text;
    }
    masked := "";
    var rest := text;
    while FirstCut(rest) < |rest|
      invariant CutsMasked(secrets, text) == masked + CutsMasked(secrets, rest)
      decreases |rest|
    {
      var before := MaskTail(Before(rest), index, longest, secrets);
      TailMaskedExactly(secrets, Before(rest), before);
      Appended(masked, before, Cut(rest), CutsMasked(secrets, Behind(rest)));
      masked := masked + before + Cut(rest);
      rest := Behind(rest);
    }
    masked := masked + rest;
  }

  lemma Appended(a: string, b: string, c: string, d: string)
    ensures a + (b + c + d) == a + b + c + d
  {
  }

  predicate Contains(text: string, part: string) {
    part <= text || (text != "" && Contains(text[1..], part))
  }

  lemma {:induction false} NoHeadNoCut(text: string)
    requires !Contains(text, CUT_HEAD)
    ensures FirstCut(text) == |text|
  {
    if text == "" {
    } else {
      NoHeadNoCut(text[1..]);
    }
  }

  /** The shortcut: without an indexed secret, or without a marker, the text stays as it is. */
  lemma {:induction false} NothingToCut(text: string, index: map<string, seq<string>>, secrets: set<string>)
    requires Indexes(index, secrets)
    requires index == map[] || !Contains(text, CUT_HEAD)
    ensures CutsMasked(secrets, text) == text
    decreases |text|
  {
    if index != map[] {
      NoHeadNoCut(text);
    } else if FirstCut(text) < |text| {
      assert FirstCutTail(secrets, Before(text), 0) == |Before(text)|;
      NothingToCut(Behind(text), index, secrets);
      Pieces(text);
    }
  }

  // ---------- what it keeps ----------

  lemma TailMaskedCovers(secrets: set<string>, before: string)
    ensures Covers(before, TailMasked(secrets, before))
  {
    CoversItself(before);
    var p := FirstCutTail(secrets, before, 0);
    if p < |before| {
      CoversItself(before[..p]);
      CoversWhole(before[p..]);
      CoversJoined(before[..p], before[..p], before[p..], MARK);
      assert before == before[..p] + before[p..];
    }
  }

  lemma {:induction false} CutsMaskedCovers(secrets: set<string>, s: string)
    ensures Covers(s, CutsMasked(secrets, s))
    decreases |s|
  {
    CoversItself(s);
    if FirstCut(s) >= |s| {
    } else {
      TailMaskedCovers(secrets, Before(s));
      CoversItself(Cut(s));
      CutsMaskedCovers(secrets, Behind(s));
      CoversJoined(Before(s), TailMasked(secrets, Before(s)), Cut(s), Cut(s));
      CoversJoined(Before(s) + Cut(s), TailMasked(secrets, Before(s)) + Cut(s),
                   Behind(s), CutsMasked(secrets, Behind(s)));
      Pieces(s);
    }
  }

  lemma {:induction false} DigitsLocal(s: string, t: string, n: nat)
    requires n <= |s| && n <= |t| && s[..n] == t[..n] && Digits(s) < n
    ensures Digits(t) == Digits(s)
  {
    if s != "" && '0' <= s[0] <= '9' {
      assert s[1..][..n - 1] == s[..n][1..] == t[..n][1..] == t[1..][..n - 1];
      assert s[0] == s[..n][0] == t[..n][0] == t[0];
      DigitsLocal(s[1..], t[1..], n - 1);
    } else {
      assert s[0] == s[..n][0] == t[..n][0] == t[0];
    }
  }

  /** A truncation marker is recognised by its own characters only. */
  lemma CutLocal(s: string, t: string)
    requires CutLength(s) > 0 && s[..CutLength(s)] <= t
    ensures CutLength(t) == CutLength(s)
  {
    var n := CutLength(s);
    var h := |CUT_HEAD|;
    var d := Digits(s[h..]);
    assert t[..n] == s[..n];
    SameStretch(s, t, n, 0, h);
    SameStretch(s, t, n, h, n);
    DropTake(s, h, n - h);
    DropTake(t, h, n - h);
    DigitsLocal(s[h..], t[h..], n - h);
    SameStretch(s, t, n, h + d, n);
    DropTake(s, h + d, |CUT_TAIL|);
    DropTake(t, h + d, |CUT_TAIL|);
  }

  lemma CutHasNoStar(s: string)
    ensures StarFree(s[..CutLength(s)])
  {
    var n := CutLength(s);
    if n > 0 {
      var h := |CUT_HEAD|;
      var d := Digits(s[h..]);
      assert s[..h] == CUT_HEAD && s[h + d..][..|CUT_TAIL|] == CUT_TAIL;
      forall i | 0 <= i < n ensures s[i] != '*' {
        if i < h {
          assert s[i] == CUT_HEAD[i];
        } else if i < h + d {
          assert s[i] == s[h..][i - h];
        } else {
          assert s[i] == CUT_TAIL[i - h - d];
        }
      }
    }
  }

  /** Masking neither makes nor stretches a truncation marker. */
  lemma CutWasThere(t: string, o: string)
    requires Covers(t, o) && CutLength(o) > 0
    ensures CutLength(t) == CutLength(o)
  {
    CutHasNoStar(o);
    StarFreeEndsApart(o[..CutLength(o)]);
    PrefixWasThere(t, o, o[..CutLength(o)]);
    CutLocal(o, t);
  }

  /** From any kept position on, the masked stretch stands for the stretch from there on. */
  lemma TailMaskedFrom(secrets: set<string>, before: string, j: nat)
    requires j <= FirstCutTail(secrets, before, 0)
    ensures j <= |TailMasked(secrets, before)|
    ensures Covers(before[j..], TailMasked(secrets, before)[j..])
  {
    var p := FirstCutTail(secrets, before, 0);
    CoversItself(before[j..p]);
    if p == |before| {
      assert before[j..p] == before[j..];
    } else {
      CoversWhole(before[p..]);
      CoversJoined(before[j..p], before[j..p], before[p..], MARK);
      SplitAt(before, j, p);
      JoinedDrop(before[..p], MARK, j);
    }
  }

  lemma SplitAt(s: string, j: nat, p: nat)
    requires j <= p <= |s|
    ensures s[j..] == s[j..p] + s[p..] && s[..p][j..] == s[j..p]
  {
  }

  /** A tail that ends in the marker is no prefix of a secret that holds none. */
  lemma MarkEndsNoCut(kept: string, j: nat, w: string)
    requires Apart(w) && j <= |kept + MARK|
    ensures !(|(kept + MARK)[j..]| >= MIN_CUT_PREFIX && (kept + MARK)[j..] <= w)
  {
    var tail := (kept + MARK)[j..];
    if |tail| >= MIN_CUT_PREFIX {
      var i := |tail| - 3;
      assert tail[i] == tail[i + 1] == tail[i + 2] == '*';
      assert !MarkAt(w, i);
    }
  }

  lemma TailMaskedAgain(secrets: set<string>, before: string)
    requires Plain(secrets)
    ensures TailMasked(secrets, TailMasked(secrets, before)) == TailMasked(secrets, before)
  {
    var p := FirstCutTail(secrets, before, 0);
    if p < |before| {
      var o := before[..p] + MARK;
      forall j | 0 <= j <= |o| ensures !CutTail(secrets, o[j..]) {
        forall w | w in secrets ensures !(|o[j..]| >= MIN_CUT_PREFIX && o[j..] <= w) {
          assert Apart(w);
          MarkEndsNoCut(before[..p], j, w);
        }
      }
      assert FirstCutTail(secrets, o, 0) == |o|;
    }
  }

  lemma Dropped(a: string, b: string, c: string, j: nat)
    requires j <= |a|
    ensures (a + b + c)[j..] == a[j..] + b + c
  {
  }

  lemma Cuttings(a: string, b: string, c: string)
    ensures (a + b + c)[..|a|] == a
    ensures (a + b + c)[|a|..] == b + c
    ensures (a + b + c)[|a|..|a| + |b|] == b
    ensures (a + b + c)[|a| + |b|..] == c
  {
  }

  /** The masked text from any kept position on stands for the text from there on. */
  lemma CutsMaskedFrom(secrets: set<string>, s: string, j: nat)
    requires FirstCut(s) < |s| && j <= FirstCutTail(secrets, Before(s), 0)
    ensures j <= |CutsMasked(secrets, s)|
    ensures Covers(s[j..], CutsMasked(secrets, s)[j..])
  {
    var b, c, d := Before(s), Cut(s), Behind(s);
    var t, r := TailMasked(secrets, b), CutsMasked(secrets, d);
    TailMaskedFrom(secrets, b, j);
    CoversItself(c);
    CutsMaskedCovers(secrets, d);
    CoversJoined(b[j..], t[j..], c, c);
    CoversJoined(b[j..] + c, t[j..] + c, d, r);
    Pieces(s);
    Dropped(b, c, d, j);
    Dropped(t, c, r, j);
  }

  lemma NoCutWithin(secrets: set<string>, s: string, j: nat)
    requires FirstCut(s) < |s| && j < |TailMasked(secrets, Before(s))|
    ensures j < |CutsMasked(secrets, s)| && CutLength(CutsMasked(secrets, s)[j..]) == 0
  {
    var t, o := TailMasked(secrets, Before(s)), CutsMasked(secrets, s);
    if j < FirstCutTail(secrets, Before(s), 0) {
      CutsMaskedFrom(secrets, s, j);
      FirstCutIsFirst(s);
      if CutLength(o[j..]) > 0 { CutWasThere(s[j..], o[j..]); }
    } else {
      assert o[j..][0] == o[j] == t[j] == '*';
      assert CUT_HEAD[0] == '.';
    }
  }

  /** The first truncation marker stays where the stretch before it now ends. */
  lemma FirstCutStays(secrets: set<string>, s: string)
    requires FirstCut(s) < |s|
    ensures FirstCut(CutsMasked(secrets, s)) == |TailMasked(secrets, Before(s))| < |CutsMasked(secrets, s)|
    ensures Before(CutsMasked(secrets, s)) == TailMasked(secrets, Before(s))
    ensures Cut(CutsMasked(secrets, s)) == Cut(s)
    ensures Behind(CutsMasked(secrets, s)) == CutsMasked(secrets, Behind(s))
  {
    var t, c, r := TailMasked(secrets, Before(s)), Cut(s), CutsMasked(secrets, Behind(s));
    Cuttings(t, c, r);
    CutAhead(s, r);
    forall j | 0 <= j < |t| ensures CutLength(CutsMasked(secrets, s)[j..]) == 0 {
      NoCutWithin(secrets, s, j);
    }
    FirstCutUnique(CutsMasked(secrets, s), |t|);
  }

  lemma CutAhead(s: string, r: string)
    requires FirstCut(s) < |s|
    ensures CutLength(Cut(s) + r) == |Cut(s)| > 0
  {
    FirstCutIsFirst(s);
    CutIsMeasured(s);
    CutLocal(s[FirstCut(s)..], Cut(s) + r);
  }

  lemma {:induction false} CutsMaskedAgain(secrets: set<string>, s: string)
    requires Plain(secrets)
    ensures CutsMasked(secrets, CutsMasked(secrets, s)) == CutsMasked(secrets, s)
    decreases |s|
  {
    if FirstCut(s) >= |s| {
    } else {
      FirstCutStays(secrets, s);
      TailMaskedAgain(secrets, Before(s));
      CutsMaskedAgain(secrets, Behind(s));
    }
  }

  /** In the masked text no cut secret is left before any truncation marker. */
  lemma NoCutSecretLeft(secrets: set<string>, s: string, masked: string, parts: seq<Stretch>, last: string,
                        i: nat, q: nat)
    requires Plain(secrets) && IsCutMasked(secrets, s, masked) && CutsInto(masked, parts, last)
    requires i < |parts| && q <= |parts[i].before|
    ensures !CutTail(secrets, parts[i].before[q..])
  {
    CutsMaskedExactly(secrets, s, masked);
    CutsMaskedAgain(secrets, s);
    OneWayToCut(masked, parts, last);
    EachStretchStays(secrets, masked, i);
    NoTailLeft(secrets, parts[i].before, q);
  }

  /** A text cut at its truncation markers as they are found. */
  function Stretches(s: string): seq<Stretch>
    decreases |s|
  {
    if FirstCut(s) == |s| then [] else [Stretch(Before(s), Cut(s))] + Stretches(Behind(s))
  }

  lemma FirstIsFound(s: string, parts: seq<Stretch>, last: string)
    requires parts != [] && CutsInto(s, parts, last)
    ensures FirstCut(s) < |s| && CutsInto(Behind(s), parts[1..], last)
    ensures parts == [Stretch(Before(s), Cut(s))] + parts[1..]
  {
    FoundBehind(parts[0].before, parts[0].marker, Spliced(parts[1..], last));
  }

  lemma {:induction false} OneWayToCut(s: string, parts: seq<Stretch>, last: string)
    requires CutsInto(s, parts, last)
    ensures parts == Stretches(s)
    decreases |parts|
  {
    if parts == [] {
      NoMarkerExactly(last, |last|);
      FirstCutUnique(last, |last|);
    } else {
      FirstIsFound(s, parts, last);
      OneWayToCut(Behind(s), parts[1..], last);
    }
  }

  /** In a text that stays as it is each stretch does. */
  lemma {:induction false} EachStretchStays(secrets: set<string>, s: string, i: nat)
    requires i < |Stretches(s)| && CutsMasked(secrets, s) == s
    ensures TailMasked(secrets, Stretches(s)[i].before) == Stretches(s)[i].before
    decreases |s|
  {
    FirstCutStays(secrets, s);
    HeadAndTail(Stretch(Before(s), Cut(s)), Stretches(Behind(s)));
    if i > 0 {
      EachStretchStays(secrets, Behind(s), i - 1);
    }
  }

  lemma NoTailLeft(secrets: set<string>, before: string, q: nat)
    requires TailMasked(secrets, before) == before && q <= |before|
    ensures !CutTail(secrets, before[q..])
  {
    TailMaskedExactly(secrets, before, before);
  }
}
