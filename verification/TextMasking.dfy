/**
  Masking one text: the leftmost scan for whole secrets, then the secrets a truncation
  cut short (logging/_secret_pattern.py, logging/masking.py).
*/
module TextMasking {
  import opened Sequences
  import opened Wrappers
  import opened SecretPattern

  /** What replaces a secret. */
  const MARK: string := "***"

  predicate StarFree(s: string) { '*' !in s }

  predicate MarkAt(s: string, i: int) {
    0 <= i && i + 2 < |s| && s[i] == '*' && s[i + 1] == '*' && s[i + 2] == '*'
  }

  /** `p` takes in no marker and does not end within one. */
  ghost predicate EndsApart(p: string) {
    (p != "" ==> p[|p| - 1] != '*') && forall i :: !MarkAt(p, i)
  }

  /** A secret that can hold no part of a marker: it neither starts nor ends with `*` nor has `***` in it. */
  ghost predicate Apart(w: string) { w != "" && w[0] != '*' && EndsApart(w) }

  ghost predicate Plain(secrets: set<string>) {
    forall w :: w in secrets ==> Apart(w)
  }

  ghost predicate NoneAt(secrets: set<string>, t: string) {
    forall w :: w in secrets ==> !(w <= t)
  }

  /** No secret occurs anywhere in `t`. */
  ghost predicate Free(secrets: set<string>, t: string) {
    forall i :: 0 <= i <= |t| ==> NoneAt(secrets, t[i..])
  }

  lemma FreeSplits(secrets: set<string>, t: string)
    requires t != ""
    ensures Free(secrets, t) <==> NoneAt(secrets, t) && Free(secrets, t[1..])
  {
    assert t[0..] == t;
    forall i | 0 <= i < |t| ensures t[1..][i..] == t[i + 1..] {
    }
    if NoneAt(secrets, t) && Free(secrets, t[1..]) {
      forall i | 0 <= i <= |t| ensures NoneAt(secrets, t[i..]) {
        if i > 0 { assert t[1..][i - 1..] == t[i..]; }
      }
    }
    if Free(secrets, t) {
      forall i | 0 <= i <= |t[1..]| ensures NoneAt(secrets, t[1..][i..]) {
        assert t[1..][i..] == t[i + 1..];
      }
    }
  }

  /** `o` is `t` with some non-empty stretches replaced by the marker, and nothing else changed. */
  ghost predicate Covers(t: string, o: string)
    decreases |o|
  {
    || (t == "" && o == "")
    || (t != "" && o != "" && t[0] == o[0] && Covers(t[1..], o[1..]))
    || (MARK <= o && exists n :: 0 < n <= |t| && Covers(t[n..], o[|MARK|..]))
  }

  lemma {:induction false} CoversItself(t: string)
    ensures Covers(t, t)
  {
    if t == "" {
    } else {
      CoversItself(t[1..]);
    }
  }

  lemma CoversWhole(t: string)
    requires t != ""
    ensures Covers(t, MARK)
  {
    assert t[|t|..] == "" && MARK[|MARK|..] == "";
    assert Covers(t[|t|..], MARK[|MARK|..]);
  }

  lemma CoversSame(t: string, o: string)
    requires t != "" && o != "" && t[0] == o[0] && Covers(t[1..], o[1..])
    ensures Covers(t, o)
  {
  }

  lemma CoversMarked(t: string, o: string, n: nat)
    requires MARK <= o && 0 < n <= |t| && Covers(t[n..], o[|MARK|..])
    ensures Covers(t, o)
  {
  }

  lemma {:induction false} CoversJoined(t: string, o: string, t': string, o': string)
    requires Covers(t, o) && Covers(t', o')
    ensures Covers(t + t', o + o')
    decreases |o|
  {
    if t == "" && o == "" {
      assert t + t' == t' && o + o' == o';
    } else if t != "" && o != "" && t[0] == o[0] && Covers(t[1..], o[1..]) {
      CoversJoined(t[1..], o[1..], t', o');
      JoinedDrop(t, t', 1);
      JoinedDrop(o, o', 1);
      CoversSame(t + t', o + o');
    } else {
      var n :| 0 < n <= |t| && Covers(t[n..], o[|MARK|..]);
      CoversJoined(t[n..], o[|MARK|..], t', o');
      JoinedDrop(t, t', n);
      JoinedDrop(o, o', |MARK|);
      CoversMarked(t + t', o + o', n);
    }
  }

  /** Text that ends apart from the markers is never made up by masking. */
  lemma {:induction false} PrefixWasThere(t: string, o: string, p: string)
    requires Covers(t, o) && p <= o && EndsApart(p)
    ensures p <= t
    decreases |o|
  {
    if p == "" {
    } else {
      if MARK <= o {
        NoMarkAhead(o, p);
      }
      assert t != "" && t[0] == o[0] && Covers(t[1..], o[1..]);
      RestEndsApart(p);
      PrefixWasThere(t[1..], o[1..], p[1..]);
      assert p == [p[0]] + p[1..] && t == [t[0]] + t[1..];
    }
  }

  lemma NoMarkAhead(o: string, p: string)
    requires p != "" && p <= o && EndsApart(p)
    ensures !(MARK <= o)
  {
    assert !MarkAt(p, 0);
  }

  lemma RestEndsApart(p: string)
    requires p != "" && EndsApart(p)
    ensures EndsApart(p[1..])
  {
    forall i ensures !MarkAt(p[1..], i) {
      assert !MarkAt(p, i + 1);
    }
  }

  lemma StarFreeEndsApart(p: string)
    requires StarFree(p)
    ensures EndsApart(p)
  {
  }

  lemma StarStartsNoSecret(secrets: set<string>, o: string)
    requires Plain(secrets) && (o == "" || o[0] == '*')
    ensures NoneAt(secrets, o)
  {
    forall w | w in secrets ensures !(w <= o) {
      assert Apart(w);
    }
  }

  lemma AfterMarkFree(secrets: set<string>, o: string)
    requires Plain(secrets) && MARK <= o && Free(secrets, o[|MARK|..])
    ensures Free(secrets, o)
  {
    assert o[2..][1..] == o[3..] && o[1..][1..] == o[2..];
    StarStartsNoSecret(secrets, o[2..]);
    FreeSplits(secrets, o[2..]);
    StarStartsNoSecret(secrets, o[1..]);
    FreeSplits(secrets, o[1..]);
    StarStartsNoSecret(secrets, o);
    FreeSplits(secrets, o);
  }

  /** Masking more of a text that holds no secret does not make one. */
  lemma {:induction false} CoveredStaysFree(secrets: set<string>, t: string, o: string)
    requires Plain(secrets) && Covers(t, o) && Free(secrets, t)
    ensures Free(secrets, o)
    decreases |o|
  {
    if o == "" {
      StarStartsNoSecret(secrets, o);
    } else if t != "" && t[0] == o[0] && Covers(t[1..], o[1..]) {
      FreeSplits(secrets, t);
      CoveredStaysFree(secrets, t[1..], o[1..]);
      forall w | w in secrets ensures !(w <= o) {
        if w <= o {
          assert Apart(w);
          PrefixWasThere(t, o, w);
        }
      }
      FreeSplits(secrets, o);
    } else {
      var n :| 0 < n <= |t| && Covers(t[n..], o[|MARK|..]);
      forall i | 0 <= i <= |t[n..]| ensures NoneAt(secrets, t[n..][i..]) {
        assert t[n..][i..] == t[n + i..];
      }
      CoveredStaysFree(secrets, t[n..], o[|MARK|..]);
      AfterMarkFree(secrets, o);
    }
  }

  // ---------- the scan for whole secrets ----------

  /** The length of the longest secret at the front of `s`, 0 where none starts. */
  ghost function LongestAt(secrets: set<string>, s: string): (n: nat)
    requires "" !in secrets
    ensures n <= |s|
    ensures n == 0 <==> NoneAt(secrets, s)
    ensures n > 0 ==> LongestSecret(secrets, s, n)
  {
    FirstLengthIsLongest(secrets, s, |s|);
    assert s[..0] == "";
    assert forall w :: w in secrets && w <= s ==> s[..|w|] == w;
    var found := SecretLengths(secrets, s, |s|);
    if found == [] then 0 else assert s[..found[0]] <= s; found[0]
  }

  /** The reference scan: from the left, the longest secret at each position masked. */
  ghost function SecretsMasked(secrets: set<string>, s: string): string
    requires "" !in secrets
    decreases |s|
  {
    if s == "" then ""
    else if LongestAt(secrets, s) == 0 then [s[0]] + SecretsMasked(secrets, s[1..])
    else MARK + SecretsMasked(secrets, s[LongestAt(secrets, s)..])
  }

  // ---------- what is asked of the scan ----------

  /** A stretch of text and the secret it is followed by. */
  datatype Piece = Piece(kept: string, secret: string)

  /** No secret starts at any of the first `n` positions. */
  ghost predicate NoneStarts(secrets: set<string>, s: string, n: nat)
    requires n <= |s|
  {
    forall i :: 0 <= i < n ==> NoneAt(secrets, s[i..])
  }

  /** The longest secret at the front of `s`. */
  ghost predicate IsLongest(secrets: set<string>, s: string, w: string) {
    w in secrets && w <= s && forall x :: x in secrets && x <= s ==> |x| <= |w|
  }

  /** `s` cut at its secrets: each time at the first position where one starts, and at the longest there. */
  ghost predicate CutsAtSecrets(secrets: set<string>, s: string, pieces: seq<Piece>, last: string)
    decreases |pieces|
  {
    if pieces == [] then s == last && NoneStarts(secrets, s, |s|)
    else
      var kept, secret := pieces[0].kept, pieces[0].secret;
      && kept <= s
      && NoneStarts(secrets, s, |kept|)
      && IsLongest(secrets, s[|kept|..], secret)
      && CutsAtSecrets(secrets, s[|kept|..][|secret|..], pieces[1..], last)
  }

  function WithMarks(pieces: seq<Piece>, last: string): string {
    if pieces == [] then last else pieces[0].kept + MARK + WithMarks(pieces[1..], last)
  }

  /** Cut at its secrets, the text with each of them replaced by the marker and all else kept. */
  ghost predicate IsScanned(secrets: set<string>, s: string, out: string) {
    exists pieces, last :: CutsAtSecrets(secrets, s, pieces, last) && out == WithMarks(pieces, last)
  }

  lemma NoneStartsSplits(secrets: set<string>, s: string, n: nat)
    requires s != "" && 0 < n <= |s|
    ensures NoneStarts(secrets, s, n) <==> NoneAt(secrets, s) && NoneStarts(secrets, s[1..], n - 1)
  {
    assert s[0..] == s;
    forall i | 0 <= i < n - 1 ensures s[1..][i..] == s[i + 1..] {
    }
    if NoneAt(secrets, s) && NoneStarts(secrets, s[1..], n - 1) {
      forall i | 0 <= i < n ensures NoneAt(secrets, s[i..]) {
        if i > 0 { assert NoneAt(secrets, s[1..][i - 1..]); }
      }
    }
    if NoneStarts(secrets, s, n) {
      forall i | 0 <= i < n - 1 ensures NoneAt(secrets, s[1..][i..]) {
        assert NoneAt(secrets, s[i + 1..]);
      }
    }
  }

  /** Where no secret starts the scan keeps what is there. */
  lemma {:induction false} ScanKeeps(secrets: set<string>, s: string, n: nat)
    requires "" !in secrets && n <= |s| && NoneStarts(secrets, s, n)
    ensures SecretsMasked(secrets, s) == s[..n] + SecretsMasked(secrets, s[n..])
  {
    if n == 0 {
      assert s[0..] == s;
    } else {
      NoneStartsSplits(secrets, s, n);
      ScanKeeps(secrets, s[1..], n - 1);
      DropDrop(s, 1, n - 1);
      assert s[..n] == [s[0]] + s[1..][..n - 1];
      Associates([s[0]], s[1..][..n - 1], SecretsMasked(secrets, s[n..]));
    }
  }

  lemma LongestIsMasked(secrets: set<string>, s: string, w: string)
    requires "" !in secrets && IsLongest(secrets, s, w)
    ensures SecretsMasked(secrets, s) == MARK + SecretsMasked(secrets, s[|w|..])
  {
    LongestIs(secrets, s, w);
    assert s != "";
  }

  lemma LongestIs(secrets: set<string>, s: string, w: string)
    requires "" !in secrets && IsLongest(secrets, s, w)
    ensures LongestAt(secrets, s) == |w| > 0
  {
    var n := LongestAt(secrets, s);
    assert !NoneAt(secrets, s);
    assert s[..|w|] == w && s[..n] <= s && |s[..n]| == n;
  }

  lemma {:induction false} OneScan(secrets: set<string>, s: string, pieces: seq<Piece>, last: string)
    requires "" !in secrets && CutsAtSecrets(secrets, s, pieces, last)
    ensures WithMarks(pieces, last) == SecretsMasked(secrets, s)
    decreases |pieces|
  {
    if pieces == [] {
      ScanKeeps(secrets, s, |s|);
      assert s[..|s|] == s && s[|s|..] == "";
    } else {
      var kept, secret := pieces[0].kept, pieces[0].secret;
      ScanKeeps(secrets, s, |kept|);
      LongestIsMasked(secrets, s[|kept|..], secret);
      OneScan(secrets, s[|kept|..][|secret|..], pieces[1..], last);
      assert s[..|kept|] == kept;
      Associates(kept, MARK, WithMarks(pieces[1..], last));
    }
  }

  lemma {:induction false} FirstSecret(secrets: set<string>, s: string) returns (n: nat)
    ensures n <= |s| && NoneStarts(secrets, s, n) && (n < |s| ==> !NoneAt(secrets, s[n..]))
  {
    if s == "" || !NoneAt(secrets, s) {
      n := 0;
      assert s[0..] == s;
    } else {
      n := FirstSecret(secrets, s[1..]);
      if n < |s[1..]| { DropDrop(s, 1, n); }
      n := n + 1;
      NoneStartsSplits(secrets, s, n);
    }
  }

  lemma {:induction false} CutAtSecrets(secrets: set<string>, s: string) returns (pieces: seq<Piece>, last: string)
    requires "" !in secrets
    ensures CutsAtSecrets(secrets, s, pieces, last)
    decreases |s|
  {
    var n := FirstSecret(secrets, s);
    if n == |s| {
      pieces, last := [], s;
    } else {
      var w := s[n..][..LongestAt(secrets, s[n..])];
      LongestIsLongest(secrets, s[n..]);
      LongestIs(secrets, s[n..], w);
      var more;
      more, last := CutAtSecrets(secrets, s[n..][|w|..]);
      PieceInFront(secrets, s, n, w, more, last);
      pieces := [Piece(s[..n], w)] + more;
    }
  }

  lemma PieceInFront(secrets: set<string>, s: string, n: nat, w: string, more: seq<Piece>, last: string)
    requires n <= |s| && NoneStarts(secrets, s, n) && IsLongest(secrets, s[n..], w)
    requires CutsAtSecrets(secrets, s[n..][|w|..], more, last)
    ensures CutsAtSecrets(secrets, s, [Piece(s[..n], w)] + more, last)
  {
    HeadAndTail(Piece(s[..n], w), more);
    assert s[..n] <= s && |s[..n]| == n;
  }

  lemma LongestIsLongest(secrets: set<string>, s: string)
    requires "" !in secrets && !NoneAt(secrets, s)
    ensures IsLongest(secrets, s, s[..LongestAt(secrets, s)])
  {
    forall x | x in secrets && x <= s ensures |x| <= LongestAt(secrets, s) {
      assert s[..|x|] == x;
    }
  }

  /** The scan is the one text that is asked for. */
  lemma ScannedExactly(secrets: set<string>, s: string, out: string)
    requires "" !in secrets
    ensures IsScanned(secrets, s, out) <==> out == SecretsMasked(secrets, s)
  {
    var pieces, last := CutAtSecrets(secrets, s);
    OneScan(secrets, s, pieces, last);
    if IsScanned(secrets, s, out) {
      var others, end :| CutsAtSecrets(secrets, s, others, end) && out == WithMarks(others, end);
      OneScan(secrets, s, others, end);
    }
  }

  /** What the engine's substitution does with a compiled pattern that matches no empty text. */
  function Substitute(r: Regex, s: string): string
    requires NeverEmpty(r)
    decreases |s|
  {
    if s == "" then ""
    else
      match MatchAt(r, s)
      case Some(n) => MARK + Substitute(r, s[n..])
      case None => [s[0]] + Substitute(r, s[1..])
  }

  ghost predicate NeverEmpty(r: Regex) { forall s :: MatchAt(r, s) != Some(0) }

  lemma {:induction false} SubstituteMasksSecrets(r: Regex, secrets: set<string>, s: string)
    requires Recognises(r, secrets) && "" !in secrets
    ensures NeverEmpty(r) && Substitute(r, s) == SecretsMasked(secrets, s)
    ensures IsScanned(secrets, s, Substitute(r, s))
    decreases |s|
  {
    ScannedExactly(secrets, s, SecretsMasked(secrets, s));
    MatchesNothingEmpty(r, secrets);
    if s == "" {
    } else {
      MatchIsLongestAt(r, secrets, s);
      var n := LongestAt(secrets, s);
      SubstituteMasksSecrets(r, secrets, if n == 0 then s[1..] else s[n..]);
    }
  }

  lemma MatchIsLongestAt(r: Regex, secrets: set<string>, s: string)
    requires Recognises(r, secrets) && "" !in secrets
    ensures MatchAt(r, s) == if LongestAt(secrets, s) == 0 then None else Some(LongestAt(secrets, s))
  {
    MatchIsLongestSecret(r, secrets, s);
  }

  lemma MatchesNothingEmpty(r: Regex, secrets: set<string>)
    requires Recognises(r, secrets) && "" !in secrets
    ensures NeverEmpty(r)
  {
    forall s ensures MatchAt(r, s) != Some(0) {
      MatchIsLongestAt(r, secrets, s);
    }
  }

  lemma {:induction false} SecretsMaskedCovers(secrets: set<string>, s: string)
    requires "" !in secrets
    ensures Covers(s, SecretsMasked(secrets, s))
    decreases |s|
  {
    if s == "" {
    } else {
      var n := LongestAt(secrets, s);
      if n == 0 {
        SecretsMaskedCovers(secrets, s[1..]);
      } else {
        SecretsMaskedCovers(secrets, s[n..]);
        CoversWhole(s[..n]);
        CoversJoined(s[..n], MARK, s[n..], SecretsMasked(secrets, s[n..]));
        Rejoined(s, n);
      }
    }
  }

  /** The scan leaves no secret behind and the marker completes none. */
  lemma {:induction false} SecretsMaskedIsFree(secrets: set<string>, s: string)
    requires Plain(secrets)
    ensures Free(secrets, SecretsMasked(secrets, s))
    decreases |s|
  {
    var o := SecretsMasked(secrets, s);
    if s == "" {
      StarStartsNoSecret(secrets, o);
    } else if LongestAt(secrets, s) == 0 {
      SecretsMaskedIsFree(secrets, s[1..]);
      SecretsMaskedCovers(secrets, s);
      forall w | w in secrets ensures !(w <= o) {
        if w <= o {
          assert Apart(w);
          PrefixWasThere(s, o, w);
        }
      }
      assert o[1..] == SecretsMasked(secrets, s[1..]);
      FreeSplits(secrets, o);
    } else {
      var n := LongestAt(secrets, s);
      SecretsMaskedIsFree(secrets, s[n..]);
      assert o[|MARK|..] == SecretsMasked(secrets, s[n..]);
      AfterMarkFree(secrets, o);
    }
  }

  /** The scan finds nothing in a text without secrets. */
  lemma {:induction false} FreeStays(secrets: set<string>, s: string)
    requires "" !in secrets && Free(secrets, s)
    ensures SecretsMasked(secrets, s) == s
    decreases |s|
  {
    if s == "" {
    } else {
      FreeSplits(secrets, s);
      FreeStays(secrets, s[1..]);
    }
  }

  // ---------- exactly the secrets the scan takes out of every text ----------

  /** Scanned for `w`, the text `s` becomes `o`, which still holds `w` and is made of `w` and markers. */
  ghost predicate Shows(w: string, s: string, o: string)
    requires w != ""
  {
    SecretsMasked({w}, s) == o && !Free({w}, o) && Covers(w, o)
  }

  /** A text shorter than the one secret is left as it is. */
  lemma {:induction false} TooShortToMask(w: string, s: string)
    requires w != "" && |s| < |w|
    ensures SecretsMasked({w}, s) == s
  {
    forall i | 0 <= i <= |s| ensures NoneAt({w}, s[i..]) {
    }
    FreeStays({w}, s);
  }

  /** The scan for one secret. */
  ghost function OneMasked(w: string, s: string): string
    requires w != ""
    decreases |s|
  {
    if s == "" then ""
    else if w <= s then MARK + OneMasked(w, s[|w|..])
    else [s[0]] + OneMasked(w, s[1..])
  }

  lemma {:induction false} OneMaskedIsTheScan(w: string, s: string)
    requires w != ""
    ensures SecretsMasked({w}, s) == OneMasked(w, s)
    decreases |s|
  {
    if s == "" {
    } else {
      if w <= s {
        assert w in {w};
        assert LongestAt({w}, s) == |w|;
        OneMaskedIsTheScan(w, s[|w|..]);
      } else {
        assert NoneAt({w}, s);
        OneMaskedIsTheScan(w, s[1..]);
      }
    }
  }

  /** Up to a place where the secret does not stand, the scan keeps the text. */
  lemma {:induction false} KeptUpTo(w: string, s: string, n: nat, k: nat, rest: string)
    requires w != "" && k <= n <= |s| && forall i :: k <= i < n ==> !(w <= s[i..])
    requires OneMasked(w, s[n..]) == rest
    ensures OneMasked(w, s[k..]) == s[k..n] + rest
    decreases n - k
  {
    if k >= n {
    } else {
      KeptUpTo(w, s, n, k + 1, rest);
      DropDrop(s, k, 1);
      assert OneMasked(w, s[k..]) == [s[k]] + (s[k + 1..n] + rest);
    }
    FrontAgain(s, n, k, rest);
  }

  lemma FrontAgain(s: string, n: nat, k: nat, rest: string)
    requires k <= n <= |s|
    ensures s[k..n] + rest == if k == n then rest else [s[k]] + (s[k + 1..n] + rest)
  {
  }

  lemma MaskedThere(w: string, s: string)
    requires w != "" && w <= s
    ensures OneMasked(w, s) == MARK + OneMasked(w, s[|w|..])
  {
  }

  /** The secret found at `n` first: what is before it, the marker, and the rest masked. */
  lemma MaskedAt(w: string, s: string, n: nat, rest: string)
    requires w != "" && n < |s| && w <= s[n..] && forall i :: 0 <= i < n ==> !(w <= s[i..])
    requires s[n..] == w + rest && |rest| < |w|
    ensures SecretsMasked({w}, s[0..]) == s[0..n] + (MARK + rest)
  {
    assert (w + rest)[|w|..] == rest;
    MaskedThere(w, s[n..]);
    OneMaskedIsTheScan(w, rest);
    TooShortToMask(w, rest);
    KeptUpTo(w, s, n, 0, MARK + rest);
    OneMaskedIsTheScan(w, s[0..]);
  }

  lemma SecretAt(secrets: set<string>, w: string, s: string, i: nat)
    requires w in secrets && i <= |s| && w <= s[i..]
    ensures !Free(secrets, s)
  {
  }

  lemma StartingWithAStarShows(w: string)
    requires w != "" && w[0] == '*'
    ensures Shows(w, (w + w[1..])[0..], (w + w[1..])[0..0] + (MARK + w[1..]))
  {
    var s := w + w[1..];
    assert s[0..] == s;
    MaskedAt(w, s, 0, w[1..]);
    StartOfMark(s, w);
    SecretAt({w}, w, s[0..0] + (MARK + w[1..]), 2);
    StartCovers(s, w);
  }

  lemma StartCovers(s: string, w: string)
    requires w != ""
    ensures Covers(w, s[0..0] + (MARK + w[1..]))
  {
    var o := s[0..0] + (MARK + w[1..]);
    assert o[|MARK|..] == w[1..] && o[..|MARK|] == MARK;
    CoversItself(w[1..]);
    CoversMarked(w, o, 1);
  }

  lemma StartOfMark(s: string, w: string)
    requires w != "" && w[0] == '*'
    ensures var o := s[0..0] + (MARK + w[1..]);
            |o| >= 2 && w <= o[2..]
  {
    assert (s[0..0] + (MARK + w[1..]))[2..] == w;
  }

  lemma EndingWithAStarShows(w: string)
    requires w != "" && w[0] != '*' && w[|w| - 1] == '*'
    ensures Shows(w, (w[..|w| - 1] + w)[0..], w[..|w| - 1] + (MARK + ""))
  {
    var n := |w| - 1;
    var s := w[..n] + w;
    forall k | 0 <= k < n ensures !(w <= s[k..]) {
      assert s[k] == w[k] == s[k + n];
    }
    assert s[n..] == w + "" && s[0..n] == w[..n];
    MaskedAt(w, s, n, "");
    EndOfMark(w);
    SecretAt({w}, w, w[..n] + (MARK + ""), 0);
    EndCovers(w);
  }

  lemma EndCovers(w: string)
    requires w != ""
    ensures Covers(w, w[..|w| - 1] + (MARK + ""))
  {
    var n := |w| - 1;
    assert MARK + "" == MARK;
    CoversItself(w[..n]);
    CoversWhole(w[n..]);
    CoversJoined(w[..n], w[..n], w[n..], MARK);
    Rejoined(w, n);
  }

  lemma EndOfMark(w: string)
    requires w != "" && w[|w| - 1] == '*'
    ensures var o := w[..|w| - 1] + (MARK + "");
            w <= o && o[0..] == o
  {
  }

  ghost predicate IsFirstMark(w: string, p: int) { MarkAt(w, p) && forall k :: 0 <= k < p ==> !MarkAt(w, k) }

  /** The first place a marker stands in `w`. */
  lemma {:induction false} FirstMark(w: string, i: nat) returns (p: nat)
    requires MarkAt(w, i)
    ensures IsFirstMark(w, p)
  {
    if k :| 0 <= k < i && MarkAt(w, k) {
      p := FirstMark(w, k);
    } else {
      p := i;
    }
  }

  lemma HasFirstMark(w: string)
    requires w != "" && !Apart(w) && w[0] != '*' && w[|w| - 1] != '*'
    ensures exists p :: IsFirstMark(w, p)
  {
    var i :| MarkAt(w, i);
    var p := FirstMark(w, i);
  }

  lemma HoldingAMarkShows(w: string, p: nat)
    requires w != "" && w[0] != '*' && MarkAt(w, p) && forall k :: 0 <= k < p ==> !MarkAt(w, k)
    ensures Shows(w, (w[..p] + w + w[p + 3..])[0..], w)
  {
    var u, v := w[..p], w[p + 3..];
    var s := u + w + v;
    forall k | 0 <= k < p ensures !(w <= s[k..]) {
      NoneBefore(w, p, s, k);
    }
    assert s[p..] == w + v && s[0..p] == u;
    MaskedAt(w, s, p, v);
    AroundItsMark(w, p);
    assert w[0..] == w;
    SecretAt({w}, w, w, 0);
    CoversItself(w);
  }

  lemma AroundItsMark(w: string, p: nat)
    requires MarkAt(w, p)
    ensures w[..p] + (MARK + w[p + 3..]) == w
  {
    assert w[p..p + 3] == MARK;
  }

  /** Behind what is before its first marker, a secret does not start earlier. */
  lemma NoneBefore(w: string, p: nat, s: string, k: nat)
    requires MarkAt(w, p) && (forall i :: 0 <= i < p ==> !MarkAt(w, i)) && k < p
    requires w[0] != '*' && w[..p] + w <= s
    ensures !(w <= s[k..])
  {
    assert !MarkAt(w, k) && (k > 0 ==> !MarkAt(w, k - 1));
    var t := w[..p] + w;
    assert s[k + p] == t[k + p] == w[k] && s[k + p + 1] == t[k + p + 1] == w[k + 1]
      && s[k + p + 2] == t[k + p + 2] == w[k + 2];
  }

  /** For a secret that can hold a part of a marker, a text it is still there in once that is scanned. */
  ghost function ShowingText(w: string): string
    requires w != "" && !Apart(w)
  {
    if w[0] == '*' then w + w[1..]
    else if w[|w| - 1] == '*' then w[..|w| - 1] + w
    else
      HasFirstMark(w);
      var p :| IsFirstMark(w, p);
      w[..p] + w + w[p + 3..]
  }

  lemma SomeTextShows(w: string) returns (o: string)
    requires w != "" && !Apart(w)
    ensures Shows(w, ShowingText(w), o)
  {
    var s := ShowingText(w);
    assert s[0..] == s;
    if w[0] == '*' {
      StartingWithAStarShows(w);
      o := s[0..0] + (MARK + w[1..]);
    } else if w[|w| - 1] == '*' {
      EndingWithAStarShows(w);
      o := w[..|w| - 1] + (MARK + "");
    } else {
      HasFirstMark(w);
      var p :| IsFirstMark(w, p) && s == w[..p] + w + w[p + 3..];
      HoldingAMarkShows(w, p);
      o := w;
    }
  }

  /** The scan takes one secret out of every text exactly when it can hold no part of a marker. */
  lemma ScannedCleanExactly(w: string)
    requires w != ""
    ensures (forall s :: Free({w}, SecretsMasked({w}, s))) <==> Apart(w)
  {
    if Apart(w) {
      forall s ensures Free({w}, SecretsMasked({w}, s)) {
        SecretsMaskedIsFree({w}, s);
      }
    } else {
      var o := SomeTextShows(w);
      assert !Free({w}, SecretsMasked({w}, ShowingText(w)));
    }
  }

  // ---------- a secret among others ----------

  /** In a text that no other secret occurs in, the scan for all is the scan for one. */
  lemma {:induction false} OthersAbsent(secrets: set<string>, w: string, s: string)
    requires "" !in secrets && w in secrets && Free(secrets - {w}, s)
    ensures SecretsMasked(secrets, s) == SecretsMasked({w}, s)
    decreases |s|
  {
    if s == "" {
    } else {
      OthersAbsentHere(secrets, w, s);
      var n := LongestAt(secrets, s);
      if n == 0 {
        FreeSplits(secrets - {w}, s);
        OthersAbsent(secrets, w, s[1..]);
      } else {
        FreeBehind(secrets - {w}, s, n);
        OthersAbsent(secrets, w, s[n..]);
      }
    }
  }

  lemma OthersAbsentHere(secrets: set<string>, w: string, s: string)
    requires "" !in secrets && w in secrets && s != "" && Free(secrets - {w}, s)
    ensures LongestAt(secrets, s) == LongestAt({w}, s)
  {
    FreeSplits(secrets - {w}, s);
    forall u | u in secrets && u <= s ensures u == w {
      assert u != w ==> u in secrets - {w};
    }
  }

  lemma FreeBehind(secrets: set<string>, s: string, n: nat)
    requires Free(secrets, s) && n <= |s|
    ensures Free(secrets, s[n..])
  {
    forall i | 0 <= i <= |s[n..]| ensures NoneAt(secrets, s[n..][i..]) {
      assert s[n..][i..] == s[n + i..];
    }
  }

  lemma MoreIsNotFree(w: string, secrets: set<string>, t: string)
    requires w in secrets && !Free({w}, t)
    ensures !Free(secrets, t)
  {
    var i :| 0 <= i <= |t| && !NoneAt({w}, t[i..]);
  }

  /** Where a secret is the marker and more, masking what stands before that more spells it. */
  lemma MarkSpells(secrets: set<string>, u: string, v: string)
    requires "" !in secrets && u in secrets && MARK + v in secrets && |v| < |u| && Free(secrets - {u}, u + v)
    ensures SecretsMasked(secrets, u + v) == MARK + v && !Free(secrets, MARK + v)
  {
    var s := u + v;
    OthersAbsent(secrets, u, s);
    assert s[0..] == s && s[0..0] + (MARK + v) == MARK + v;
    MaskedAt(u, s, 0, v);
    assert (MARK + v)[0..] == MARK + v;
  }

  /** No secret occurs in a text that holds the first character of none. */
  lemma NoneBegins(secrets: set<string>, s: string)
    requires forall w :: w in secrets ==> w != "" && w[0] !in s
    ensures Free(secrets, s)
  {
    forall i, w | 0 <= i <= |s| && w in secrets ensures !(w <= s[i..]) {
      assert i < |s| ==> s[i..][0] == s[i] && s[i] in s;
    }
  }

  /** Two secrets and every spelling registered with them. */
  const SPELLINGS: set<string> :=
    {"YWJjZA==", "YWJjZA", "abcd", "%2A%2A%2Ae", "KioqZQ==", "KioqZQ", "***e"}

  /** Two secrets, and a text in which masking the one spells the other. */
  lemma MarkCanSpellASecret()
    ensures SecretsMasked(SPELLINGS, "abcde") == "***e" && !Free(SPELLINGS, "***e")
  {
    assert "abcd" + "e" == "abcde" && MARK + "e" == "***e";
    forall w | w in SPELLINGS - {"abcd"} ensures w != "" && w[0] !in "abcde" {
      assert w[0] in {'Y', '%', 'K', '*'};
    }
    NoneBegins(SPELLINGS - {"abcd"}, "abcde");
    MarkSpells(SPELLINGS, "abcd", "e");
  }

  // ---------- scanning again ----------

  /** Secrets longer than the marker: the scan lengthens no text, and shortens one that holds any. */
  lemma {:induction false} ScanShortens(secrets: set<string>, s: string)
    requires forall w :: w in secrets ==> |w| > |MARK|
    ensures |SecretsMasked(secrets, s)| <= |s|
    ensures !Free(secrets, s) ==> |SecretsMasked(secrets, s)| < |s|
    decreases |s|
  {
    if s == "" {
      assert NoneAt(secrets, s[0..]);
    } else {
      var n := LongestAt(secrets, s);
      if n == 0 {
        FreeSplits(secrets, s);
        ScanShortens(secrets, s[1..]);
      } else {
        ScanShortens(secrets, s[n..]);
      }
    }
  }

  /** Masking a secret longer than the marker never lengthens a text, masking a shorter one never shortens it. */
  lemma {:induction false} OneMaskedLength(w: string, s: string)
    requires w != ""
    ensures |w| >= |MARK| ==> |OneMasked(w, s)| <= |s|
    ensures |w| <= |MARK| ==> |OneMasked(w, s)| >= |s|
    decreases |s|
  {
    if s == "" {
    } else if w <= s {
      OneMaskedLength(w, s[|w|..]);
    } else {
      OneMaskedLength(w, s[1..]);
    }
  }

  /** A text that holds a secret other than the marker is not left as it is. */
  lemma {:induction false} HoldingIsChanged(w: string, s: string, i: nat)
    requires w != "" && w != MARK && i <= |s| && w <= s[i..]
    ensures OneMasked(w, s) != s
    decreases |s|
  {
    assert s[0..] == s;
    if w <= s {
      var rest := OneMasked(w, s[|w|..]);
      MaskedThere(w, s);
      OneMaskedLength(w, s[|w|..]);
      assert (MARK + rest)[..|MARK|] == MARK && s[..|w|] == w;
      assert |MARK + rest| == |MARK| + |rest| && |s| == |w| + |s[|w|..]|;
    } else {
      assert OneMasked(w, s)[1..] == OneMasked(w, s[1..]);
      DropDrop(s, 1, i - 1);
      HoldingIsChanged(w, s[1..], i - 1);
    }
  }

  /** Masking the marker itself changes nothing. */
  lemma {:induction false} MarkForMark(s: string)
    ensures OneMasked(MARK, s) == s
    decreases |s|
  {
    if s == "" {
    } else if MARK <= s {
      MarkForMark(s[|MARK|..]);
      Rejoined(s, |MARK|);
      assert s[..|MARK|] == MARK;
    } else {
      MarkForMark(s[1..]);
      Rejoined(s, 1);
    }
  }
}
