/**
  When masking keeps its promise for a secret, and when only for some texts: the scan and
  the search for cut secrets together (logging/masking.py).
*/
module CleanMasking {
  import opened Sequences
  import opened TextMasking
  import opened CutMasking
  import opened Masking
  import opened SecretRegistry

  predicate HoldsNoCut(s: string) { FirstCut(s) == |s| }

  lemma {:induction false} TailHoldsNoCut(s: string, n: nat)
    requires HoldsNoCut(s) && n <= |s|
    ensures HoldsNoCut(s[n..])
    decreases n
  {
    if n == 0 {
      assert s[0..] == s;
    } else {
      TailHoldsNoCut(s[1..], n - 1);
      DropDrop(s, 1, n - 1);
    }
  }

  lemma StarStartsNoCut(s: string)
    requires s != "" && s[0] == '*'
    ensures CutLength(s) == 0
  {
    assert CUT_HEAD[0] == '.';
  }

  /** Masking stretches of a text without truncation markers makes none. */
  lemma {:induction false} MaskingMakesNoCut(t: string, o: string)
    requires Covers(t, o) && HoldsNoCut(t)
    ensures HoldsNoCut(o)
    decreases |o|
  {
    if o == "" {
    } else if t != "" && t[0] == o[0] && Covers(t[1..], o[1..]) {
      if CutLength(o) > 0 {
        CutWasThere(t, o);
      }
      MaskingMakesNoCut(t[1..], o[1..]);
    } else {
      var n :| 0 < n <= |t| && Covers(t[n..], o[|MARK|..]);
      TailHoldsNoCut(t, n);
      MaskingMakesNoCut(t[n..], o[|MARK|..]);
      MarkBeforeNoCut(o);
    }
  }

  lemma MarkBeforeNoCut(o: string)
    requires MARK <= o && HoldsNoCut(o[|MARK|..])
    ensures HoldsNoCut(o)
  {
    assert o[1..][1..] == o[2..] && o[2..][1..] == o[3..];
    assert o[1..][0] == '*' && o[2..][0] == '*' && o[0] == '*';
    StarStartsNoCut(o[2..]);
    assert HoldsNoCut(o[2..]);
    StarStartsNoCut(o[1..]);
    assert HoldsNoCut(o[1..]);
    StarStartsNoCut(o);
  }

  /** Where the scanned text holds no truncation marker, the scan is all there is to masking. */
  lemma ScanIsAll(rules: Rules, s: string)
    requires "" !in rules.secrets && HoldsNoCut(SecretsMasked(rules.secrets, s))
    ensures TextMasked(rules, s) == SecretsMasked(rules.secrets, s)
  {
  }

  // ---------- exactly the sets of secrets that are masked out of every text ----------

  /**
    Each secret that can hold a part of a marker holds no truncation marker, and is the only one
    in the text that shows it.
  */
  ghost predicate ShownAlone(secrets: set<string>) {
    forall w :: w in secrets && w != "" && !Apart(w) ==> HoldsNoCut(w) && Free(secrets - {w}, ShowingText(w))
  }

  /** What the scan makes of that text still holds the secret, and no truncation marker. */
  lemma SomeMaskedTextShows(rules: Rules, w: string)
    requires "" !in rules.secrets && w in rules.secrets && !Apart(w)
    requires HoldsNoCut(w) && Free(rules.secrets - {w}, ShowingText(w))
    ensures !Free(rules.secrets, TextMasked(rules, ShowingText(w))) && HoldsNoCut(TextMasked(rules, ShowingText(w)))
  {
    var o := SomeTextShows(w);
    OthersAbsent(rules.secrets, w, ShowingText(w));
    MaskingMakesNoCut(w, o);
    ScanIsAll(rules, ShowingText(w));
    MoreIsNotFree(w, rules.secrets, o);
  }

  /** The rules the registry has, or those for a few secrets more: only secrets are looked for where they are cut. */
  ghost predicate Usual(rules: Rules) { "" !in rules.secrets && rules.cuttable <= rules.secrets }

  /**
    Such secrets are masked out of every text exactly when each of them neither starts nor ends
    with the marker's character nor has the marker in it.
  */
  lemma MasksCleanlyExactly(rules: Rules)
    requires Usual(rules) && ShownAlone(rules.secrets)
    ensures (forall s :: Free(rules.secrets, TextMasked(rules, s))) <==> Plain(rules.secrets)
  {
    if Plain(rules.secrets) {
      forall s ensures Free(rules.secrets, TextMasked(rules, s)) {
        TextMaskedIsFree(rules, s);
      }
    } else {
      var w :| w in rules.secrets && !Apart(w);
      SomeMaskedTextShows(rules, w);
    }
  }

  /** Where secrets are longer than the marker, masking again changes nothing exactly then. */
  lemma MasksOnceExactly(rules: Rules)
    requires Usual(rules) && ShownAlone(rules.secrets) && forall w :: w in rules.secrets ==> |w| > |MARK|
    ensures (forall s :: TextMasked(rules, TextMasked(rules, s)) == TextMasked(rules, s)) <==> Plain(rules.secrets)
  {
    if Plain(rules.secrets) {
      forall s ensures TextMasked(rules, TextMasked(rules, s)) == TextMasked(rules, s) {
        TextMaskedAgain(rules, s);
      }
    } else {
      var w :| w in rules.secrets && !Apart(w);
      SomeMaskedTextShows(rules, w);
      MaskedAgainIsOther(rules, TextMasked(rules, ShowingText(w)));
    }
  }

  lemma MaskedAgainIsOther(rules: Rules, t: string)
    requires "" !in rules.secrets && forall w :: w in rules.secrets ==> |w| > |MARK|
    requires HoldsNoCut(t) && !Free(rules.secrets, t)
    ensures TextMasked(rules, t) != t
  {
    ScanShortens(rules.secrets, t);
    SecretsMaskedCovers(rules.secrets, t);
    MaskingMakesNoCut(t, SecretsMasked(rules.secrets, t));
    ScanIsAll(rules, t);
  }

  /** After any history of calls the registry masks cleanly, and once for all, exactly when its secrets are plain. */
  lemma RegistryMasksCleanlyExactly(calls: seq<Call>, candidates: string -> seq<string>)
    requires ShownAlone(EveryValue(AppliedAll(EMPTY_REGISTRY, calls, candidates)))
    ensures var rules := RulesOf(AppliedAll(EMPTY_REGISTRY, calls, candidates));
            && "" !in rules.secrets
            && ((forall s :: Free(rules.secrets, TextMasked(rules, s))) <==> Plain(rules.secrets))
            && ((forall s :: TextMasked(rules, TextMasked(rules, s)) == TextMasked(rules, s)) <==> Plain(rules.secrets))
  {
    var reg := AppliedAll(EMPTY_REGISTRY, calls, candidates);
    EveryRunIsSound(calls, candidates);
    NoEmptySecret(reg);
    EveryValueIsLong(reg);
    MasksCleanlyExactly(RulesOf(reg));
    MasksOnceExactly(RulesOf(reg));
  }

  lemma EveryValueIsLong(reg: Registry)
    requires Sound(reg)
    ensures forall w :: w in EveryValue(reg) ==> |w| >= MIN_EXPLICIT_LENGTH
  {
  }

  /** A secret and every spelling registered with it. */
  const STARRED: set<string> := {"%2Aabcdefg", "KmFiY2RlZmc=", "KmFiY2RlZmc", "*abcdefg"}

  lemma OnlyItselfInItsText()
    ensures Free(STARRED - {"*abcdefg"}, "*abcdefgabcdefg")
  {
    forall u | u in STARRED - {"*abcdefg"} ensures u != "" && u[0] !in "*abcdefgabcdefg" {
      assert u[0] in {'%', 'K'};
    }
    NoneBegins(STARRED - {"*abcdefg"}, "*abcdefgabcdefg");
  }

  lemma StarredText(w: string)
    requires w == "*abcdefg"
    ensures w != "" && !Apart(w) && HoldsNoCut(w) && ShowingText(w) == "*abcdefgabcdefg"
  {
    assert w + w[1..] == "*abcdefgabcdefg";
    NoDotNoCut(w);
  }

  /** Among plain secrets one that is not plain is shown by its text. */
  lemma OneAmongPlainShows(rules: Rules, w: string)
    requires "" !in rules.secrets && w in rules.secrets && !Apart(w) && HoldsNoCut(w) && Plain(rules.secrets - {w})
    requires Free(rules.secrets - {w}, ShowingText(w))
    ensures ShownAlone(rules.secrets) && !Plain(rules.secrets)
    ensures !Free(rules.secrets, TextMasked(rules, ShowingText(w)))
  {
    SomeMaskedTextShows(rules, w);
    forall u | u in rules.secrets && !Apart(u) ensures u == w {
      assert u != w ==> u in rules.secrets - {w};
    }
  }

  lemma OtherSpellingsArePlain()
    ensures Plain(STARRED - {"*abcdefg"})
  {
    assert Apart("%2Aabcdefg") && Apart("KmFiY2RlZmc=") && Apart("KmFiY2RlZmc");
  }

  /** They are such secrets, and not plain: in this text the secret is still there once it is masked. */
  lemma StarredSecretShows(rules: Rules)
    requires rules.secrets == STARRED
    ensures ShownAlone(rules.secrets) && !Plain(rules.secrets) && "" !in rules.secrets
    ensures !Free(rules.secrets, TextMasked(rules, "*abcdefgabcdefg"))
  {
    OnlyItselfInItsText();
    StarredText("*abcdefg");
    OtherSpellingsArePlain();
    OneAmongPlainShows(rules, "*abcdefg");
  }

  lemma {:induction false} NoDotNoCut(s: string)
    requires '.' !in s
    ensures HoldsNoCut(s)
  {
    if s == "" {
    } else {
      assert s[0] != '.' && CUT_HEAD[0] == '.';
      NoDotNoCut(s[1..]);
    }
  }

  // ---------- one secret ----------

  /** The rules with one secret and no other spelling of it. */
  ghost function Alone(w: string): Rules { Rules({w}, {w}, {w}) }

  lemma OneIsShownAlone(w: string)
    requires w != "" && HoldsNoCut(w)
    ensures Usual(Alone(w)) && ShownAlone({w})
  {
    if !Apart(w) {
      assert {w} - {w} == {};
    }
  }

  lemma MarkIsMaskedByItself(s: string)
    ensures TextMasked(Alone(MARK), s) == s
  {
    MarkForMark(s);
    OneMaskedIsTheScan(MARK, s);
    NothingToCut(s, map[], {MARK});
  }

  /** For one secret of any length, masking again changes nothing also where it is the marker itself. */
  lemma OneMasksOnceExactly(w: string)
    requires w != "" && HoldsNoCut(w)
    ensures (forall s :: TextMasked(Alone(w), TextMasked(Alone(w), s)) == TextMasked(Alone(w), s)) <==>
        Apart(w) || w == MARK
  {
    if Apart(w) {
      forall s ensures TextMasked(Alone(w), TextMasked(Alone(w), s)) == TextMasked(Alone(w), s) {
        TextMaskedAgain(Alone(w), s);
      }
    } else if w == MARK {
      forall s ensures TextMasked(Alone(w), TextMasked(Alone(w), s)) == TextMasked(Alone(w), s) {
        MarkIsMaskedByItself(s);
      }
    } else {
      OneIsShownAlone(w);
      SomeMaskedTextShows(Alone(w), w);
      OneMaskedAgainIsOther(w, TextMasked(Alone(w), ShowingText(w)));
    }
  }

  lemma OneMaskedAgainIsOther(w: string, t: string)
    requires w != "" && w != MARK && HoldsNoCut(t) && !Free({w}, t)
    ensures TextMasked(Alone(w), t) != t
  {
    var i: nat :| i <= |t| && !NoneAt({w}, t[i..]);
    assert w <= t[i..];
    HoldingIsChanged(w, t, i);
    OneMaskedIsTheScan(w, t);
    SecretsMaskedCovers({w}, t);
    MaskingMakesNoCut(t, SecretsMasked({w}, t));
    ScanIsAll(Alone(w), t);
  }
}
