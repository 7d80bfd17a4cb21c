/**
  Which values the registry masks as explicit, told from the history of its calls: both ways,
  over every history (logging/masking.py).
*/
module ExplicitHistory {
  import opened Sequences
  import opened Wrappers
  import opened Masking
  import opened SecretTable
  import opened SecretLeaves
  import opened SecretRegistry

  // ---------- what was remembered ----------

  function Registered(calls: seq<Call>, candidates: string -> seq<string>): Registry {
    AppliedAll(EMPTY_REGISTRY, calls, candidates)
  }

  /** What a history remembered since everything was last forgotten, in order. */
  function TrailOf(calls: seq<Call>, candidates: string -> seq<string>): seq<Secret> {
    if calls == [] then []
    else
      var front, last := calls[..|calls| - 1], calls[|calls| - 1];
      if last.Forget? then []
      else TrailOf(front, candidates) + RememberedBy(Registered(front, candidates), last, candidates)
  }

  lemma {:induction false} ReleasedIsTheTrail(calls: seq<Call>, candidates: string -> seq<string>)
    ensures Registered(calls, candidates).released == RememberedAll([], TrailOf(calls, candidates))
  {
    if calls == [] {
    } else {
      var front, last := calls[..|calls| - 1], calls[|calls| - 1];
      ReleasedIsTheTrail(front, candidates);
      if !last.Forget? {
        AppliedReleases(Registered(front, candidates), last, candidates);
        RememberedAllSplit([], TrailOf(front, candidates),
          RememberedBy(Registered(front, candidates), last, candidates));
      }
    }
  }

  // ---------- what was pinned ----------

  /** A leaf that is not turned away when its turn comes has the spelling `v`. */
  predicate AnyLeafPins(reg: Registry, leaves: seq<string>, terms: Terms, candidates: string -> seq<string>,
                        v: string)
  {
    leaves != []
    && var front, last := leaves[..|leaves| - 1], leaves[|leaves| - 1];
       AnyLeafPins(reg, front, terms, candidates, v)
       || (!TurnedAway(LeavesAdded(reg, front, terms, candidates), last, terms)
         && v in FormsOf(candidates, last, Floor(terms)))
  }

  /** A leaf of the call is pinned for the run as explicit, with the spelling `v`. */
  ghost predicate Pins(reg: Registry, call: Call, candidates: string -> seq<string>, run: Run, v: string) {
    && call.Register? && call.terms.run == Some(run) && call.terms.explicit
    && AnyLeafPins(reg, Meant(call.value, call.terms), call.terms, candidates, v)
  }

  lemma {:induction false} FilingPinsExactly(reg: Registry, where: Option<Run>, forms: seq<string>, explicit: bool,
      run: Run, v: string)
    requires Sound(reg) && forall f :: f in forms ==> |f| >= MIN_EXPLICIT_LENGTH
    ensures Explicit(PinsOf(FiledAll(reg, where, forms, explicit), run), v) <==>
            Explicit(PinsOf(reg, run), v) || (where == Some(run) && explicit && v in forms)
  {
    if forms == [] {
    } else {
      var front, last := forms[..|forms| - 1], forms[|forms| - 1];
      LastOrBefore(forms, v);
      assert forall f :: f in front ==> f in forms;
      FilingPinsExactly(reg, where, front, explicit, run, v);
      FiledAllKeeps(reg, where, front, explicit, run);
      FiledPinsExactly(FiledAll(reg, where, front, explicit), where, Secret(last, explicit), run, v);
    }
  }

  lemma FiledPinsExactly(reg: Registry, where: Option<Run>, s: Secret, run: Run, v: string)
    requires Sound(reg)
    ensures Explicit(PinsOf(Filed(reg, where, s), run), v) <==>
            Explicit(PinsOf(reg, run), v) || (where == Some(run) && s == Secret(v, true))
  {
    if where.Some? {
      PinnedToSpec(PinsOf(reg, where.value), s);
    }
  }

  lemma LeafPinsExactly(reg: Registry, leaf: string, terms: Terms, candidates: string -> seq<string>, run: Run,
                        v: string)
    requires Sound(reg) && |leaf| >= Floor(terms)
    ensures Explicit(PinsOf(LeafAdded(reg, leaf, terms, candidates), run), v) <==>
            Explicit(PinsOf(reg, run), v)
            || (terms.run == Some(run) && terms.explicit && !TurnedAway(reg, leaf, terms)
                && v in FormsOf(candidates, leaf, Floor(terms)))
  {
    if !TurnedAway(reg, leaf, terms) {
      var counted := if terms.declared && terms.run.Some? then Counted(reg, terms.run.value, leaf) else reg;
      CountedOnce(reg, leaf, terms, run);
      FilingPinsExactly(counted, terms.run, FormsOf(candidates, leaf, Floor(terms)), terms.explicit, run, v);
    }
  }

  lemma {:induction false} LeavesPinExactly(reg: Registry, leaves: seq<string>, terms: Terms,
                                            candidates: string -> seq<string>, run: Run, v: string)
    requires Sound(reg) && forall l :: l in leaves ==> |l| >= Floor(terms)
    ensures Explicit(PinsOf(LeavesAdded(reg, leaves, terms, candidates), run), v) <==>
            Explicit(PinsOf(reg, run), v)
            || (terms.run == Some(run) && terms.explicit && AnyLeafPins(reg, leaves, terms, candidates, v))
  {
    if leaves == [] {
    } else {
      var front, last := leaves[..|leaves| - 1], leaves[|leaves| - 1];
      assert last in leaves && forall l :: l in front ==> l in leaves;
      LeavesPinExactly(reg, front, terms, candidates, run, v);
      LeavesAddedKeeps(reg, front, terms, candidates, run);
      LeafPinsExactly(LeavesAdded(reg, front, terms, candidates), last, terms, candidates, run, v);
    }
  }

  /** The run is closed, or all is forgotten. */
  predicate Ends(call: Call, run: Run) { call == ReleaseRun(run) || call == Forget }

  /** What one call does to a run's explicit pins. */
  lemma CallPinsExactly(reg: Registry, call: Call, candidates: string -> seq<string>, run: Run, v: string)
    requires Sound(reg)
    ensures Explicit(PinsOf(Applied(reg, call, candidates), run), v) <==>
            !Ends(call, run) && (Explicit(PinsOf(reg, run), v) || Pins(reg, call, candidates, run, v))
  {
    match call
    case Register(value, terms) =>
      LeavesPinExactly(reg, Meant(value, terms), terms, candidates, run, v);
    case ReleaseRun(_) =>
    case Forget =>
  }

  /** One of `starts` is below `n`, and none of `ends` lies between. */
  ghost predicate Lasting(starts: set<nat>, ends: set<nat>, n: nat) {
    exists i :: i in starts && i < n && forall j :: i < j < n ==> j !in ends
  }

  lemma LastsOneMore(starts: set<nat>, ends: set<nat>, n: nat)
    requires n !in starts || n !in ends
    ensures Lasting(starts, ends, n + 1) <==> n !in ends && (Lasting(starts, ends, n) || n in starts)
  {
    if Lasting(starts, ends, n + 1) {
      var i :| i in starts && i < n + 1 && forall j :: i < j < n + 1 ==> j !in ends;
      assert i < n ==> forall j :: i < j < n ==> j !in ends;
    }
    if Lasting(starts, ends, n) && n !in ends {
      var i :| i in starts && i < n && forall j :: i < j < n ==> j !in ends;
      assert forall j :: i < j < n + 1 ==> j !in ends;
    }
  }

  /** The calls that pinned `v` for the run as explicit. */
  ghost function PinningCalls(calls: seq<Call>, candidates: string -> seq<string>, run: Run, v: string): set<nat> {
    set i: nat | i < |calls| && Pins(Registered(calls[..i], candidates), calls[i], candidates, run, v)
  }

  ghost function EndingCalls(calls: seq<Call>, run: Run): set<nat> { set i: nat | i < |calls| && Ends(calls[i], run) }

  /** A run that is still open pinned `v` as explicit. */
  ghost predicate PinnedExplicitly(calls: seq<Call>, candidates: string -> seq<string>, run: Run, v: string) {
    Lasting(PinningCalls(calls, candidates, run, v), EndingCalls(calls, run), |calls|)
  }

  lemma {:induction false} ExplicitPinsExactly(calls: seq<Call>, n: nat, candidates: string -> seq<string>, run: Run,
      v: string)
    requires n <= |calls|
    ensures Explicit(PinsOf(Registered(calls[..n], candidates), run), v) <==>
            Lasting(PinningCalls(calls, candidates, run, v), EndingCalls(calls, run), n)
  {
    if n == 0 {
    } else {
      ExplicitPinsExactly(calls, n - 1, candidates, run, v);
      NextCallPins(calls, n - 1, candidates, run, v);
      LastsOneMore(PinningCalls(calls, candidates, run, v), EndingCalls(calls, run), n - 1);
    }
  }

  lemma NextCallPins(calls: seq<Call>, n: nat, candidates: string -> seq<string>, run: Run, v: string)
    requires n < |calls|
    ensures Explicit(PinsOf(Registered(calls[..n + 1], candidates), run), v) <==>
            && n !in EndingCalls(calls, run)
            && (Explicit(PinsOf(Registered(calls[..n], candidates), run), v)
              || n in PinningCalls(calls, candidates, run, v))
    ensures n !in EndingCalls(calls, run) || n !in PinningCalls(calls, candidates, run, v)
  {
    EveryRunIsSound(calls[..n], candidates);
    CallPinsExactly(Registered(calls[..n], candidates), calls[n], candidates, run, v);
    TakeOneMore(calls, n);
  }

  // ---------- the whole history ----------

  /**
    In every history a value is masked as explicit exactly when it was once remembered as
    explicit and never since pushed out by MAX_SECRETS others, or a run that is still open
    pinned it as explicit.
  */
  lemma MaskedAsExplicitExactly(calls: seq<Call>, candidates: string -> seq<string>, v: string)
    ensures v in EveryExplicit(Registered(calls, candidates)) <==>
            SaidSince(TrailOf(calls, candidates), v) || exists run :: PinnedExplicitly(calls, candidates, run, v)
  {
    var reg := Registered(calls, candidates);
    ReleasedIsTheTrail(calls, candidates);
    ExplicitExactly(TrailOf(calls, candidates), v);
    ListedMeansValue(reg, v);
    assert calls[..|calls|] == calls;
    forall run ensures Explicit(PinsOf(reg, run), v) <==> PinnedExplicitly(calls, candidates, run, v) {
      ExplicitPinsExactly(calls, |calls|, candidates, run, v);
    }
    if run :| PinnedExplicitly(calls, candidates, run, v) {
      assert Explicit(PinsOf(reg, run), v) && run in reg.pinned;
    }
    if r :| r in reg.pinned && Explicit(reg.pinned[r], v) {
      assert PinsOf(reg, r) == reg.pinned[r];
    }
  }

  // ---------- a value that stops being explicit ----------

  function Plainly(s: string, run: Option<Run>): Call { Call.Register(Text(s), Terms(run, false, false)) }

  /** Declared a secret, registered again for a run without saying so, and others after it. */
  function ForgottenFlag(v: string, run: Run, others: seq<string>): seq<Call> {
    if others == [] then [Call.Register(Text(v), Terms(None, true, false)), Plainly(v, Some(run))]
    else ForgottenFlag(v, run, others[..|others| - 1]) + [Plainly(others[|others| - 1], None)]
  }

  lemma FormsOfOne(s: string, terms: Terms, candidates: string -> seq<string>)
    requires |s| >= Floor(terms)
    ensures Meant(Text(s), terms) == [s]
    ensures FormsOfAll([s], terms, candidates) == Each(FormsOf(candidates, s, Floor(terms)), terms.explicit)
  {
    assert Leaves(Text(s), terms.explicit) == [s] && [s][1..] == [] && [s][..0] == [];
    assert LongEnough([], Floor(terms)) == [] && FormsOfAll([], terms, candidates) == [];
  }

  lemma {:induction false} EachValue(forms: seq<string>, explicit: bool, v: string)
    ensures v in Values(Each(forms, explicit)) <==> v in forms
  {
    if forms == [] {
    } else {
      EachValue(forms[..|forms| - 1], explicit, v);
      LastOrBefore(forms, v);
      ValuesOneMore(Each(forms[..|forms| - 1], explicit), Secret(forms[|forms| - 1], explicit));
    }
  }

  lemma ValuesOneMore(front: seq<Secret>, last: Secret)
    ensures Values(front + [last]) == Values(front) + {last.value}
  {
  }

  lemma SinceLastOneMore(trail: seq<Secret>, last: Secret, v: string)
    requires last.value != v
    ensures SinceLast(trail + [last], v) == SinceLast(trail, v) + {last.value}
  {
    assert (trail + [last])[..|trail|] == trail;
  }

  /** What is remembered of others adds to what followed `v`. */
  lemma {:induction false} SinceLastJoined(trail: seq<Secret>, more: seq<Secret>, v: string)
    requires v !in Values(more)
    ensures SinceLast(trail + more, v) == SinceLast(trail, v) + Values(more)
  {
    if more == [] {
      assert trail + more == trail;
    } else {
      var front, last := more[..|more| - 1], more[|more| - 1];
      assert more == front + [last];
      ValuesOneMore(front, last);
      SinceLastJoined(trail, front, v);
      SinceLastOneMore(trail + front, last, v);
      assert trail + more == trail + front + [last];
    }
  }

  predicate Distinct(others: seq<string>) { forall i, j :: 0 <= i < j < |others| ==> others[i] != others[j] }

  ghost function Elements(others: seq<string>): set<string> { set o | o in others }

  lemma ElementsOneMore(others: seq<string>)
    requires others != []
    ensures Elements(others) == Elements(others[..|others| - 1]) + {others[|others| - 1]}
  {
    forall o ensures o in others <==> o in others[..|others| - 1] || o == others[|others| - 1] {
      LastOrBefore(others, o);
    }
  }

  lemma {:induction false} DistinctCount(others: seq<string>)
    requires Distinct(others)
    ensures |Elements(others)| == |others|
  {
    if others == [] {
    } else {
      DistinctCount(others[..|others| - 1]);
      ElementsOneMore(others);
    }
  }

  /** Long enough to be registered without saying more, and in no spelling the value `v`. */
  ghost predicate AreOthers(others: seq<string>, v: string, candidates: string -> seq<string>) {
    forall o :: o in others ==> |o| >= MIN_SECRET_LENGTH && v !in FormsOf(candidates, o, MIN_SECRET_LENGTH)
  }

  lemma OneCallMore(front: seq<Call>, last: Call, candidates: string -> seq<string>)
    ensures Registered(front + [last], candidates) == Applied(Registered(front, candidates), last, candidates)
    ensures !last.Forget? ==>
              TrailOf(front + [last], candidates)
              == TrailOf(front, candidates) + RememberedBy(Registered(front, candidates), last, candidates)
  {
    assert (front + [last])[..|front|] == front;
  }

  /** Another value registered for no run adds its spellings to the trail. */
  lemma OneOtherMore(calls: seq<Call>, last: string, v: string, candidates: string -> seq<string>)
    requires |last| >= MIN_SECRET_LENGTH && v !in FormsOf(candidates, last, MIN_SECRET_LENGTH)
    ensures var after := TrailOf(calls + [Plainly(last, None)], candidates);
            SinceLast(TrailOf(calls, candidates), v) + {last} <= SinceLast(after, v)
  {
    var forms := FormsOf(candidates, last, MIN_SECRET_LENGTH);
    OneCallMore(calls, Plainly(last, None), candidates);
    FormsOfOne(last, Terms(None, false, false), candidates);
    EachValue(forms, false, v);
    EachValue(forms, false, last);
    SinceLastJoined(TrailOf(calls, candidates), Each(forms, false), v);
  }

  /** All of the others followed the value. */
  lemma {:induction false} OthersFollow(v: string, run: Run, others: seq<string>, candidates: string -> seq<string>)
    requires AreOthers(others, v, candidates)
    ensures Elements(others) <= SinceLast(TrailOf(ForgottenFlag(v, run, others), candidates), v)
  {
    if others == [] {
    } else {
      var front, last := others[..|others| - 1], others[|others| - 1];
      assert last in others && forall o :: o in front ==> o in others;
      OthersFollow(v, run, front, candidates);
      OneOtherMore(ForgottenFlag(v, run, front), last, v, candidates);
      ElementsOneMore(others);
    }
  }

  lemma {:induction false} NoCallPins(v: string, run: Run, others: seq<string>)
    ensures forall c :: c in ForgottenFlag(v, run, others) ==> c.Register? && (c.terms.run.None? || !c.terms.explicit)
  {
    if others == [] {
    } else {
      NoCallPins(v, run, others[..|others| - 1]);
    }
  }

  /** The run pinned the value, and still does. */
  lemma {:induction false} StillPinned(v: string, run: Run, others: seq<string>, candidates: string -> seq<string>)
    requires |v| >= MIN_SECRET_LENGTH
    ensures Listed(PinsOf(Registered(ForgottenFlag(v, run, others), candidates), run), v)
  {
    if others == [] {
      var a, b := Call.Register(Text(v), Terms(None, true, false)), Plainly(v, Some(run));
      assert [a] + [b] == [a, b];
      EveryRunIsSound([a], candidates);
      PinnedPlainly(Registered([a], candidates), v, run, candidates);
      OneCallMore([a], b, candidates);
    } else {
      var calls, last := ForgottenFlag(v, run, others[..|others| - 1]), Plainly(others[|others| - 1], None);
      StillPinned(v, run, others[..|others| - 1], candidates);
      EveryRunIsSound(calls, candidates);
      AppliedKeeps(Registered(calls, candidates), last, candidates, run);
      OneCallMore(calls, last, candidates);
    }
  }

  lemma PinnedPlainly(reg: Registry, v: string, run: Run, candidates: string -> seq<string>)
    requires Sound(reg) && |v| >= MIN_SECRET_LENGTH
    ensures Listed(PinsOf(Applied(reg, Plainly(v, Some(run)), candidates), run), v)
  {
    var terms := Terms(Some(run), false, false);
    FormsOfOne(v, terms, candidates);
    assert [v][..0] == [] && LeavesAdded(reg, [], terms, candidates) == reg;
    var forms := FormsOf(candidates, v, MIN_SECRET_LENGTH);
    assert forms[|forms| - 1] in forms;
    PinnedInEverySpelling(reg, run, forms, false, v);
  }

  /** A value that MAX_SECRETS others followed is no longer said to be explicit. */
  lemma PushedOut(trail: seq<Secret>, v: string, others: seq<string>)
    requires Distinct(others) && |others| >= MAX_SECRETS && Elements(others) <= SinceLast(trail, v)
    ensures !SaidSince(trail, v)
  {
    DistinctCount(others);
    SmallerCount(Elements(others), SinceLast(trail, v));
    assert trail[..|trail|] == trail;
    assert !StaysAt(trail, v, |trail|);
  }

  lemma NothingPinnedExplicitly(calls: seq<Call>, candidates: string -> seq<string>, run: Run, v: string)
    requires forall c :: c in calls ==> c.Register? && (c.terms.run.None? || !c.terms.explicit)
    ensures !PinnedExplicitly(calls, candidates, run, v)
  {
    assert PinningCalls(calls, candidates, run, v) == {};
  }

  lemma ListedIsMasked(reg: Registry, run: Run, v: string)
    requires Listed(PinsOf(reg, run), v)
    ensures v in EveryValue(reg)
  {
    ListedMeansValue(reg, v);
    assert run in reg.pinned && Listed(reg.pinned[run], v);
  }

  /**
    Declared a secret, pinned by a run without saying so, and followed by MAX_SECRETS others of
    which it is no spelling: the value is still masked, but no longer as explicit.
  */
  lemma PinCanOutliveExplicit(v: string, run: Run, others: seq<string>, candidates: string -> seq<string>)
    requires |v| >= MIN_SECRET_LENGTH && |others| >= MAX_SECRETS && Distinct(others) && AreOthers(others, v, candidates)
    ensures v in EveryValue(Registered(ForgottenFlag(v, run, others), candidates))
    ensures v !in EveryExplicit(Registered(ForgottenFlag(v, run, others), candidates))
  {
    var calls := ForgottenFlag(v, run, others);
    StillPinned(v, run, others, candidates);
    ListedIsMasked(Registered(calls, candidates), run, v);
    OthersFollow(v, run, others, candidates);
    PushedOut(TrailOf(calls, candidates), v, others);
    NoCallPins(v, run, others);
    forall r ensures !PinnedExplicitly(calls, candidates, r, v) {
      NothingPinnedExplicitly(calls, candidates, r, v);
    }
    MaskedAsExplicitExactly(calls, candidates, v);
  }
}
