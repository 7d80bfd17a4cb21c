/**
  The process-wide registry of secrets: pinned while a run is open, bounded once released,
  compiled again only after it changed (logging/masking.py).
*/
module SecretRegistry {
  import opened Sequences
  import opened Wrappers
  import opened SecretPattern
  import opened CutMasking
  import opened Masking
  import opened SecretTable
  import opened SecretLeaves

  const MIN_SECRET_LENGTH: nat := 8
  const MIN_EXPLICIT_LENGTH: nat := 4
  const MAX_DECLARED_PER_RUN: nat := 256

  type Run = string

  /** Released secrets oldest first, the secrets of open runs, and how many each run declared. */
  datatype Registry = Registry(released: seq<Secret>, pinned: map<Run, seq<Secret>>, declared: map<Run, nat>)

  const EMPTY_REGISTRY: Registry := Registry([], map[], map[])

  // ---------- the spellings of a secret ----------

  /** The candidate spellings worth keeping, once each, in their order. */
  function Kept(candidates: seq<string>, value: string, floor: nat): (kept: seq<string>)
    ensures forall s :: s in kept <==> s in candidates && s != value && |s| >= floor
    ensures forall i, j :: 0 <= i < j < |kept| ==> kept[i] != kept[j]
  {
    if candidates == [] then []
    else
      var front, last := candidates[..|candidates| - 1], candidates[|candidates| - 1];
      assert candidates == front + [last];
      var kept := Kept(front, value, floor);
      if last != value && |last| >= floor && last !in kept then kept + [last] else kept
  }

  /** What is filed for `value`: its candidate spellings worth keeping, and then the value. */
  function FormsOf(candidates: string -> seq<string>, value: string, floor: nat): (forms: seq<string>)
    ensures |forms| > 0 && forms[|forms| - 1] == value
    ensures forall s :: s in forms ==> s == value || |s| >= floor
    ensures forall i, j :: 0 <= i < j < |forms| ==> forms[i] != forms[j]
  {
    Kept(candidates(value), value, floor) + [value]
  }

  // ---------- one step ----------

  function PinsOf(reg: Registry, run: Run): seq<Secret> {
    if run in reg.pinned then reg.pinned[run] else []
  }

  function DeclaredBy(reg: Registry, run: Run): nat {
    if run in reg.declared then reg.declared[run] else 0
  }

  /** One form pinned for its run, or remembered where there is none. */
  function Filed(reg: Registry, run: Option<Run>, s: Secret): Registry {
    match run
    case Some(r) => reg.(pinned := reg.pinned[r := PinnedTo(PinsOf(reg, r), s)])
    case None => reg.(released := Remembered(reg.released, s))
  }

  function FiledAll(reg: Registry, run: Option<Run>, forms: seq<string>, explicit: bool): Registry {
    if forms == [] then reg
    else Filed(FiledAll(reg, run, forms[..|forms| - 1], explicit), run, Secret(forms[|forms| - 1], explicit))
  }

  /** A declared value the run may pin: it has it already, or its allowance is not used up. */
  predicate Allowed(reg: Registry, run: Run, leaf: string) {
    Listed(PinsOf(reg, run), leaf) || DeclaredBy(reg, run) < MAX_DECLARED_PER_RUN
  }

  function Counted(reg: Registry, run: Run, leaf: string): Registry {
    if Listed(PinsOf(reg, run), leaf) then reg
    else reg.(declared := reg.declared[run := DeclaredBy(reg, run) + 1])
  }

  /** How a value is registered. */
  datatype Terms = Terms(run: Option<Run>, explicit: bool, declared: bool)

  function Floor(terms: Terms): nat { if terms.explicit then MIN_EXPLICIT_LENGTH else MIN_SECRET_LENGTH }

  /** What of a value is registered on these terms. */
  function Meant(value: Value, terms: Terms): (leaves: seq<string>)
    ensures forall l :: l in leaves ==> |l| >= Floor(terms)
  {
    LongEnough(Leaves(value, terms.explicit), Floor(terms))
  }

  predicate TurnedAway(reg: Registry, leaf: string, terms: Terms) {
    terms.declared && terms.run.Some? && !Allowed(reg, terms.run.value, leaf)
  }

  function LeafAdded(reg: Registry, leaf: string, terms: Terms, candidates: string -> seq<string>): Registry {
    if TurnedAway(reg, leaf, terms) then reg
    else
      var counted := if terms.declared && terms.run.Some? then Counted(reg, terms.run.value, leaf) else reg;
      FiledAll(counted, terms.run, FormsOf(candidates, leaf, Floor(terms)), terms.explicit)
  }

  function LeavesAdded(reg: Registry, leaves: seq<string>, terms: Terms, candidates: string -> seq<string>): Registry {
    if leaves == [] then reg
    else LeafAdded(LeavesAdded(reg, leaves[..|leaves| - 1], terms, candidates), leaves[|leaves| - 1], terms, candidates)
  }

  function WithheldOf(reg: Registry, leaves: seq<string>, terms: Terms,
                      candidates: string -> seq<string>): seq<string>
  {
    if leaves == [] then []
    else
      var front, last := leaves[..|leaves| - 1], leaves[|leaves| - 1];
      WithheldOf(reg, front, terms, candidates)
      + (if TurnedAway(LeavesAdded(reg, front, terms, candidates), last, terms) then [last] else [])
  }

  /** What a call does to the registry. */
  datatype Call = Register(value: Value, terms: Terms) | ReleaseRun(run: Run) | Forget

  function Applied(reg: Registry, call: Call, candidates: string -> seq<string>): Registry {
    match call
    case Register(value, terms) =>
      LeavesAdded(reg, Meant(value, terms), terms, candidates)
    case ReleaseRun(run) =>
      Registry(RememberedAll(reg.released, PinsOf(reg, run)), reg.pinned - {run}, reg.declared - {run})
    case Forget => EMPTY_REGISTRY
  }

  function AppliedAll(reg: Registry, calls: seq<Call>, candidates: string -> seq<string>): Registry {
    if calls == [] then reg
    else Applied(AppliedAll(reg, calls[..|calls| - 1], candidates), calls[|calls| - 1], candidates)
  }

  // ---------- what every step keeps ----------

  ghost predicate Long(table: seq<Secret>) {
    forall s :: s in table ==> |s.value| >= MIN_EXPLICIT_LENGTH
  }

  /** The bounds, and that no table lists a value twice or one too short to be a secret. */
  ghost predicate Sound(reg: Registry) {
    && Unique(reg.released) && |reg.released| <= MAX_SECRETS && Long(reg.released)
    && (forall r :: r in reg.pinned ==> Unique(reg.pinned[r]) && Long(reg.pinned[r]))
    && (forall r :: r in reg.declared ==> reg.declared[r] <= MAX_DECLARED_PER_RUN)
  }

  /** Whatever `run` pinned before it still pins, and what was explicit still is. */
  ghost predicate StillPins(before: Registry, after: Registry, run: Run) {
    forall v ::
      && (Listed(PinsOf(before, run), v) ==> Listed(PinsOf(after, run), v))
      && (Explicit(PinsOf(before, run), v) ==> Explicit(PinsOf(after, run), v))
  }

  lemma FiledKeeps(reg: Registry, run: Option<Run>, s: Secret, open: Run)
    requires Sound(reg) && |s.value| >= MIN_EXPLICIT_LENGTH
    ensures Sound(Filed(reg, run, s)) && StillPins(reg, Filed(reg, run, s), open)
    ensures Filed(reg, run, s).declared == reg.declared
  {
    match run
    case Some(r) =>
      var pins := PinsOf(reg, r);
      PinnedToSpec(pins, s);
      forall x | x in PinnedTo(pins, s) ensures |x.value| >= MIN_EXPLICIT_LENGTH {
        assert Listed(PinnedTo(pins, s), x.value);
        if Listed(pins, x.value) {
          assert Secret(x.value, true) in pins || Secret(x.value, false) in pins;
        }
      }
    case None =>
      RememberedStaysUnique(reg.released, s);
  }

  lemma {:induction false} FiledAllKeeps(reg: Registry, run: Option<Run>, forms: seq<string>, explicit: bool, open: Run)
    requires Sound(reg) && forall f :: f in forms ==> |f| >= MIN_EXPLICIT_LENGTH
    ensures Sound(FiledAll(reg, run, forms, explicit)) && StillPins(reg, FiledAll(reg, run, forms, explicit), open)
    ensures FiledAll(reg, run, forms, explicit).declared == reg.declared
  {
    if forms == [] {
    } else {
      var front, last := forms[..|forms| - 1], forms[|forms| - 1];
      assert last in forms && forall f :: f in front ==> f in forms;
      FiledAllKeeps(reg, run, front, explicit, open);
      FiledKeeps(FiledAll(reg, run, front, explicit), run, Secret(last, explicit), open);
    }
  }

  lemma LeafAddedKeeps(reg: Registry, leaf: string, terms: Terms, candidates: string -> seq<string>, open: Run)
    requires Sound(reg) && |leaf| >= Floor(terms)
    ensures Sound(LeafAdded(reg, leaf, terms, candidates))
    ensures StillPins(reg, LeafAdded(reg, leaf, terms, candidates), open)
  {
    if !TurnedAway(reg, leaf, terms) {
      var counted := if terms.declared && terms.run.Some? then Counted(reg, terms.run.value, leaf) else reg;
      assert Sound(counted) && StillPins(reg, counted, open);
      FiledAllKeeps(counted, terms.run, FormsOf(candidates, leaf, Floor(terms)), terms.explicit, open);
    }
  }

  lemma {:induction false} LeavesAddedKeeps(reg: Registry, leaves: seq<string>, terms: Terms,
      candidates: string -> seq<string>, open: Run)
    requires Sound(reg) && forall l :: l in leaves ==> |l| >= Floor(terms)
    ensures Sound(LeavesAdded(reg, leaves, terms, candidates))
    ensures StillPins(reg, LeavesAdded(reg, leaves, terms, candidates), open)
  {
    if leaves == [] {
    } else {
      var front, last := leaves[..|leaves| - 1], leaves[|leaves| - 1];
      assert last in leaves && forall l :: l in front ==> l in leaves;
      LeavesAddedKeeps(reg, front, terms, candidates, open);
      LeafAddedKeeps(LeavesAdded(reg, front, terms, candidates), last, terms, candidates, open);
    }
  }

  lemma {:induction false} RememberedAllLong(table: seq<Secret>, trail: seq<Secret>)
    requires Unique(table) && |table| <= MAX_SECRETS && Long(table) && Long(trail)
    ensures Long(RememberedAll(table, trail))
  {
    if trail == [] {
    } else {
      var front, last := trail[..|trail| - 1], trail[|trail| - 1];
      assert trail == front + [last];
      RememberedAllLong(table, front);
      RememberedAllBounded(table, front);
      RememberedStaysUnique(RememberedAll(table, front), last);
    }
  }

  /** One call keeps the bounds, and ends a pin only where it ends the run or drops everything. */
  lemma AppliedKeeps(reg: Registry, call: Call, candidates: string -> seq<string>, open: Run)
    requires Sound(reg)
    ensures Sound(Applied(reg, call, candidates))
    ensures call.Forget? || call == ReleaseRun(open) || StillPins(reg, Applied(reg, call, candidates), open)
  {
    match call
    case Register(value, terms) =>
      LeavesAddedKeeps(reg, Meant(value, terms), terms, candidates, open);
    case ReleaseRun(run) =>
      RememberedAllBounded(reg.released, PinsOf(reg, run));
      RememberedAllLong(reg.released, PinsOf(reg, run));
    case Forget =>
  }

  /** Every reachable registry is within its bounds. */
  lemma {:induction false} EveryRunIsSound(calls: seq<Call>, candidates: string -> seq<string>)
    ensures Sound(AppliedAll(EMPTY_REGISTRY, calls, candidates))
  {
    if calls == [] {
    } else {
      EveryRunIsSound(calls[..|calls| - 1], candidates);
      AppliedKeeps(AppliedAll(EMPTY_REGISTRY, calls[..|calls| - 1], candidates), calls[|calls| - 1], candidates, "");
    }
  }

  /** While a run is open, nothing that is called takes away what it pinned. */
  lemma {:induction false} OpenRunKeepsItsPins(reg: Registry, calls: seq<Call>, candidates: string -> seq<string>,
      open: Run)
    requires Sound(reg) && Forget !in calls && ReleaseRun(open) !in calls
    ensures Sound(AppliedAll(reg, calls, candidates))
    ensures StillPins(reg, AppliedAll(reg, calls, candidates), open)
    ensures forall v :: Listed(PinsOf(reg, open), v) ==> v in EveryValue(AppliedAll(reg, calls, candidates))
    ensures forall v :: Explicit(PinsOf(reg, open), v) ==> v in EveryExplicit(AppliedAll(reg, calls, candidates))
  {
    if calls == [] {
    } else {
      var front, last := calls[..|calls| - 1], calls[|calls| - 1];
      assert last in calls && forall c :: c in front ==> c in calls;
      OpenRunKeepsItsPins(reg, front, candidates, open);
      AppliedKeeps(AppliedAll(reg, front, candidates), last, candidates, open);
    }
    PinsAreMasked(AppliedAll(reg, calls, candidates), open);
  }

  lemma {:induction false} PinnedInEverySpelling(reg: Registry, run: Run, forms: seq<string>, explicit: bool, f: string)
    requires Sound(reg) && f in forms && forall g :: g in forms ==> |g| >= MIN_EXPLICIT_LENGTH
    ensures var pins := PinsOf(FiledAll(reg, Some(run), forms, explicit), run);
            Listed(pins, f) && (explicit ==> Explicit(pins, f))
  {
    var front, last := forms[..|forms| - 1], forms[|forms| - 1];
    Rejoined(forms, |forms| - 1);
    FiledAllKeeps(reg, Some(run), front, explicit, "");
    PinnedToSpec(PinsOf(FiledAll(reg, Some(run), front, explicit), run), Secret(last, explicit));
    if f != last {
      PinnedInEverySpelling(reg, run, front, explicit, f);
    }
  }

  lemma {:induction false} RememberedInLastSpelling(reg: Registry, forms: seq<string>, explicit: bool)
    requires Sound(reg) && forall f :: f in forms ==> |f| >= MIN_EXPLICIT_LENGTH
    ensures FiledAll(reg, None, forms, explicit).pinned == reg.pinned
    ensures forms != [] ==> Listed(FiledAll(reg, None, forms, explicit).released, forms[|forms| - 1])
  {
    if forms == [] {
    } else {
      var front, last := forms[..|forms| - 1], forms[|forms| - 1];
      RememberedInLastSpelling(reg, front, explicit);
      FiledAllKeeps(reg, None, front, explicit, "");
      RememberedStaysUnique(FiledAll(reg, None, front, explicit).released, Secret(last, explicit));
    }
  }

  lemma CountedOnce(reg: Registry, leaf: string, terms: Terms, run: Run)
    requires Sound(reg) && !TurnedAway(reg, leaf, terms)
    ensures var counted := if terms.declared && terms.run.Some? then Counted(reg, terms.run.value, leaf) else reg;
            && Sound(counted) && counted.pinned == reg.pinned && counted.released == reg.released
            && DeclaredBy(counted, run) == DeclaredBy(reg, run)
                 + (if terms.declared && terms.run == Some(run) && !Listed(PinsOf(reg, run), leaf) then 1 else 0)
  {
  }

  /** A leaf is turned away and nothing changes, or it is filed in every spelling and counted once. */
  lemma LeafAddedEffect(reg: Registry, leaf: string, terms: Terms, candidates: string -> seq<string>, run: Run)
    requires Sound(reg) && |leaf| >= Floor(terms)
    ensures var after := LeafAdded(reg, leaf, terms, candidates);
            var away := TurnedAway(reg, leaf, terms);
            && (away ==> after == reg && DeclaredBy(reg, terms.run.value) == MAX_DECLARED_PER_RUN)
            && (!away && terms.run == Some(run) ==> forall f :: f in FormsOf(candidates, leaf, Floor(terms)) ==>
                  Listed(PinsOf(after, run), f) && (terms.explicit ==> Explicit(PinsOf(after, run), f)))
            && (terms.run.None? ==> Listed(after.released, leaf) && after.pinned == reg.pinned)
            && DeclaredBy(after, run) == DeclaredBy(reg, run)
                 + (if !away && terms.declared && terms.run == Some(run)
                      && !Listed(PinsOf(reg, run), leaf) then 1 else 0)
  {
    if !TurnedAway(reg, leaf, terms) {
      var counted := if terms.declared && terms.run.Some? then Counted(reg, terms.run.value, leaf) else reg;
      var forms := FormsOf(candidates, leaf, Floor(terms));
      CountedOnce(reg, leaf, terms, run);
      FiledAllEffect(counted, terms.run, forms, terms.explicit, run);
    }
  }

  lemma FiledAllEffect(reg: Registry, where: Option<Run>, forms: seq<string>, explicit: bool, run: Run)
    requires Sound(reg) && forms != [] && forall f :: f in forms ==> |f| >= MIN_EXPLICIT_LENGTH
    ensures var after := FiledAll(reg, where, forms, explicit);
            && (where == Some(run) ==> forall f :: f in forms ==>
                  Listed(PinsOf(after, run), f) && (explicit ==> Explicit(PinsOf(after, run), f)))
            && (where.None? ==> Listed(after.released, forms[|forms| - 1]) && after.pinned == reg.pinned)
            && DeclaredBy(after, run) == DeclaredBy(reg, run)
  {
    var after := FiledAll(reg, where, forms, explicit);
    FiledAllKeeps(reg, where, forms, explicit, run);
    if where.None? {
      RememberedInLastSpelling(reg, forms, explicit);
    } else if where == Some(run) {
      forall f | f in forms ensures Listed(PinsOf(after, run), f) && (explicit ==> Explicit(PinsOf(after, run), f)) {
        PinnedInEverySpelling(reg, run, forms, explicit, f);
      }
    }
  }

  /** What is registered for a run is masked for as long as it is open, or handed back as withheld. */
  lemma {:induction false} PinnedOrWithheld(reg: Registry, leaves: seq<string>, terms: Terms,
      candidates: string -> seq<string>, leaf: string)
    requires Sound(reg) && terms.run.Some? && leaf in leaves && forall l :: l in leaves ==> |l| >= Floor(terms)
    ensures var after := LeavesAdded(reg, leaves, terms, candidates);
            leaf in WithheldOf(reg, leaves, terms, candidates)
            || forall f :: f in FormsOf(candidates, leaf, Floor(terms)) ==>
                 Listed(PinsOf(after, terms.run.value), f)
                   && (terms.explicit ==> Explicit(PinsOf(after, terms.run.value), f))
  {
    var front, last := leaves[..|leaves| - 1], leaves[|leaves| - 1];
    assert leaves == front + [last];
    var before := LeavesAdded(reg, front, terms, candidates);
    LeavesAddedKeeps(reg, front, terms, candidates, terms.run.value);
    LeafAddedKeeps(before, last, terms, candidates, terms.run.value);
    if leaf == last {
      LeafAddedEffect(before, last, terms, candidates, terms.run.value);
    } else {
      PinnedOrWithheld(reg, front, terms, candidates, leaf);
    }
  }

  // ---------- the values masked ----------

  /** Every value masked: released, or pinned by some run. */
  ghost function EveryValue(reg: Registry): set<string> {
    Values(reg.released) + set r, s | r in reg.pinned && s in reg.pinned[r] :: s.value
  }

  /** Those someone declared secret, in whichever table. */
  ghost function EveryExplicit(reg: Registry): set<string> {
    (set s | s in reg.released && s.explicit :: s.value)
    + set r, s | r in reg.pinned && s in reg.pinned[r] && s.explicit :: s.value
  }

  ghost function RulesOf(reg: Registry): Rules {
    Rules(EveryValue(reg), EveryExplicit(reg), EveryValue(reg))
  }

  lemma PinsAreMasked(reg: Registry, run: Run)
    ensures forall v :: Listed(PinsOf(reg, run), v) ==> v in EveryValue(reg)
    ensures forall v :: Explicit(PinsOf(reg, run), v) ==> v in EveryExplicit(reg)
  {
    forall v | Listed(PinsOf(reg, run), v) ensures v in EveryValue(reg) {
      var s :| s in PinsOf(reg, run) && s.value == v;
      assert run in reg.pinned && s in reg.pinned[run];
    }
    forall v | Explicit(PinsOf(reg, run), v) ensures v in EveryExplicit(reg) {
      assert run in reg.pinned && Secret(v, true) in reg.pinned[run];
    }
  }

  // ---------- the released part over a whole history ----------

  function FormsOfAll(leaves: seq<string>, terms: Terms, candidates: string -> seq<string>): seq<Secret> {
    if leaves == [] then []
    else
      FormsOfAll(leaves[..|leaves| - 1], terms, candidates)
      + Each(FormsOf(candidates, leaves[|leaves| - 1], Floor(terms)), terms.explicit)
  }

  function Each(forms: seq<string>, explicit: bool): seq<Secret> {
    if forms == [] then [] else Each(forms[..|forms| - 1], explicit) + [Secret(forms[|forms| - 1], explicit)]
  }

  /** What one call remembers, in order: what it registers for no run, or what a run had pinned. */
  function RememberedBy(reg: Registry, call: Call, candidates: string -> seq<string>): seq<Secret> {
    match call
    case Register(value, terms) =>
      if terms.run.Some? then []
      else FormsOfAll(Meant(value, terms), terms, candidates)
    case ReleaseRun(run) => PinsOf(reg, run)
    case Forget => []
  }

  function Trail(reg: Registry, calls: seq<Call>, candidates: string -> seq<string>): seq<Secret> {
    if calls == [] then []
    else
      var front := calls[..|calls| - 1];
      Trail(reg, front, candidates) + RememberedBy(AppliedAll(reg, front, candidates), calls[|calls| - 1], candidates)
  }

  lemma {:induction false} FiledAllReleases(reg: Registry, run: Option<Run>, forms: seq<string>, explicit: bool)
    ensures FiledAll(reg, run, forms, explicit).released
         == if run.Some? then reg.released else RememberedAll(reg.released, Each(forms, explicit))
  {
    if forms == [] {
    } else {
      FiledAllReleases(reg, run, forms[..|forms| - 1], explicit);
      var each := Each(forms, explicit);
      assert each[..|each| - 1] == Each(forms[..|forms| - 1], explicit);
    }
  }

  lemma {:induction false} LeavesAddedReleases(reg: Registry, leaves: seq<string>, terms: Terms,
      candidates: string -> seq<string>)
    ensures LeavesAdded(reg, leaves, terms, candidates).released
         == if terms.run.Some? then reg.released else RememberedAll(reg.released, FormsOfAll(leaves, terms, candidates))
  {
    if leaves == [] {
    } else {
      var front, last := leaves[..|leaves| - 1], leaves[|leaves| - 1];
      LeavesAddedReleases(reg, front, terms, candidates);
      LeafAddedReleases(LeavesAdded(reg, front, terms, candidates), last, terms, candidates);
      RememberedAllSplit(reg.released, FormsOfAll(front, terms, candidates),
                         Each(FormsOf(candidates, last, Floor(terms)), terms.explicit));
    }
  }

  lemma LeafAddedReleases(reg: Registry, leaf: string, terms: Terms, candidates: string -> seq<string>)
    ensures LeafAdded(reg, leaf, terms, candidates).released
         == if terms.run.Some? then reg.released
            else RememberedAll(reg.released, Each(FormsOf(candidates, leaf, Floor(terms)), terms.explicit))
  {
    var counted := if terms.declared && terms.run.Some? then Counted(reg, terms.run.value, leaf) else reg;
    FiledAllReleases(counted, terms.run, FormsOf(candidates, leaf, Floor(terms)), terms.explicit);
  }

  lemma AppliedReleases(reg: Registry, call: Call, candidates: string -> seq<string>)
    requires !call.Forget?
    ensures Applied(reg, call, candidates).released == RememberedAll(reg.released, RememberedBy(reg, call, candidates))
  {
    if call.Register? {
      LeavesAddedReleases(reg, Meant(call.value, call.terms), call.terms, candidates);
    }
  }

  /** Over any history the released table is the trail of what was remembered, one after another. */
  lemma {:induction false} ReleasedFollowsTheTrail(reg: Registry, calls: seq<Call>, candidates: string -> seq<string>)
    requires Forget !in calls
    ensures AppliedAll(reg, calls, candidates).released == RememberedAll(reg.released, Trail(reg, calls, candidates))
  {
    if calls == [] {
    } else {
      var front, last := calls[..|calls| - 1], calls[|calls| - 1];
      assert last in calls && forall c :: c in front ==> c in calls;
      ReleasedFollowsTheTrail(reg, front, candidates);
      var before := AppliedAll(reg, front, candidates);
      AppliedReleases(before, last, candidates);
      RememberedAllSplit(reg.released, Trail(reg, front, candidates), RememberedBy(before, last, candidates));
    }
  }

  /**
    Over any history, a value just remembered stays masked for as long as fewer than
    MAX_SECRETS distinct other values are remembered, and goes exactly then unless a run pins it.
  */
  lemma ReleasedValueIsForgottenExactlyThen(table: seq<Secret>, s: Secret, reg: Registry, calls: seq<Call>,
      candidates: string -> seq<string>)
    requires Unique(table) && |table| <= MAX_SECRETS && reg.released == Remembered(table, s)
    requires Forget !in calls && s.value !in Values(Trail(reg, calls, candidates))
    ensures var after := AppliedAll(reg, calls, candidates);
            && (Listed(after.released, s.value) <==> |Values(Trail(reg, calls, candidates))| < MAX_SECRETS)
            && (Listed(after.released, s.value) ==>
                  (Explicit(after.released, s.value) <==> s.explicit || Explicit(table, s.value)))
  {
    ReleasedFollowsTheTrail(reg, calls, candidates);
    ForgottenExactlyAfterMaxOthers(table, s, Trail(reg, calls, candidates));
  }

  // ---------- what registering a value comes to ----------

  /** A text of the value that is long enough to be a secret on these terms. */
  ghost predicate IsMeant(value: Value, terms: Terms, text: string) {
    StandsIn(text, value, terms.explicit) && |text| >= Floor(terms)
  }

  /** The text itself, or one of its spellings if it is long enough. */
  predicate Spells(candidates: string -> seq<string>, text: string, terms: Terms, s: string) {
    s == text || (s in candidates(text) && |s| >= Floor(terms))
  }

  /** `s` is a spelling of a text that is meant. */
  ghost predicate IsFiled(value: Value, terms: Terms, candidates: string -> seq<string>, s: string) {
    exists text :: IsMeant(value, terms, text) && Spells(candidates, text, terms, s)
  }

  ghost predicate AreFiled(value: Value, terms: Terms, candidates: string -> seq<string>, forms: set<string>) {
    forall s :: s in forms <==> IsFiled(value, terms, candidates, s)
  }

  /** The table holds besides what it held only what is filed, each explicit if it was or the terms say so. */
  ghost predicate OnlyFiled(before: seq<Secret>, after: seq<Secret>, value: Value, terms: Terms,
                            candidates: string -> seq<string>)
  {
    && (forall s :: Listed(after, s) ==> Listed(before, s) || IsFiled(value, terms, candidates, s))
    && (forall s :: Explicit(after, s) ==>
          Explicit(before, s) || (terms.explicit && IsFiled(value, terms, candidates, s)))
  }

  ghost predicate PinsText(reg: Registry, run: Run, terms: Terms, candidates: string -> seq<string>, text: string) {
    forall s :: Spells(candidates, text, terms, s) ==>
      Listed(PinsOf(reg, run), s) && (terms.explicit ==> Explicit(PinsOf(reg, run), s))
  }

  /** For a run: each text meant is pinned in every spelling, or handed back once the allowance is used up. */
  ghost predicate RunTakes(before: Registry, after: Registry, run: Run, value: Value, terms: Terms,
                           candidates: string -> seq<string>, withheld: seq<string>)
  {
    && after.released == before.released
    && (forall other :: other != run ==> PinsOf(after, other) == PinsOf(before, other))
    && (forall text :: IsMeant(value, terms, text) ==>
          text in withheld || PinsText(after, run, terms, candidates, text))
    && OnlyFiled(PinsOf(before, run), PinsOf(after, run), value, terms, candidates)
    && (forall text :: text in withheld ==>
          IsMeant(value, terms, text) && terms.declared && DeclaredBy(after, run) == MAX_DECLARED_PER_RUN)
  }

  /** For no run: all the spellings are listed exactly when there are no more of them than the table takes. */
  ghost predicate NoRunTakes(before: Registry, after: Registry, value: Value, terms: Terms,
                             candidates: string -> seq<string>, withheld: seq<string>)
  {
    && after.pinned == before.pinned && after.declared == before.declared && withheld == []
    && OnlyFiled(before.released, after.released, value, terms, candidates)
    && (forall forms :: AreFiled(value, terms, candidates, forms) ==>
          ((forall s :: s in forms ==> Listed(after.released, s)) <==> |forms| <= MAX_SECRETS))
    && (terms.explicit ==>
          forall s :: IsFiled(value, terms, candidates, s) && Listed(after.released, s) ==> Explicit(after.released, s))
  }

  ghost predicate Takes(before: Registry, after: Registry, value: Value, terms: Terms,
                        candidates: string -> seq<string>, withheld: seq<string>)
  {
    match terms.run
    case Some(run) => RunTakes(before, after, run, value, terms, candidates, withheld)
    case None => NoRunTakes(before, after, value, terms, candidates, withheld)
  }

  lemma MeantAre(value: Value, terms: Terms, text: string)
    ensures text in Meant(value, terms) <==> IsMeant(value, terms, text)
  {
    LeavesExactly(value, terms.explicit, text);
  }

  lemma FormsAreSpellings(candidates: string -> seq<string>, text: string, terms: Terms, s: string)
    ensures s in FormsOf(candidates, text, Floor(terms)) <==> Spells(candidates, text, terms, s)
  {
  }

  // ----- for a run -----

  /** Some leaf is spelled `s`. */
  predicate SpelledAs(leaves: seq<string>, terms: Terms, candidates: string -> seq<string>, s: string) {
    exists l :: l in leaves && Spells(candidates, l, terms, s)
  }

  lemma {:induction false} FormsArePinned(reg: Registry, run: Run, forms: seq<string>, explicit: bool, s: string)
    requires Sound(reg) && forall g :: g in forms ==> |g| >= MIN_EXPLICIT_LENGTH
    ensures var pins := PinsOf(FiledAll(reg, Some(run), forms, explicit), run);
            && (Listed(pins, s) ==> Listed(PinsOf(reg, run), s) || s in forms)
            && (Explicit(pins, s) ==> Explicit(PinsOf(reg, run), s) || (explicit && s in forms))
    ensures forall other :: other != run ==>
              PinsOf(FiledAll(reg, Some(run), forms, explicit), other) == PinsOf(reg, other)
  {
    if forms == [] {
    } else {
      var front, last := forms[..|forms| - 1], forms[|forms| - 1];
      LastOrBefore(forms, s);
      FormsArePinned(reg, run, front, explicit, s);
      FiledAllKeeps(reg, Some(run), front, explicit, run);
      PinnedToSpec(PinsOf(FiledAll(reg, Some(run), front, explicit), run), Secret(last, explicit));
    }
  }

  lemma LeafIsPinned(reg: Registry, leaf: string, terms: Terms, candidates: string -> seq<string>, run: Run, s: string)
    requires Sound(reg) && terms.run == Some(run) && |leaf| >= Floor(terms)
    ensures var pins := PinsOf(LeafAdded(reg, leaf, terms, candidates), run);
            && (Listed(pins, s) ==> Listed(PinsOf(reg, run), s) || Spells(candidates, leaf, terms, s))
            && (Explicit(pins, s) ==>
                  Explicit(PinsOf(reg, run), s) || (terms.explicit && Spells(candidates, leaf, terms, s)))
    ensures forall other :: other != run ==>
              PinsOf(LeafAdded(reg, leaf, terms, candidates), other) == PinsOf(reg, other)
  {
    var forms := FormsOf(candidates, leaf, Floor(terms));
    if TurnedAway(reg, leaf, terms) {
    } else if terms.declared {
      CountingPinsNothing(reg, run, leaf);
      SpellingsArePinned(Counted(reg, run, leaf), run, forms, leaf, terms, candidates, s);
    } else {
      SpellingsArePinned(reg, run, forms, leaf, terms, candidates, s);
    }
  }

  lemma CountingPinsNothing(reg: Registry, run: Run, leaf: string)
    requires Sound(reg) && Allowed(reg, run, leaf)
    ensures Sound(Counted(reg, run, leaf)) && Counted(reg, run, leaf).pinned == reg.pinned
    ensures forall other :: PinsOf(Counted(reg, run, leaf), other) == PinsOf(reg, other)
  {
  }

  lemma SpellingsArePinned(reg: Registry, run: Run, forms: seq<string>, leaf: string, terms: Terms,
                           candidates: string -> seq<string>, s: string)
    requires Sound(reg) && |leaf| >= Floor(terms) && forms == FormsOf(candidates, leaf, Floor(terms))
    ensures var pins := PinsOf(FiledAll(reg, Some(run), forms, terms.explicit), run);
            && (Listed(pins, s) ==> Listed(PinsOf(reg, run), s) || Spells(candidates, leaf, terms, s))
            && (Explicit(pins, s) ==>
                  Explicit(PinsOf(reg, run), s) || (terms.explicit && Spells(candidates, leaf, terms, s)))
    ensures forall other :: other != run ==>
              PinsOf(FiledAll(reg, Some(run), forms, terms.explicit), other) == PinsOf(reg, other)
  {
    FormsArePinned(reg, run, forms, terms.explicit, s);
    FormsAreSpellings(candidates, leaf, terms, s);
  }

  lemma {:induction false} LeavesArePinned(reg: Registry, leaves: seq<string>, terms: Terms,
      candidates: string -> seq<string>, run: Run, s: string)
    requires Sound(reg) && terms.run == Some(run) && forall l :: l in leaves ==> |l| >= Floor(terms)
    ensures var pins := PinsOf(LeavesAdded(reg, leaves, terms, candidates), run);
            && (Listed(pins, s) ==> Listed(PinsOf(reg, run), s) || SpelledAs(leaves, terms, candidates, s))
            && (Explicit(pins, s) ==>
                  Explicit(PinsOf(reg, run), s) || (terms.explicit && SpelledAs(leaves, terms, candidates, s)))
    ensures forall other :: other != run ==>
              PinsOf(LeavesAdded(reg, leaves, terms, candidates), other) == PinsOf(reg, other)
  {
    if leaves == [] {
    } else {
      var front, last := leaves[..|leaves| - 1], leaves[|leaves| - 1];
      Rejoined(leaves, |leaves| - 1);
      assert last in leaves && forall l :: l in front ==> l in leaves;
      LeavesArePinned(reg, front, terms, candidates, run, s);
      LeavesAddedKeeps(reg, front, terms, candidates, run);
      LeafIsPinned(LeavesAdded(reg, front, terms, candidates), last, terms, candidates, run, s);
    }
  }

  /** What is handed back came while the allowance was used up, and it stays so. */
  lemma {:induction false} WithheldAtTheLimit(reg: Registry, leaves: seq<string>, terms: Terms,
      candidates: string -> seq<string>, run: Run, text: string)
    requires Sound(reg) && terms.run == Some(run) && forall l :: l in leaves ==> |l| >= Floor(terms)
    requires text in WithheldOf(reg, leaves, terms, candidates)
    ensures text in leaves && terms.declared
    ensures DeclaredBy(LeavesAdded(reg, leaves, terms, candidates), run) == MAX_DECLARED_PER_RUN
  {
    if leaves == [] {
    } else {
      var front, last := leaves[..|leaves| - 1], leaves[|leaves| - 1];
      Rejoined(leaves, |leaves| - 1);
      assert last in leaves && forall l :: l in front ==> l in leaves;
      var before := LeavesAdded(reg, front, terms, candidates);
      LeavesAddedKeeps(reg, front, terms, candidates, run);
      LeafAddedKeeps(before, last, terms, candidates, run);
      LeafAddedEffect(before, last, terms, candidates, run);
      if text in WithheldOf(reg, front, terms, candidates) {
        WithheldAtTheLimit(reg, front, terms, candidates, run, text);
      }
    }
  }

  lemma RegisterForARun(reg: Registry, run: Run, value: Value, terms: Terms, candidates: string -> seq<string>)
    requires Sound(reg) && terms.run == Some(run)
    ensures RunTakes(reg, Applied(reg, Register(value, terms), candidates), run, value, terms, candidates,
                     WithheldOf(reg, Meant(value, terms), terms, candidates))
  {
    var leaves := Meant(value, terms);
    var after, withheld := LeavesAdded(reg, leaves, terms, candidates), WithheldOf(reg, leaves, terms, candidates);
    LeavesAddedReleases(reg, leaves, terms, candidates);
    LeavesArePinned(reg, leaves, terms, candidates, run, "");
    forall text | IsMeant(value, terms, text)
      ensures text in withheld || PinsText(after, run, terms, candidates, text)
    {
      MeantArePinned(reg, run, value, terms, candidates, text);
    }
    OnlyMeantArePinned(reg, run, value, terms, candidates);
    forall text | text in withheld
      ensures IsMeant(value, terms, text) && terms.declared && DeclaredBy(after, run) == MAX_DECLARED_PER_RUN
    {
      WithheldAtTheLimit(reg, leaves, terms, candidates, run, text);
      MeantAre(value, terms, text);
    }
  }

  lemma MeantArePinned(reg: Registry, run: Run, value: Value, terms: Terms, candidates: string -> seq<string>,
                       text: string)
    requires Sound(reg) && terms.run == Some(run) && IsMeant(value, terms, text)
    ensures text in WithheldOf(reg, Meant(value, terms), terms, candidates)
            || PinsText(LeavesAdded(reg, Meant(value, terms), terms, candidates), run, terms, candidates, text)
  {
    MeantAre(value, terms, text);
    PinnedOrWithheld(reg, Meant(value, terms), terms, candidates, text);
    forall s ensures s in FormsOf(candidates, text, Floor(terms)) <==> Spells(candidates, text, terms, s) {
      FormsAreSpellings(candidates, text, terms, s);
    }
  }

  lemma OnlyMeantArePinned(reg: Registry, run: Run, value: Value, terms: Terms, candidates: string -> seq<string>)
    requires Sound(reg) && terms.run == Some(run)
    ensures OnlyFiled(PinsOf(reg, run), PinsOf(LeavesAdded(reg, Meant(value, terms), terms, candidates), run),
                      value, terms, candidates)
  {
    forall s
      ensures var pins := PinsOf(LeavesAdded(reg, Meant(value, terms), terms, candidates), run);
              && (Listed(pins, s) ==> Listed(PinsOf(reg, run), s) || IsFiled(value, terms, candidates, s))
              && (Explicit(pins, s) ==>
                    Explicit(PinsOf(reg, run), s) || (terms.explicit && IsFiled(value, terms, candidates, s)))
    {
      LeavesArePinned(reg, Meant(value, terms), terms, candidates, run, s);
      SpelledIsFiled(value, terms, candidates, s);
    }
  }

  lemma SpelledIsFiled(value: Value, terms: Terms, candidates: string -> seq<string>, s: string)
    ensures SpelledAs(Meant(value, terms), terms, candidates, s) <==> IsFiled(value, terms, candidates, s)
  {
    if text :| text in Meant(value, terms) && Spells(candidates, text, terms, s) {
      MeantAre(value, terms, text);
    }
    if text :| IsMeant(value, terms, text) && Spells(candidates, text, terms, s) {
      MeantAre(value, terms, text);
    }
  }

  // ----- for no run -----

  lemma {:induction false} EachIs(forms: seq<string>, explicit: bool)
    ensures forall x :: x in Each(forms, explicit) <==> x.explicit == explicit && x.value in forms
  {
    if forms == [] {
    } else {
      EachIs(forms[..|forms| - 1], explicit);
      Rejoined(forms, |forms| - 1);
    }
  }

  lemma {:induction false} FormsOfAllAre(leaves: seq<string>, terms: Terms, candidates: string -> seq<string>,
      x: Secret)
    ensures x in FormsOfAll(leaves, terms, candidates)
       <==> x.explicit == terms.explicit && SpelledAs(leaves, terms, candidates, x.value)
  {
    if leaves == [] {
    } else {
      var front, last := leaves[..|leaves| - 1], leaves[|leaves| - 1];
      FormsOfAllAre(front, terms, candidates, x);
      SpelledOneMore(leaves, terms, candidates, x.value);
      EachSpelling(candidates, last, terms, x);
    }
  }

  lemma EachSpelling(candidates: string -> seq<string>, text: string, terms: Terms, x: Secret)
    ensures x in Each(FormsOf(candidates, text, Floor(terms)), terms.explicit)
       <==> x.explicit == terms.explicit && Spells(candidates, text, terms, x.value)
  {
    EachIs(FormsOf(candidates, text, Floor(terms)), terms.explicit);
    FormsAreSpellings(candidates, text, terms, x.value);
  }

  lemma SpelledOneMore(leaves: seq<string>, terms: Terms, candidates: string -> seq<string>, s: string)
    requires leaves != []
    ensures SpelledAs(leaves, terms, candidates, s)
       <==> SpelledAs(leaves[..|leaves| - 1], terms, candidates, s)
              || Spells(candidates, leaves[|leaves| - 1], terms, s)
  {
    Rejoined(leaves, |leaves| - 1);
    assert leaves[|leaves| - 1] in leaves;
  }

  lemma {:induction false} PinnedStays(reg: Registry, leaves: seq<string>, terms: Terms,
      candidates: string -> seq<string>)
    requires terms.run.None?
    ensures var after := LeavesAdded(reg, leaves, terms, candidates);
            after.pinned == reg.pinned && after.declared == reg.declared
    ensures WithheldOf(reg, leaves, terms, candidates) == []
  {
    if leaves == [] {
    } else {
      var front, last := leaves[..|leaves| - 1], leaves[|leaves| - 1];
      PinnedStays(reg, front, terms, candidates);
      FiledAllStays(LeavesAdded(reg, front, terms, candidates), FormsOf(candidates, last, Floor(terms)),
                    terms.explicit);
    }
  }

  lemma {:induction false} FiledAllStays(reg: Registry, forms: seq<string>, explicit: bool)
    ensures var after := FiledAll(reg, None, forms, explicit);
            after.pinned == reg.pinned && after.declared == reg.declared
  {
    if forms == [] {
    } else {
      FiledAllStays(reg, forms[..|forms| - 1], explicit);
    }
  }

  lemma TrailIsFiled(value: Value, terms: Terms, candidates: string -> seq<string>, s: string)
    ensures var trail := FormsOfAll(Meant(value, terms), terms, candidates);
            && (s in Values(trail) <==> IsFiled(value, terms, candidates, s))
            && (Secret(s, true) in trail <==> terms.explicit && IsFiled(value, terms, candidates, s))
            && forall x :: x in trail ==> x.explicit == terms.explicit
  {
    var trail := FormsOfAll(Meant(value, terms), terms, candidates);
    forall x ensures x in trail <==>
               x.explicit == terms.explicit && SpelledAs(Meant(value, terms), terms, candidates, x.value) {
      FormsOfAllAre(Meant(value, terms), terms, candidates, x);
    }
    SpelledIsFiled(value, terms, candidates, s);
    assert IsFiled(value, terms, candidates, s) ==> Secret(s, terms.explicit) in trail;
  }

  lemma RegisterForNoRun(reg: Registry, value: Value, terms: Terms, candidates: string -> seq<string>)
    requires Sound(reg) && terms.run.None?
    ensures NoRunTakes(reg, Applied(reg, Register(value, terms), candidates), value, terms, candidates,
                       WithheldOf(reg, Meant(value, terms), terms, candidates))
  {
    var after := Applied(reg, Register(value, terms), candidates);
    var trail := FormsOfAll(Meant(value, terms), terms, candidates);
    PinnedStays(reg, Meant(value, terms), terms, candidates);
    LeavesAddedReleases(reg, Meant(value, terms), terms, candidates);
    RememberedAllBounded(reg.released, trail);
    forall s
      ensures Listed(after.released, s) ==> Listed(reg.released, s) || IsFiled(value, terms, candidates, s)
      ensures Explicit(after.released, s) ==>
                Explicit(reg.released, s) || (terms.explicit && IsFiled(value, terms, candidates, s))
      ensures terms.explicit && IsFiled(value, terms, candidates, s) && Listed(after.released, s) ==>
                Explicit(after.released, s)
    {
      TrailIsFiled(value, terms, candidates, s);
      OnlySaid(reg.released, trail, s);
      if s in Values(trail) {
        ListedBehind(reg.released, trail, s);
      }
    }
    forall forms | AreFiled(value, terms, candidates, forms)
      ensures (forall s :: s in forms ==> Listed(after.released, s)) <==> |forms| <= MAX_SECRETS
    {
      FiledAreTheTrail(value, terms, candidates, forms);
      AllListedExactly(reg.released, trail);
    }
  }

  lemma FiledAreTheTrail(value: Value, terms: Terms, candidates: string -> seq<string>, forms: set<string>)
    requires AreFiled(value, terms, candidates, forms)
    ensures forms == Values(FormsOfAll(Meant(value, terms), terms, candidates))
  {
    forall s ensures s in forms <==> s in Values(FormsOfAll(Meant(value, terms), terms, candidates)) {
      TrailIsFiled(value, terms, candidates, s);
    }
  }

  /**
    Registering files the texts that stand in a value and are long enough, in every spelling, and
    nothing else: the keys of its mappings are not filed, numbers only on explicit terms.
  */
  lemma RegisteringTakes(reg: Registry, value: Value, terms: Terms, candidates: string -> seq<string>)
    requires Sound(reg)
    ensures Takes(reg, Applied(reg, Register(value, terms), candidates), value, terms, candidates,
                  WithheldOf(reg, Meant(value, terms), terms, candidates))
  {
    match terms.run
    case Some(run) => RegisterForARun(reg, run, value, terms, candidates);
    case None => RegisterForNoRun(reg, value, terms, candidates);
  }

  // ---------- the registry as the program keeps it ----------

  predicate On(every: map<string, bool>, v: string) { v in every && every[v] }

  function Ons(every: map<string, bool>): set<string> { set v | v in every && On(every, v) }

  /** `every` maps what `secrets` holds, and only that, to whether `explicit` holds it. */
  ghost predicate Maps(every: map<string, bool>, secrets: set<string>, explicit: set<string>) {
    && every.Keys == secrets
    && forall v :: On(every, v) <==> v in explicit
  }

  /** `c` is the compiled form of the registry's values; there is none where there are none. */
  ghost predicate Coherent(c: Option<Compiled>, reg: Registry) {
    if c.None? then EveryValue(reg) == {} else CompiledFor(c.value, RulesOf(reg))
  }

  method Merge(every: map<string, bool>, table: seq<Secret>) returns (merged: map<string, bool>)
    ensures forall v :: v in merged <==> v in every || Listed(table, v)
    ensures forall v :: On(merged, v) <==> On(every, v) || Explicit(table, v)
  {
    merged := every;
    for i := 0 to |table|
      invariant forall v :: v in merged <==> v in every || Listed(table[..i], v)
      invariant forall v :: On(merged, v) <==> On(every, v) || Explicit(table[..i], v)
    {
      var s := table[i];
      ghost var before := merged;
      merged := merged[s.value := On(merged, s.value) || s.explicit];
      assert table[..i + 1] == table[..i] + [s] && s == Secret(s.value, s.explicit);
      forall v ensures On(merged, v) <==> On(before, v) || s == Secret(v, true) {
      }
    }
    assert table[..|table|] == table;
  }

  /** The values of every table, each explicit where any of them says so. */
  method Gather(reg: Registry) returns (every: map<string, bool>)
    ensures Maps(every, EveryValue(reg), EveryExplicit(reg))
  {
    every := Merge(map[], reg.released);
    var left := reg.pinned.Keys;
    while left != {}
      invariant left <= reg.pinned.Keys
      invariant forall v :: v in every <==>
                  Listed(reg.released, v) || exists r :: r in reg.pinned.Keys - left && Listed(reg.pinned[r], v)
      invariant forall v :: On(every, v) <==>
                  Explicit(reg.released, v) || exists r :: r in reg.pinned.Keys - left && Explicit(reg.pinned[r], v)
      decreases |left|
    {
      var run :| run in left;
      every := Merge(every, reg.pinned[run]);
      left := left - {run};
    }
    forall v ensures v in every <==> v in EveryValue(reg) {
      ListedMeansValue(reg, v);
    }
  }

  lemma ListedMeansValue(reg: Registry, v: string)
    ensures v in EveryValue(reg) <==> Listed(reg.released, v) || exists r :: r in reg.pinned && Listed(reg.pinned[r], v)
    ensures v in EveryExplicit(reg) <==>
        Explicit(reg.released, v) || exists r :: r in reg.pinned && Explicit(reg.pinned[r], v)
  {
  }

  method Compile(every: map<string, bool>, parserTakes: Regex -> bool) returns (c: Option<Compiled>)
    ensures c.None? <==> every == map[]
    ensures c.Some? ==> CompiledFor(c.value, Rules(every.Keys, Ons(every), every.Keys))
  {
    var pattern := PatternFor(every.Keys, parserTakes);
    if pattern.None? {
      return None;
    }
    var ordered := SortedLongestFirst(every.Keys);
    var cuts := CutPrefixes(ordered);
    assert (set w | w in ordered) == every.Keys;
    var longest := 0;
    for i := 0 to |ordered|
      invariant forall j :: 0 <= j < i ==> |ordered[j]| <= longest
    {
      if |ordered[i]| > longest { longest := |ordered[i]|; }
    }
    forall w | w in every.Keys ensures |w| <= longest {
      assert w in ordered;
    }
    return Some(Compiled(pattern.value, Ons(every), cuts, longest));
  }

  lemma FiledOneMore(reg: Registry, run: Option<Run>, forms: seq<string>, i: nat, explicit: bool)
    requires i < |forms|
    ensures FiledAll(reg, run, forms[..i + 1], explicit)
         == Filed(FiledAll(reg, run, forms[..i], explicit), run, Secret(forms[i], explicit))
  {
    TakeOneMore(forms, i);
  }

  lemma LeavesOneMore(reg: Registry, leaves: seq<string>, i: nat, terms: Terms, candidates: string -> seq<string>)
    requires i < |leaves|
    ensures var before := LeavesAdded(reg, leaves[..i], terms, candidates);
            && LeavesAdded(reg, leaves[..i + 1], terms, candidates) == LeafAdded(before, leaves[i], terms, candidates)
            && WithheldOf(reg, leaves[..i + 1], terms, candidates)
               == WithheldOf(reg, leaves[..i], terms, candidates)
                 + (if TurnedAway(before, leaves[i], terms) then [leaves[i]] else [])
  {
    TakeOneMore(leaves, i);
  }

  lemma RememberedOneMore(table: seq<Secret>, pins: seq<Secret>, i: nat)
    requires i < |pins|
    ensures RememberedAll(table, pins[..i + 1]) == Remembered(RememberedAll(table, pins[..i]), pins[i])
  {
    TakeOneMore(pins, i);
  }

  class Store {
    var released: seq<Secret>
    var pinned: map<Run, seq<Secret>>
    var declared: map<Run, nat>
    var compiled: Option<Compiled>
    var stale: bool
    const candidates: string -> seq<string>
    const parserTakes: Regex -> bool

    ghost function State(): Registry
      reads this
    {
      Registry(released, pinned, declared)
    }

    /** Unless it is stale, the compiled form is the one of the values masked now. */
    ghost predicate Valid()
      reads this
    {
      Sound(State()) && (!stale ==> Coherent(compiled, State()))
    }

    constructor (candidates: string -> seq<string>, parserTakes: Regex -> bool)
      ensures Valid() && State() == EMPTY_REGISTRY
    {
      released, pinned, declared := [], map[], map[];
      compiled, stale := None, false;
      this.candidates, this.parserTakes := candidates, parserTakes;
    }

    method Remember(s: Secret)
      modifies this`released
      ensures released == Remembered(old(released), s)
    {
      released := Without(released, s.value) + [Secret(s.value, s.explicit || Explicit(released, s.value))];
      ghost var all := released;
      while |released| > MAX_SECRETS
        invariant |released| <= |all| && released == all[|all| - |released|..]
        invariant |all| <= MAX_SECRETS ==> released == all
        invariant |all| >= MAX_SECRETS ==> |released| >= MAX_SECRETS
      {
        released := released[1..];
      }
    }

    method Register(value: Value, terms: Terms) returns (withheld: seq<string>)
      requires Valid()
      modifies this
      ensures Valid() && State() == Applied(old(State()), Call.Register(value, terms), candidates)
      ensures withheld == WithheldOf(old(State()), Meant(value, terms), terms, candidates)
      ensures Takes(old(State()), State(), value, terms, candidates, withheld)
    {
      withheld := FileMeant(value, terms);
      RegisteringTakes(old(State()), value, terms, candidates);
    }

    method FileMeant(value: Value, terms: Terms) returns (withheld: seq<string>)
      requires Valid()
      modifies this
      ensures Valid() && State() == Applied(old(State()), Call.Register(value, terms), candidates)
      ensures withheld == WithheldOf(old(State()), Meant(value, terms), terms, candidates)
    {
      var leaves := Meant(value, terms);
      if leaves == [] {
        return [];
      }
      LeavesAddedKeeps(State(), leaves, terms, candidates, "");
      withheld := AddLeaves(leaves, terms);
      stale := true;
    }

    method AddLeaves(leaves: seq<string>, terms: Terms) returns (withheld: seq<string>)
      modifies this`released, this`pinned, this`declared
      ensures State() == LeavesAdded(old(State()), leaves, terms, candidates)
      ensures withheld == WithheldOf(old(State()), leaves, terms, candidates)
    {
      withheld := [];
      for i := 0 to |leaves|
        invariant State() == LeavesAdded(old(State()), leaves[..i], terms, candidates)
        invariant withheld == WithheldOf(old(State()), leaves[..i], terms, candidates)
      {
        LeavesOneMore(old(State()), leaves, i, terms, candidates);
        var away := AddLeaf(leaves[i], terms);
        if away { withheld := withheld + [leaves[i]]; }
      }
      assert leaves[..|leaves|] == leaves;
    }

    method AddLeaf(leaf: string, terms: Terms) returns (away: bool)
      modifies this`released, this`pinned, this`declared
      ensures away == TurnedAway(old(State()), leaf, terms)
      ensures State() == LeafAdded(old(State()), leaf, terms, candidates)
    {
      if terms.declared && terms.run.Some? {
        if !Allowed(Registry(released, pinned, declared), terms.run.value, leaf) {
          return true;
        }
        var counted := Counted(Registry(released, pinned, declared), terms.run.value, leaf);
        declared := counted.declared;
      }
      File(FormsOf(candidates, leaf, Floor(terms)), terms.run, terms.explicit);
      return false;
    }

    method File(forms: seq<string>, run: Option<Run>, explicit: bool)
      modifies this`released, this`pinned
      ensures State() == FiledAll(old(State()), run, forms, explicit)
    {
      for i := 0 to |forms|
        invariant State() == FiledAll(old(State()), run, forms[..i], explicit)
      {
        FiledOneMore(old(State()), run, forms, i, explicit);
        var s := Secret(forms[i], explicit);
        match run
        case Some(r) => pinned := pinned[r := PinnedTo(if r in pinned then pinned[r] else [], s)];
        case None => Remember(s);
      }
      assert forms[..|forms|] == forms;
    }

    method ReleaseRun(run: Run)
      requires Valid()
      modifies this
      ensures Valid() && State() == Applied(old(State()), Call.ReleaseRun(run), candidates)
      ensures released == RememberedAll(old(released), if run in old(pinned) then old(pinned)[run] else [])
      ensures run !in pinned && run !in declared
      ensures forall other :: other != run ==>
                PinsOf(State(), other) == PinsOf(old(State()), other)
                  && DeclaredBy(State(), other) == DeclaredBy(old(State()), other)
    {
      var pins := if run in pinned then pinned[run] else [];
      pinned := pinned - {run};
      for i := 0 to |pins|
        invariant released == RememberedAll(old(released), pins[..i])
        invariant pinned == old(pinned) - {run} && declared == old(declared)
      {
        RememberedOneMore(old(released), pins, i);
        Remember(pins[i]);
      }
      assert pins[..|pins|] == pins;
      declared := declared - {run};
      AppliedKeeps(old(State()), Call.ReleaseRun(run), candidates, "");
      stale := true;
    }

    method ForgetAll()
      modifies this
      ensures Valid() && State() == EMPTY_REGISTRY
    {
      released, pinned, declared := [], map[], map[];
      compiled, stale := None, false;
    }

    /** Gathers and compiles again where something was filed since, and else hands out what it has. */
    method Current() returns (c: Option<Compiled>)
      requires Valid()
      modifies this`compiled, this`stale
      ensures Valid() && !stale && State() == old(State())
      ensures Coherent(c, State())
    {
      if stale {
        var every := Gather(Registry(released, pinned, declared));
        compiled := Compile(every, parserTakes);
        assert Ons(every) == EveryExplicit(State());
        stale := false;
      }
      return compiled;
    }

    /** Masking through the lazily compiled form is masking with the plain sets of the registry. */
    method Mask(v: Value) returns (masked: Value)
      requires Valid() && WellKeyed(v)
      modifies this`compiled, this`stale
      ensures Valid() && State() == old(State())
      ensures "" !in EveryValue(State()) && masked == Masked(RulesOf(State()), v)
    {
      NoEmptySecret(State());
      var c := Current();
      if c.None? {
        NothingMasked(v);
        assert EveryExplicit(State()) <= EveryValue(State());
        assert RulesOf(State()) == Rules({}, {}, {});
        return v;
      }
      masked := MaskValue(v, c.value, RulesOf(State()));
    }
  }

  lemma NoEmptySecret(reg: Registry)
    requires Sound(reg)
    ensures "" !in EveryValue(reg)
  {
  }
}
