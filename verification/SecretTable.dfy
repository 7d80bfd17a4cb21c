/**
  An insertion-ordered table of secrets, bounded from its oldest end (logging/masking.py).
*/
module SecretTable {
  import opened Sequences

  const MAX_SECRETS: nat := 4096

  /** A remembered value and whether someone declared it secret. */
  datatype Secret = Secret(value: string, explicit: bool)

  predicate Explicit(table: seq<Secret>, v: string) { Secret(v, true) in table }

  predicate Listed(table: seq<Secret>, v: string) { Explicit(table, v) || Secret(v, false) in table }

  predicate Unique(table: seq<Secret>) {
    forall i, j :: 0 <= i < j < |table| ==> table[i].value != table[j].value
  }

  /** The table without `v`. */
  function Without(table: seq<Secret>, v: string): seq<Secret> {
    if table == [] then []
    else if table[0].value == v then Without(table[1..], v)
    else [table[0]] + Without(table[1..], v)
  }

  lemma {:induction false} WithoutSpec(table: seq<Secret>, v: string)
    ensures |Without(table, v)| <= |table|
    ensures forall x :: x in Without(table, v) <==> x in table && x.value != v
    ensures Unique(table) ==> Unique(Without(table, v))
  {
    if table == [] {
    } else {
      var rest := Without(table[1..], v);
      WithoutSpec(table[1..], v);
      assert forall x :: x in table <==> x == table[0] || x in table[1..];
      HeadAndTail(table[0], rest);
      if Unique(table) {
        forall i | 0 <= i < |rest| ensures rest[i].value != table[0].value {
          assert rest[i] in rest;
        }
      }
    }
  }

  /** Remembering moves a value to the newest place, and the oldest goes past the bound. */
  function Remembered(table: seq<Secret>, s: Secret): seq<Secret> {
    Bounded(Without(table, s.value) + [Secret(s.value, s.explicit || Explicit(table, s.value))])
  }

  /** The newest MAX_SECRETS entries. */
  function Bounded(table: seq<Secret>): seq<Secret> {
    if |table| > MAX_SECRETS then table[|table| - MAX_SECRETS..] else table
  }

  /** Pinning keeps a value where it is, explicit from the first time it was said to be. */
  function PinnedTo(pins: seq<Secret>, s: Secret): seq<Secret> {
    if pins == [] then [s]
    else if pins[0].value == s.value then [Secret(s.value, pins[0].explicit || s.explicit)] + pins[1..]
    else [pins[0]] + PinnedTo(pins[1..], s)
  }

  lemma {:induction false} PinnedToSpec(pins: seq<Secret>, s: Secret)
    requires Unique(pins)
    ensures Unique(PinnedTo(pins, s))
    ensures forall v :: Listed(PinnedTo(pins, s), v) <==> Listed(pins, v) || v == s.value
    ensures forall v :: Explicit(PinnedTo(pins, s), v) <==> Explicit(pins, v) || s == Secret(v, true)
  {
    if pins == [] {
    } else {
      assert pins == [pins[0]] + pins[1..];
      if pins[0].value != s.value {
        PinnedToSpec(pins[1..], s);
        var rest := PinnedTo(pins[1..], s);
        forall i | 0 <= i < |rest| ensures rest[i].value != pins[0].value {
          assert rest[i] in rest && Listed(rest, rest[i].value);
          assert forall x :: x in pins[1..] ==> x.value != pins[0].value;
        }
        forall v ensures Listed(PinnedTo(pins, s), v) <==> Listed(pins, v) || v == s.value {
          assert forall e :: e in PinnedTo(pins, s) <==> e == pins[0] || e in rest;
          assert Listed(rest, v) <==> Listed(pins[1..], v) || v == s.value;
        }
      } else {
        assert forall x :: x in pins[1..] ==> x.value != pins[0].value;
      }
    }
  }

  // ---------- the bound: exactly MAX_SECRETS newer values evict one ----------

  ghost function Values(table: seq<Secret>): set<string> { set s | s in table :: s.value }

  lemma {:induction false} UniqueCount(table: seq<Secret>)
    requires Unique(table)
    ensures |Values(table)| == |table|
  {
    if table == [] {
    } else {
      var front, last := table[..|table| - 1], table[|table| - 1];
      UniqueCount(front);
      assert table == front + [last];
      assert Values(table) == Values(front) + {last.value};
      assert last.value !in Values(front);
    }
  }

  lemma {:induction false} WithoutJoined(a: seq<Secret>, b: seq<Secret>, v: string)
    ensures Without(a + b, v) == Without(a, v) + Without(b, v)
  {
    if a == [] {
      assert a + b == b;
    } else {
      assert (a + b)[1..] == a[1..] + b;
      WithoutJoined(a[1..], b, v);
    }
  }

  lemma RememberedStaysUnique(table: seq<Secret>, s: Secret)
    requires Unique(table) && |table| <= MAX_SECRETS
    ensures Unique(Remembered(table, s)) && |Remembered(table, s)| <= MAX_SECRETS
    ensures Remembered(table, s)[|Remembered(table, s)| - 1] == Secret(s.value, s.explicit || Explicit(table, s.value))
    ensures forall x :: x in Remembered(table, s) ==>
              x in table || x == Secret(s.value, s.explicit || Explicit(table, s.value))
  {
    WithoutSpec(table, s.value);
    var rest := Without(table, s.value);
    forall i | 0 <= i < |rest| ensures rest[i].value != s.value {
      assert rest[i] in rest;
    }
  }

  /** `v` is in the table, and exactly the values `newer` were remembered after it. */
  ghost predicate Behind(table: seq<Secret>, v: Secret, newer: set<string>) {
    exists at :: 0 <= at < |table| && table[at] == v && Values(table[at + 1..]) == newer
  }

  /** The newest entries once `x` has moved behind them. */
  lemma Joined(newer: seq<Secret>, last: Secret)
    requires Unique(newer)
    ensures Unique(Without(newer, last.value) + [last])
    ensures Values(Without(newer, last.value) + [last]) == Values(newer) + {last.value}
    ensures |Without(newer, last.value) + [last]| == |Values(newer) + {last.value}|
  {
    WithoutSpec(newer, last.value);
    var rest := Without(newer, last.value);
    forall i | 0 <= i < |rest| ensures rest[i].value != last.value {
      assert rest[i] in rest;
    }
    forall y | y in newer && y.value != last.value ensures y in rest + [last] {
      assert y in rest;
    }
    assert Values(rest + [last]) == Values(newer) + {last.value};
    UniqueCount(rest + [last]);
  }

  lemma BehindAbove(below: seq<Secret>, v: Secret, above: seq<Secret>)
    ensures Behind(below + [v] + above, v, Values(above))
  {
    var all := below + [v] + above;
    assert all[|below|] == v && all[|below| + 1..] == above;
  }

  /** The bound takes `v` exactly when MAX_SECRETS entries are newer. */
  lemma Evicted(below: seq<Secret>, v: Secret, above: seq<Secret>)
    requires |below| + |above| <= MAX_SECRETS
    requires forall y :: y in above ==> y.value != v.value
    ensures var after := Bounded(below + [v] + above);
            if |above| < MAX_SECRETS then Behind(after, v, Values(above)) else !Listed(after, v.value)
  {
    var kept := below + [v] + above;
    if |kept| <= MAX_SECRETS {
      BehindAbove(below, v, above);
    } else if below != [] {
      assert kept[1..] == below[1..] + [v] + above;
      BehindAbove(below[1..], v, above);
    } else {
      assert kept[1..] == above;
    }
  }

  lemma Around(table: seq<Secret>, i: nat)
    requires Unique(table) && i < |table|
    ensures table == table[..i] + [table[i]] + table[i + 1..] && Unique(table[i + 1..])
    ensures forall y :: y in table[i + 1..] ==> y.value != table[i].value
  {
  }

  /** One more value remembered: those newer than `v` are joined by it, and the bound may take `v`. */
  lemma NewerGrows(table: seq<Secret>, v: Secret, newer: set<string>, x: Secret)
    requires Unique(table) && |table| <= MAX_SECRETS && v.value != x.value && Behind(table, v, newer)
    ensures if |newer + {x.value}| < MAX_SECRETS then Behind(Remembered(table, x), v, newer + {x.value})
            else !Listed(Remembered(table, x), v.value)
  {
    var i :| 0 <= i < |table| && table[i] == v && Values(table[i + 1..]) == newer;
    Around(table, i);
    GrowsAround(table[..i], v, table[i + 1..], Secret(x.value, x.explicit || Explicit(table, x.value)));
  }

  lemma GrowsAround(older: seq<Secret>, v: Secret, young: seq<Secret>, last: Secret)
    requires Unique(young) && |older| + |young| < MAX_SECRETS && v.value != last.value
    requires forall y :: y in young ==> y.value != v.value
    ensures var after := Bounded(Without(older + [v] + young, last.value) + [last]);
            if |Values(young) + {last.value}| < MAX_SECRETS then Behind(after, v, Values(young) + {last.value})
            else !Listed(after, v.value)
  {
    Joined(young, last);
    WithoutAround(older, v, young, last.value);
    WithoutSpec(young, last.value);
    var below, above := Without(older, last.value), Without(young, last.value) + [last];
    Appended(below, [v], Without(young, last.value), [last]);
    Evicted(below, v, above);
  }

  lemma Appended(a: seq<Secret>, b: seq<Secret>, c: seq<Secret>, d: seq<Secret>)
    ensures a + b + c + d == a + b + (c + d)
  {
  }

  lemma WithoutAround(older: seq<Secret>, v: Secret, young: seq<Secret>, x: string)
    requires v.value != x
    ensures Without(older + [v] + young, x) == Without(older, x) + [v] + Without(young, x)
    ensures |Without(older, x)| <= |older|
  {
    WithoutSpec(older, x);
    WithoutJoined(older + [v], young, x);
    WithoutJoined(older, [v], x);
    assert [v][1..] == [];
  }

  /** Values remembered one after another. */
  function RememberedAll(table: seq<Secret>, trail: seq<Secret>): seq<Secret> {
    if trail == [] then table
    else Remembered(RememberedAll(table, trail[..|trail| - 1]), trail[|trail| - 1])
  }

  lemma {:induction false} RememberedAllBounded(table: seq<Secret>, trail: seq<Secret>)
    requires Unique(table) && |table| <= MAX_SECRETS
    ensures Unique(RememberedAll(table, trail)) && |RememberedAll(table, trail)| <= MAX_SECRETS
    ensures forall v :: Listed(RememberedAll(table, trail), v) ==> Listed(table, v) || v in Values(trail)
  {
    if trail == [] {
    } else {
      var front, last := trail[..|trail| - 1], trail[|trail| - 1];
      assert trail == front + [last];
      RememberedAllBounded(table, front);
      RememberedStaysUnique(RememberedAll(table, front), last);
      assert last in trail && forall x :: x in front ==> x in trail;
    }
  }

  lemma RememberedAllSplit(table: seq<Secret>, a: seq<Secret>, b: seq<Secret>)
    ensures RememberedAll(table, a + b) == RememberedAll(RememberedAll(table, a), b)
    decreases |b|
  {
    if b == [] {
      assert a + b == a;
    } else {
      assert (a + b)[..|a + b| - 1] == a + b[..|b| - 1];
      RememberedAllSplit(table, a, b[..|b| - 1]);
    }
  }

  /** Until the bound takes it, what was remembered since is exactly what is newer. */
  lemma {:induction false} NewerAreTheTrail(table: seq<Secret>, v: Secret, trail: seq<Secret>)
    requires Unique(table) && |table| <= MAX_SECRETS && v.value !in Values(trail)
    requires table != [] && table[|table| - 1] == v
    ensures if |Values(trail)| < MAX_SECRETS then Behind(RememberedAll(table, trail), v, Values(trail))
            else !Listed(RememberedAll(table, trail), v.value)
  {
    if trail == [] {
      assert table[|table|..] == [];
    } else {
      var front, last := trail[..|trail| - 1], trail[|trail| - 1];
      assert trail == front + [last];
      assert Values(trail) == Values(front) + {last.value};
      NewerAreTheTrail(table, v, front);
      var before := RememberedAll(table, front);
      RememberedAllBounded(table, front);
      RememberedStaysUnique(before, last);
      if |Values(front)| < MAX_SECRETS {
        NewerGrows(before, v, Values(front), last);
      } else {
        assert Values(front) <= Values(trail);
        SmallerCount(Values(front), Values(trail));
      }
    }
  }

  lemma SmallerCount<T>(a: set<T>, b: set<T>)
    requires a <= b
    ensures |a| <= |b|
  {
    assert b == a + (b - a);
  }

  /**
    A released value is forgotten exactly when MAX_SECRETS distinct other values were
    remembered since, however often each was; until then it keeps what was said of it.
  */
  lemma ForgottenExactlyAfterMaxOthers(table: seq<Secret>, s: Secret, trail: seq<Secret>)
    requires Unique(table) && |table| <= MAX_SECRETS && s.value !in Values(trail)
    ensures var after := RememberedAll(Remembered(table, s), trail);
            && (Listed(after, s.value) <==> |Values(trail)| < MAX_SECRETS)
            && (Listed(after, s.value) ==> (Explicit(after, s.value) <==> s.explicit || Explicit(table, s.value)))
  {
    var start, v := Remembered(table, s), Secret(s.value, s.explicit || Explicit(table, s.value));
    RememberedStaysUnique(table, s);
    RememberedAllBounded(start, trail);
    NewerAreTheTrail(start, v, trail);
    if |Values(trail)| < MAX_SECRETS {
      assert v in RememberedAll(start, trail);
    }
  }

  // ---------- the table after any trail ----------

  /** The values remembered since `v` was last, all of them where it never was. */
  ghost function SinceLast(trail: seq<Secret>, v: string): set<string> {
    if trail == [] then {}
    else
      var last := trail[|trail| - 1].value;
      if last == v then {} else SinceLast(trail[..|trail| - 1], v) + {last}
  }

  /** A trail up to where `v` was remembered last, and behind it. */
  lemma {:induction false} LastTime(trail: seq<Secret>, v: string) returns (n: nat)
    requires v in Values(trail)
    ensures n < |trail| && trail[n].value == v
    ensures v !in Values(trail[n + 1..]) && SinceLast(trail, v) == Values(trail[n + 1..])
  {
    var front, last := trail[..|trail| - 1], trail[|trail| - 1];
    if last.value == v {
      n := |trail| - 1;
      assert trail[n + 1..] == [] && Values([]) == {};
    } else {
      FrontHasIt(trail, v);
      n := LastTime(front, v);
      assert trail[n] == front[n];
      TailOneMore(trail, n + 1);
      assert SinceLast(trail, v) == Values(front[n + 1..]) + {last.value} == Values(trail[n + 1..]);
    }
  }

  lemma FrontHasIt(trail: seq<Secret>, v: string)
    requires v in Values(trail) && trail[|trail| - 1].value != v
    ensures v in Values(trail[..|trail| - 1])
  {
    var i :| 0 <= i < |trail| && trail[i].value == v;
    assert trail[..|trail| - 1][i] == trail[i];
  }

  lemma TailOneMore(trail: seq<Secret>, n: nat)
    requires n < |trail|
    ensures Values(trail[n..]) == Values(trail[..|trail| - 1][n..]) + {trail[|trail| - 1].value}
  {
    var front, last := trail[..|trail| - 1], trail[|trail| - 1];
    assert trail[n..] == front[n..] + [last];
    assert forall x :: x in trail[n..] <==> x in front[n..] || x == last;
  }

  /** Whatever the table held before, a value of the trail is listed, with its flag, while few were remembered since. */
  lemma ListedBehind(table: seq<Secret>, trail: seq<Secret>, v: string)
    requires Unique(table) && |table| <= MAX_SECRETS && v in Values(trail)
    ensures Listed(RememberedAll(table, trail), v) <==> |SinceLast(trail, v)| < MAX_SECRETS
    ensures (forall x :: x in trail ==> x.explicit) && Listed(RememberedAll(table, trail), v) ==>
              Explicit(RememberedAll(table, trail), v)
  {
    var n := LastTime(trail, v);
    var before := RememberedAll(table, trail[..n]);
    RememberedAllBounded(table, trail[..n]);
    ForgottenExactlyAfterMaxOthers(before, trail[n], trail[n + 1..]);
    TakeOneMore(trail, n);
    RememberedAllSplit(table, trail[..n + 1], trail[n + 1..]);
    Rejoined(trail, n + 1);
    assert trail[n] in trail;
  }

  lemma OthersSince(trail: seq<Secret>, v: string)
    requires v in Values(trail)
    ensures |SinceLast(trail, v)| < |Values(trail)|
  {
    var n := LastTime(trail, v);
    assert Values(trail[n + 1..]) <= Values(trail) - {v};
    SmallerCount(SinceLast(trail, v), Values(trail) - {v});
  }

  /** All of a trail is listed in the end exactly when it has no more values than the table takes. */
  lemma AllListedExactly(table: seq<Secret>, trail: seq<Secret>)
    requires Unique(table) && |table| <= MAX_SECRETS
    ensures (forall v :: v in Values(trail) ==> Listed(RememberedAll(table, trail), v))
       <==> |Values(trail)| <= MAX_SECRETS
  {
    var after := RememberedAll(table, trail);
    RememberedAllBounded(table, trail);
    if |Values(trail)| <= MAX_SECRETS {
      forall v | v in Values(trail) ensures Listed(after, v) {
        OthersSince(trail, v);
        ListedBehind(table, trail, v);
      }
    } else if forall v :: v in Values(trail) ==> Listed(after, v) {
      UniqueCount(after);
      forall v | v in Values(trail) ensures v in Values(after) {
        ListedIsAValue(after, v);
      }
      SmallerCount(Values(trail), Values(after));
    }
  }

  lemma ListedIsAValue(table: seq<Secret>, v: string)
    ensures Listed(table, v) <==> v in Values(table)
  {
    if s :| s in table && s.value == v {
      assert s == Secret(v, true) || s == Secret(v, false);
    }
  }

  /** Remembering says of a value only what was said of it before or in the trail. */
  lemma {:induction false} OnlySaid(table: seq<Secret>, trail: seq<Secret>, v: string)
    requires Unique(table) && |table| <= MAX_SECRETS
    ensures Explicit(RememberedAll(table, trail), v) ==> Explicit(table, v) || Secret(v, true) in trail
  {
    if trail == [] {
    } else {
      var front, last := trail[..|trail| - 1], trail[|trail| - 1];
      LastOrBefore(trail, Secret(v, true));
      OnlySaid(table, front, v);
      RememberedAllBounded(table, front);
      if last.value == v {
        RememberedKeepsTheFlag(RememberedAll(table, front), last);
      } else {
        OthersKeepTheFlag(RememberedAll(table, front), last, v);
      }
    }
  }

  /** A value is listed exactly when it was remembered and fewer than MAX_SECRETS others were since. */
  lemma ListedExactly(trail: seq<Secret>, v: string)
    ensures Listed(RememberedAll([], trail), v) <==> v in Values(trail) && |SinceLast(trail, v)| < MAX_SECRETS
  {
    RememberedAllBounded([], trail);
    if v in Values(trail) {
      ListedBehind([], trail, v);
    }
  }

  /** From its `n`th entry on, at no moment did MAX_SECRETS others follow the last `v`. */
  ghost predicate StaysFrom(trail: seq<Secret>, v: string, n: nat) {
    forall j :: n <= j <= |trail| ==> StaysAt(trail, v, j)
  }

  ghost predicate StaysAt(trail: seq<Secret>, v: string, j: nat)
    requires j <= |trail|
  {
    |SinceLast(trail[..j], v)| < MAX_SECRETS
  }

  /** Once it was remembered as explicit and never pushed out since. */
  ghost predicate SaidSince(trail: seq<Secret>, v: string) {
    exists i :: 0 <= i < |trail| && trail[i] == Secret(v, true) && StaysFrom(trail, v, i + 1)
  }

  /** Another value remembered changes nothing about `v` but that it may be pushed out. */
  lemma OthersKeepTheFlag(table: seq<Secret>, s: Secret, v: string)
    requires Unique(table) && |table| <= MAX_SECRETS && s.value != v
    ensures Explicit(Remembered(table, s), v) <==> Explicit(table, v) && Listed(Remembered(table, s), v)
  {
    RememberedStaysUnique(table, s);
    assert Secret(v, false) in Remembered(table, s) ==> Secret(v, false) in table;
    OneEntryEach(table, v);
  }

  lemma OneEntryEach(table: seq<Secret>, v: string)
    requires Unique(table)
    ensures !(Secret(v, true) in table && Secret(v, false) in table)
  {
  }

  lemma RememberedKeepsTheFlag(table: seq<Secret>, s: Secret)
    requires Unique(table) && |table| <= MAX_SECRETS
    ensures Explicit(Remembered(table, s), s.value) <==> s.explicit || Explicit(table, s.value)
  {
    RememberedStaysUnique(table, s);
    var after := Remembered(table, s);
    assert after[|after| - 1] in after;
    if Explicit(after, s.value) {
      var i :| 0 <= i < |after| && after[i] == Secret(s.value, true);
      assert i == |after| - 1;
    }
  }

  lemma StaysOneMore(trail: seq<Secret>, v: string, n: nat)
    requires trail != [] && n <= |trail| - 1
    ensures StaysFrom(trail, v, n) <==> StaysFrom(trail[..|trail| - 1], v, n) && |SinceLast(trail, v)| < MAX_SECRETS
  {
    var front := trail[..|trail| - 1];
    assert trail[..|trail|] == trail;
    forall j | n <= j <= |front| ensures StaysAt(trail, v, j) <==> StaysAt(front, v, j) {
      assert trail[..j] == front[..j];
    }
    if StaysFrom(trail, v, n) {
      forall j | n <= j <= |front| ensures StaysAt(front, v, j) {
        assert StaysAt(trail, v, j);
      }
      assert StaysAt(trail, v, |trail|);
    }
  }

  /** How the last entry decides what was said since. */
  lemma SaidOneMore(trail: seq<Secret>, v: string)
    requires trail != []
    ensures var front, last := trail[..|trail| - 1], trail[|trail| - 1];
            SaidSince(trail, v) <==>
              (last == Secret(v, true)) || (SaidSince(front, v) && |SinceLast(trail, v)| < MAX_SECRETS)
  {
    var front, last := trail[..|trail| - 1], trail[|trail| - 1];
    if last == Secret(v, true) {
      assert trail[..|trail|] == trail;
      assert StaysFrom(trail, v, |trail|);
    } else if SaidSince(trail, v) {
      var i :| 0 <= i < |trail| && trail[i] == Secret(v, true) && StaysFrom(trail, v, i + 1);
      StaysOneMore(trail, v, i + 1);
      assert front[i] == trail[i];
    } else if SaidSince(front, v) {
      var i :| 0 <= i < |front| && front[i] == Secret(v, true) && StaysFrom(front, v, i + 1);
      StaysOneMore(trail, v, i + 1);
      assert trail[i] == front[i];
    }
  }

  /** A value is explicit exactly when someone said so and it was not pushed out since, however often it came again. */
  lemma {:induction false} ExplicitExactly(trail: seq<Secret>, v: string)
    ensures Explicit(RememberedAll([], trail), v) <==> SaidSince(trail, v)
  {
    if trail == [] {
    } else {
      var front, last := trail[..|trail| - 1], trail[|trail| - 1];
      var before := RememberedAll([], front);
      ExplicitExactly(front, v);
      RememberedAllBounded([], front);
      SaidOneMore(trail, v);
      if last.value == v {
        RememberedKeepsTheFlag(before, last);
      } else {
        OthersKeepTheFlag(before, last, v);
        ListedExactly(trail, v);
        ListedExactly(front, v);
        Rejoined(trail, |trail| - 1);
        assert Values(trail) == Values(front) + {last.value};
      }
    }
  }
}
