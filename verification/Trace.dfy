/**
  The execution trace: what an event's data is written as, the id it gets, and the events
  of a run in their order (logging/trace.py).
*/
module Trace {
  import opened Sequences
  import opened Masking
  import opened Pointers

  // ---------- the written form ----------

  /** A value as the trace writes it: models and moments replaced, and no field that is null. */
  function Jsonable(v: Value): Value
    decreases v, 0
  {
    match v
    case Model(dump) => Jsonable(dump)
    case Moment(written) => Text(written)
    case Listing(items) => Listing(JsonableAll(items))
    case Mapping(entries) => Mapping(JsonableEntries(entries))
    case _ => v
  }

  function JsonableAll(items: seq<Value>): (all: seq<Value>)
    ensures |all| == |items|
    decreases items, 1
  {
    if items == [] then [] else [Jsonable(items[0])] + JsonableAll(items[1..])
  }

  function JsonableEntries(entries: seq<Entry>): seq<Entry>
    decreases entries, 1
  {
    if entries == [] then []
    else (if entries[0].value.Null? then [] else [JsonableEntry(entries[0])]) + JsonableEntries(entries[1..])
  }

  function JsonableEntry(e: Entry): Entry
    decreases e, 0
  {
    Entry(e.key, Jsonable(e.value))
  }

  /** No mapping in `v` has a model in it that dumps to nothing at all. */
  predicate DumpsToSomething(v: Value)
    decreases v, 0
  {
    match v
    case Model(dump) => DumpsToSomething(dump)
    case Listing(items) => AllDumpToSomething(items)
    case Mapping(entries) => FieldsDumpToSomething(entries)
    case _ => true
  }

  predicate AllDumpToSomething(items: seq<Value>)
    decreases items, 1
  {
    items != [] ==> DumpsToSomething(items[0]) && AllDumpToSomething(items[1..])
  }

  predicate FieldsDumpToSomething(entries: seq<Entry>)
    decreases entries, 1
  {
    entries != [] ==> FieldDumpsToSomething(entries[0]) && FieldsDumpToSomething(entries[1..])
  }

  predicate FieldDumpsToSomething(e: Entry)
    decreases e, 0
  {
    e.value.Null? || (DumpsToSomething(e.value) && !Jsonable(e.value).Null?)
  }

  /** Coercing twice is coercing once, exactly where no model in a field dumps to nothing. */
  lemma {:induction false} JsonableAgainExactly(v: Value)
    ensures Jsonable(Jsonable(v)) == Jsonable(v) <==> DumpsToSomething(v)
    decreases v, 0
  {
    match v
    case Model(dump) => JsonableAgainExactly(dump);
    case Listing(items) => AllAgainExactly(items);
    case Mapping(entries) => FieldsAgainExactly(entries);
    case _ =>
  }

  /** A field with a model that dumps to nothing: written once it is null, written twice it is gone. */
  lemma ModelOfNothingIsDropped(key: Value)
    ensures Jsonable(Mapping([Entry(key, Model(Null))])) == Mapping([Entry(key, Null)])
    ensures Jsonable(Mapping([Entry(key, Null)])) == Mapping([])
  {
    assert [Entry(key, Model(Null))][1..] == [] && [Entry(key, Null)][1..] == [];
    assert JsonableEntries([Entry(key, Model(Null))]) == [JsonableEntry(Entry(key, Model(Null)))] + [];
    assert JsonableEntries([Entry(key, Null)]) == [] + [];
  }

  lemma {:induction false} AllAgainExactly(items: seq<Value>)
    ensures JsonableAll(JsonableAll(items)) == JsonableAll(items) <==> AllDumpToSomething(items)
    decreases items, 1
  {
    if items == [] {
    } else {
      JsonableAgainExactly(items[0]);
      AllAgainExactly(items[1..]);
      var first, rest := Jsonable(items[0]), JsonableAll(items[1..]);
      assert ([first] + rest)[1..] == rest;
      SameFirst([Jsonable(first)], JsonableAll(rest), [first], rest);
    }
  }

  lemma SameFirst<T>(a: seq<T>, b: seq<T>, c: seq<T>, d: seq<T>)
    requires |a| == |c| == 1
    ensures a + b == c + d <==> a[0] == c[0] && b == d
  {
    assert (a + b)[0] == a[0] && (a + b)[1..] == b;
    assert (c + d)[0] == c[0] && (c + d)[1..] == d;
    if a[0] == c[0] { assert a == c; }
  }

  lemma {:induction false} FieldsShrink(entries: seq<Entry>)
    ensures |JsonableEntries(entries)| <= |entries|
    decreases |entries|
  {
    if entries == [] {
    } else {
      FieldsShrink(entries[1..]);
    }
  }

  lemma {:induction false} FieldsAgainExactly(entries: seq<Entry>)
    ensures JsonableEntries(JsonableEntries(entries)) == JsonableEntries(entries) <==> FieldsDumpToSomething(entries)
    decreases entries, 1
  {
    if entries == [] {
    } else {
      FieldsAgainExactly(entries[1..]);
      var rest := JsonableEntries(entries[1..]);
      if entries[0].value.Null? {
        assert JsonableEntries(entries) == rest;
      } else {
        FieldAgainExactly(entries[0]);
        var first := JsonableEntry(entries[0]);
        assert ([first] + rest)[1..] == rest;
        FieldsShrink(rest);
        if !first.value.Null? {
          SameFirst([JsonableEntry(first)], JsonableEntries(rest), [first], rest);
        }
      }
    }
  }

  lemma {:induction false} FieldAgainExactly(e: Entry)
    ensures Jsonable(Jsonable(e.value)) == Jsonable(e.value) <==> DumpsToSomething(e.value)
    decreases e, 0
  {
    JsonableAgainExactly(e.value);
  }

  // ---------- masking the written form ----------

  /** The written form of an event's data: coerced, then masked. */
  ghost function EventData(rules: Rules, v: Value): Value
    requires "" !in rules.secrets
  {
    Masked(rules, Jsonable(v))
  }

  /** Nothing in `v` is coerced any more. */
  predicate Written(v: Value) { Jsonable(v) == v }

  lemma {:induction false} AllWritten(items: seq<Value>)
    ensures JsonableAll(items) == items <==> forall x :: x in items ==> Written(x)
    decreases |items|
  {
    if items == [] {
    } else {
      AllWritten(items[1..]);
      assert items == [items[0]] + items[1..] && items[0] in items;
      assert forall x :: x in items <==> x == items[0] || x in items[1..];
      SameFirst([Jsonable(items[0])], JsonableAll(items[1..]), [items[0]], items[1..]);
    }
  }

  lemma {:induction false} FieldsWritten(entries: seq<Entry>)
    ensures JsonableEntries(entries) == entries <==> forall e :: e in entries ==> !e.value.Null? && Written(e.value)
    decreases |entries|
  {
    if entries == [] {
    } else {
      FieldsWritten(entries[1..]);
      FieldsShrink(entries[1..]);
      assert entries == [entries[0]] + entries[1..];
      if !entries[0].value.Null? {
        SameFirst([JsonableEntry(entries[0])], JsonableEntries(entries[1..]), [entries[0]], entries[1..]);
      }
    }
  }

  /** Masking a written form leaves it one: it makes no field empty and no text a model. */
  lemma {:induction false} MaskedStaysWritten(rules: Rules, v: Value)
    requires "" !in rules.secrets && Written(v)
    ensures Written(Masked(rules, v)) && (!v.Null? ==> !Masked(rules, v).Null?)
    decreases v
  {
    match v
    case Listing(items) =>
      AllWritten(items);
      MaskedAllSpec(rules, items);
      forall x | x in MaskedAll(rules, items) ensures Written(x) {
        var i :| 0 <= i < |items| && x == Masked(rules, items[i]);
        assert items[i] in items;
        MaskedStaysWritten(rules, items[i]);
      }
      AllWritten(MaskedAll(rules, items));
    case Mapping(entries) =>
      FieldsWritten(entries);
      MaskedEntriesSpec(rules, entries);
      var all := MaskedEntries(rules, entries);
      forall i | 0 <= i < |entries| ensures !all[i].value.Null? && Written(all[i].value) {
        assert entries[i] in entries;
        MaskedStaysWritten(rules, entries[i].value);
      }
      KeyedEach(all, (e: Entry) => !e.value.Null? && Written(e.value));
      FieldsWritten(Keyed(all));
    case Model(dump) =>
      NotItsOwnDump(v);
      assert false;
    case _ =>
  }

  lemma {:induction false} NotItsOwnDump(v: Value)
    ensures !Jsonable(v).Model?
    decreases v
  {
    if !v.Model? {
    } else {
      NotItsOwnDump(v.dump);
    }
  }

  /** Writing again what was written changes nothing. */
  lemma EventDataAgain(rules: Rules, v: Value)
    requires PlainRules(rules) && DumpsToSomething(v)
    ensures EventData(rules, EventData(rules, v)) == EventData(rules, v)
  {
    JsonableAgainExactly(v);
    MaskedStaysWritten(rules, Jsonable(v));
    MaskedAgain(rules, Jsonable(v));
  }

  // ---------- occurrences ----------

  const OCCURRENCE: string := "occurrence"

  /** The payload with the number `n` in it, for the `n`th event that is like it in all else. */
  function Marked(payload: Value, n: nat): Value
    requires payload.Mapping?
  {
    Mapping(Put(payload.entries, Entry(Text(OCCURRENCE), Number(Decimal(n)))))
  }

  /** `data` is the payload but for the field that says which occurrence it is. */
  ghost predicate SaysItsNumber(payload: Value, n: nat, data: Value)
    requires payload.Mapping?
  {
    && data.Mapping? && DistinctKeys(data.entries)
    && forall e :: e in data.entries <==>
         e == Entry(Text("occurrence"), Number(Decimal(n))) || (e in payload.entries && e.key != Text("occurrence"))
  }

  lemma MarkedSaysItsNumber(payload: Value, n: nat)
    requires payload.Mapping? && DistinctKeys(payload.entries)
    ensures SaysItsNumber(payload, n, Marked(payload, n))
  {
    var mark := Entry(Text(OCCURRENCE), Number(Decimal(n)));
    PutSpec(payload.entries, mark);
    forall e ensures e in Marked(payload, n).entries <==> e == mark || (e in payload.entries && e.key != mark.key) {
      PutExactly(payload.entries, mark, e);
    }
  }

  /** Neither the field's name nor the number is a secret. */
  ghost predicate LeavesOccurrence(rules: Rules, n: nat)
    requires "" !in rules.secrets
  {
    TextMasked(rules, OCCURRENCE) == OCCURRENCE && Decimal(n) !in rules.numbers
  }

  /** Explicit secrets have at least four characters, so a number of up to three digits is none. */
  lemma SmallOccurrencesAreNoSecret(rules: Rules, n: nat)
    requires n < 1000 && forall v :: v in rules.numbers ==> |v| >= 4
    ensures Decimal(n) !in rules.numbers
  {
    if n >= 10 {
      assert |Decimal(n)| == 1 + |Decimal(n / 10)|;
      if n >= 100 {
        assert |Decimal(n / 10)| == 1 + |Decimal(n / 10 / 10)|;
      }
    }
  }

  lemma {:induction false} PutEach(entries: seq<Entry>, e: Entry, ok: Entry -> bool)
    requires ok(e) && forall i :: 0 <= i < |entries| ==> ok(entries[i])
    ensures forall i :: 0 <= i < |Put(entries, e)| ==> ok(Put(entries, e)[i])
  {
    if entries == [] || entries[0].key == e.key {
    } else {
      PutEach(entries[1..], e, ok);
    }
  }

  lemma KeyedOfMasked(rules: Rules, v: Value)
    requires "" !in rules.secrets && v.Mapping?
    ensures DistinctKeys(Masked(rules, v).entries)
  {
    KeyedSpec(MaskedEntries(rules, v.entries));
  }

  /** Marking a written, masked payload leaves it written and masked. */
  lemma MarkedStays(rules: Rules, payload: Value, n: nat)
    requires "" !in rules.secrets && payload.Mapping? && DistinctKeys(payload.entries)
    requires Written(payload) && Masked(rules, payload) == payload && LeavesOccurrence(rules, n)
    ensures Written(Marked(payload, n)) && Masked(rules, Marked(payload, n)) == Marked(payload, n)
    ensures DistinctKeys(Marked(payload, n).entries)
  {
    PutSpec(payload.entries, Entry(Text(OCCURRENCE), Number(Decimal(n))));
    MarkedStaysWritten(payload, n);
    MarkedStaysMasked(rules, payload, n);
  }

  lemma MarkedStaysWritten(payload: Value, n: nat)
    requires payload.Mapping? && DistinctKeys(payload.entries) && Written(payload)
    ensures Written(Marked(payload, n))
  {
    var mark := Entry(Text(OCCURRENCE), Number(Decimal(n)));
    PutSpec(payload.entries, mark);
    FieldsWritten(payload.entries);
    FieldsWritten(Put(payload.entries, mark));
  }

  lemma MarkedStaysMasked(rules: Rules, payload: Value, n: nat)
    requires "" !in rules.secrets && payload.Mapping? && DistinctKeys(payload.entries)
    requires Masked(rules, payload) == payload && LeavesOccurrence(rules, n)
    ensures Masked(rules, Marked(payload, n)) == Marked(payload, n)
  {
    var mark := Entry(Text(OCCURRENCE), Number(Decimal(n)));
    var marked := Put(payload.entries, mark);
    PutSpec(payload.entries, mark);
    EachMasked(rules, payload.entries);
    MarkIsMasked(rules, n);
    PutEach(payload.entries, mark, (e: Entry) => MaskedEntry(rules, e) == e);
    EntriesStay(rules, marked);
  }

  lemma MarkIsMasked(rules: Rules, n: nat)
    requires "" !in rules.secrets && LeavesOccurrence(rules, n)
    ensures var mark := Entry(Text(OCCURRENCE), Number(Decimal(n)));
            MaskedEntry(rules, mark) == mark
  {
  }

  lemma EntriesStay(rules: Rules, entries: seq<Entry>)
    requires "" !in rules.secrets && DistinctKeys(entries)
    requires forall i :: 0 <= i < |entries| ==> MaskedEntry(rules, entries[i]) == entries[i]
    ensures Masked(rules, Mapping(entries)) == Mapping(entries)
  {
    MaskedEntriesSpec(rules, entries);
    assert MaskedEntries(rules, entries) == entries;
    KeyedStays(entries);
  }

  /** A mapping that masking leaves alone is made of entries masking leaves alone. */
  lemma EachMasked(rules: Rules, entries: seq<Entry>)
    requires "" !in rules.secrets && Masked(rules, Mapping(entries)) == Mapping(entries)
    ensures forall i :: 0 <= i < |entries| ==> MaskedEntry(rules, entries[i]) == entries[i]
  {
    var all := MaskedEntries(rules, entries);
    MaskedEntriesSpec(rules, entries);
    KeyedLength(all);
    KeyedWhole(all);
  }

  lemma {:induction false} PutLength(entries: seq<Entry>, e: Entry)
    ensures |Put(entries, e)| <= |entries| + 1
    ensures |Put(entries, e)| == |entries| + 1 ==> Put(entries, e) == entries + [e]
  {
    if entries == [] || entries[0].key == e.key {
    } else {
      PutLength(entries[1..], e);
      assert entries == [entries[0]] + entries[1..];
    }
  }

  lemma {:induction false} KeyedLength(entries: seq<Entry>)
    ensures |Keyed(entries)| <= |entries|
  {
    if entries == [] {
    } else {
      KeyedLength(entries[..|entries| - 1]);
      PutLength(Keyed(entries[..|entries| - 1]), entries[|entries| - 1]);
    }
  }

  /** A dictionary as long as the entries it was built from is those entries. */
  lemma {:induction false} KeyedWhole(entries: seq<Entry>)
    ensures |Keyed(entries)| == |entries| ==> Keyed(entries) == entries
  {
    if entries == [] {
    } else {
      var front, last := entries[..|entries| - 1], entries[|entries| - 1];
      KeyedLength(front);
      PutLength(Keyed(front), last);
      KeyedWhole(front);
      assert entries == front + [last];
    }
  }

  // ---------- ids ----------

  function Joined(scope: seq<string>): string {
    if scope == [] then "" else scope[0] + "/" + Joined(scope[1..])
  }

  /** The id of an event: where it comes from, what it is, and the digest of what it says. */
  function IdOf(tck: string, scope: seq<string>, eventType: string, digest: string): string {
    (if tck == "" then "tck" else tck) + "/" + Joined(scope) + eventType + "/" + digest
  }

  lemma IdTellsDigests(tck: string, scope: seq<string>, eventType: string, a: string, b: string)
    ensures IdOf(tck, scope, eventType, a) == IdOf(tck, scope, eventType, b) ==> a == b
  {
    var p := (if tck == "" then "tck" else tck) + "/" + Joined(scope) + eventType + "/";
    assert (p + a)[|p|..] == a && (p + b)[|p|..] == b;
    assert IdOf(tck, scope, eventType, a) == p + a && IdOf(tck, scope, eventType, b) == p + b;
  }

  /** What an id is made of: the name of the test kit, the scope, the type and the digest. */
  function PartsOf(tck: string, scope: seq<string>, eventType: string, digest: string): seq<string> {
    [if tck == "" then "tck" else tck] + scope + [eventType, digest]
  }

  ghost predicate NoSlash(parts: seq<string>) { forall i :: 0 <= i < |parts| ==> '/' !in parts[i] }

  /** The parts, each cut at its slashes. */
  function Pieces(parts: seq<string>): seq<string> {
    if parts == [] then [] else Split(parts[0], '/') + Pieces(parts[1..])
  }

  lemma {:induction false} SplitTwo(a: string, b: string)
    ensures Split(a + "/" + b, '/') == Split(a, '/') + Split(b, '/')
  {
    if a == "" {
      assert a + "/" + b == "/" + b && ("/" + b)[1..] == b;
    } else {
      SplitTwo(a[1..], b);
      assert (a + "/" + b)[1..] == a[1..] + "/" + b;
      Regrouped(a[0] == '/', a[0], Split(a[1..], '/'), Split(b, '/'));
    }
  }

  /** One character in front of pieces: a cut, or part of the first of them. */
  function InFront(cut: bool, c: char, pieces: seq<string>): seq<string>
    requires pieces != []
  {
    if cut then [""] + pieces else [[c] + pieces[0]] + pieces[1..]
  }

  lemma Regrouped(cut: bool, c: char, a: seq<string>, b: seq<string>)
    requires a != []
    ensures InFront(cut, c, a + b) == InFront(cut, c, a) + b
  {
    assert (a + b)[1..] == a[1..] + b;
  }

  lemma {:induction false} PiecesJoined(parts: seq<string>, others: seq<string>)
    ensures Pieces(parts + others) == Pieces(parts) + Pieces(others)
  {
    if parts == [] {
      assert parts + others == others;
    } else {
      JoinedDrop(parts, others, 1);
      PiecesJoined(parts[1..], others);
      Associates(Split(parts[0], '/'), Pieces(parts[1..]), Pieces(others));
    }
  }

  lemma {:induction false} SplitJoined(scope: seq<string>, rest: string)
    ensures Split(Joined(scope) + rest, '/') == Pieces(scope) + Split(rest, '/')
  {
    if scope == [] {
      assert Joined(scope) + rest == rest && Pieces(scope) + Split(rest, '/') == Split(rest, '/');
    } else {
      SplitJoined(scope[1..], rest);
      SplitTwo(scope[0], Joined(scope[1..]) + rest);
      Associates(scope[0] + "/", Joined(scope[1..]), rest);
      Associates(Split(scope[0], '/'), Pieces(scope[1..]), Split(rest, '/'));
    }
  }

  lemma OnePiece(part: string)
    ensures Pieces([part]) == Split(part, '/')
  {
    assert [part][1..] == [];
  }

  /** Cutting an id at its slashes gives its parts cut at theirs. */
  lemma IdInPieces(tck: string, scope: seq<string>, eventType: string, digest: string)
    ensures Split(IdOf(tck, scope, eventType, digest), '/') == Pieces(PartsOf(tck, scope, eventType, digest))
  {
    var name, rest := if tck == "" then "tck" else tck, eventType + "/" + digest;
    SplitTwo(eventType, digest);
    SplitJoined(scope, rest);
    SplitTwo(name, Joined(scope) + rest);
    SamePlaces(name + "/", Joined(scope), eventType, "/", digest);
    PiecesJoined([name] + scope, [eventType, digest]);
    PiecesJoined([name], scope);
    PiecesJoined([eventType], [digest]);
    assert [eventType] + [digest] == [eventType, digest];
    OnePiece(name);
    OnePiece(eventType);
    OnePiece(digest);
    Associates(Split(name, '/'), Pieces(scope), Split(rest, '/'));
  }

  lemma SamePlaces(a: string, b: string, c: string, d: string, e: string)
    ensures a + b + c + d + e == a + (b + (c + d + e))
  {
  }

  lemma {:induction false} SplitTellsTexts(s: string, t: string)
    requires Split(s, '/') == Split(t, '/')
    ensures s == t
  {
    if s == "" || t == "" {
      SplitIsEmpty(s);
      SplitIsEmpty(t);
    } else {
      var p, q := Split(s[1..], '/'), Split(t[1..], '/');
      assert Split(s, '/') == InFront(s[0] == '/', s[0], p) && Split(t, '/') == InFront(t[0] == '/', t[0], q);
      SameInFront(s[0] == '/', s[0], p, t[0] == '/', t[0], q);
      SplitTellsTexts(s[1..], t[1..]);
      assert s == [s[0]] + s[1..] && t == [t[0]] + t[1..];
    }
  }

  lemma SplitIsEmpty(s: string)
    ensures Split(s, '/') == [""] <==> s == ""
  {
    if s != "" {
      assert |InFront(s[0] == '/', s[0], Split(s[1..], '/'))[0]| > 0 || |Split(s, '/')| > 1;
    }
  }

  lemma SameInFront(cut: bool, c: char, p: seq<string>, cut': bool, d: char, q: seq<string>)
    requires p != [] && q != [] && InFront(cut, c, p) == InFront(cut', d, q)
    ensures cut == cut' && p == q && (!cut ==> c == d)
  {
    var a, b := InFront(cut, c, p), InFront(cut', d, q);
    assert cut ==> a[0] == "" && a[1..] == p;
    assert cut' ==> b[0] == "" && b[1..] == q;
    assert !cut ==> a[0][0] == c && a[0][1..] == p[0] && a[1..] == p[1..] && p == [p[0]] + p[1..];
    assert !cut' ==> b[0][0] == d && b[0][1..] == q[0] && b[1..] == q[1..] && q == [q[0]] + q[1..];
  }

  /** Two events have one id exactly when their names, scopes, types and digests give the same pieces in a row. */
  lemma IdsEqualExactly(tck: string, a: seq<string>, eventA: string, digestA: string,
                        b: seq<string>, eventB: string, digestB: string)
    ensures IdOf(tck, a, eventA, digestA) == IdOf(tck, b, eventB, digestB)
       <==> Pieces(PartsOf(tck, a, eventA, digestA)) == Pieces(PartsOf(tck, b, eventB, digestB))
  {
    IdInPieces(tck, a, eventA, digestA);
    IdInPieces(tck, b, eventB, digestB);
    if Pieces(PartsOf(tck, a, eventA, digestA)) == Pieces(PartsOf(tck, b, eventB, digestB)) {
      SplitTellsTexts(IdOf(tck, a, eventA, digestA), IdOf(tck, b, eventB, digestB));
    }
  }

  lemma {:induction false} WholePieces(parts: seq<string>)
    requires NoSlash(parts)
    ensures Pieces(parts) == parts
  {
    if parts == [] {
    } else {
      SplitOne(parts[0], "");
      WholePieces(parts[1..]);
      assert parts == [parts[0]] + parts[1..];
    }
  }

  /** Where no part has a slash in it, that is when they have one scope, type and digest. */
  lemma IdsTellEventsApart(tck: string, a: seq<string>, eventA: string, digestA: string,
                           b: seq<string>, eventB: string, digestB: string)
    requires NoSlash(PartsOf(tck, a, eventA, digestA)) && NoSlash(PartsOf(tck, b, eventB, digestB))
    ensures IdOf(tck, a, eventA, digestA) == IdOf(tck, b, eventB, digestB)
       <==> a == b && eventA == eventB && digestA == digestB
  {
    IdsEqualExactly(tck, a, eventA, digestA, b, eventB, digestB);
    WholePieces(PartsOf(tck, a, eventA, digestA));
    WholePieces(PartsOf(tck, b, eventB, digestB));
    if IdOf(tck, a, eventA, digestA) == IdOf(tck, b, eventB, digestB) {
      PartsTellApart(tck, a, eventA, digestA, b, eventB, digestB);
    }
  }

  lemma PartsTellApart(tck: string, a: seq<string>, eventA: string, digestA: string,
                       b: seq<string>, eventB: string, digestB: string)
    requires PartsOf(tck, a, eventA, digestA) == PartsOf(tck, b, eventB, digestB)
    ensures a == b && eventA == eventB && digestA == digestB
  {
    var p, q := PartsOf(tck, a, eventA, digestA), PartsOf(tck, b, eventB, digestB);
    assert |p| == |a| + 3 && |q| == |b| + 3;
    assert p[1..|a| + 1] == a && q[1..|b| + 1] == b;
    assert p[|a| + 1] == eventA && q[|b| + 1] == eventB;
    assert p[|a| + 2] == digestA && q[|b| + 2] == digestB;
  }

  /** A slash in a part does not tell: a scope of one name with a slash reads as a scope of two. */
  lemma SlashReadsAsTwo(tck: string, x: string, y: string, eventType: string, digest: string)
    ensures IdOf(tck, [x + "/" + y], eventType, digest) == IdOf(tck, [x, y], eventType, digest)
  {
    assert [x + "/" + y][1..] == [] && [x, y][1..] == [y] && [y][1..] == [];
    assert Joined([x + "/" + y]) == Joined([x, y]);
  }

  datatype Envelope = Envelope(id: string, eventType: string, sequence: nat, data: Value)

  /** The id anyone computes for the same event from its data. */
  ghost function EventId(tck: string, scope: seq<string>, eventType: string, data: Value, rules: Rules,
                         digest: Value -> string): string
    requires "" !in rules.secrets
  {
    IdOf(tck, scope, eventType, digest(EventData(rules, data)))
  }

  /** `data` is the payload, or the payload marked as a later occurrence. */
  ghost predicate OccurrenceOf(payload: Value, n: nat, data: Value)
    requires payload.Mapping?
  {
    if n == 1 then data == payload else n > 1 && data == Marked(payload, n)
  }

  function OccurrenceId(tck: string, scope: seq<string>, eventType: string, payload: Value, n: nat,
                        digest: Value -> string): string
    requires payload.Mapping?
  {
    IdOf(tck, scope, eventType, digest(if n <= 1 then payload else Marked(payload, n)))
  }

  /** Whether occurrence `n` of an event has an id that was not issued yet. */
  ghost predicate IsUnused(tck: string, scope: seq<string>, eventType: string, payload: Value, n: nat,
                           digest: Value -> string, issued: set<string>)
    requires payload.Mapping?
  {
    n >= 1 && OccurrenceId(tck, scope, eventType, payload, n, digest) !in issued
  }

  ghost predicate SomeUnused(tck: string, scope: seq<string>, eventType: string, payload: Value,
                             digest: Value -> string, issued: set<string>)
    requires payload.Mapping?
  {
    exists n: nat :: IsUnused(tck, scope, eventType, payload, n, digest, issued)
  }

  /** All occurrences before `n` have ids that were issued. */
  ghost predicate UsedBefore(tck: string, scope: seq<string>, eventType: string, payload: Value, n: nat,
                             digest: Value -> string, issued: set<string>)
    requires payload.Mapping?
  {
    forall m: nat :: m < n ==> !IsUnused(tck, scope, eventType, payload, m, digest, issued)
  }

  /** The digest tells the numbered occurrences up to `last` apart. */
  ghost predicate TellsApart(payload: Value, last: nat, digest: Value -> string)
    requires payload.Mapping?
  {
    forall m: nat, n: nat {:trigger Marked(payload, m), Marked(payload, n)} ::
      1 < m < n <= last ==> digest(Marked(payload, m)) != digest(Marked(payload, n))
  }

  /** The ids of the numbered occurrences up to `last`. */
  ghost function NumberedIds(tck: string, scope: seq<string>, eventType: string, payload: Value, last: nat,
                             digest: Value -> string): set<string>
    requires payload.Mapping?
  {
    if last <= 1 then {}
    else
      NumberedIds(tck, scope, eventType, payload, last - 1, digest)
      + {OccurrenceId(tck, scope, eventType, payload, last, digest)}
  }

  lemma {:induction false} NumberedIdsSpec(tck: string, scope: seq<string>, eventType: string, payload: Value,
      last: nat, digest: Value -> string, id: string)
    requires payload.Mapping? && id in NumberedIds(tck, scope, eventType, payload, last, digest)
    ensures exists n: nat :: 1 < n <= last && id == IdOf(tck, scope, eventType, digest(Marked(payload, n)))
  {
    if id == OccurrenceId(tck, scope, eventType, payload, last, digest) {
      assert id == IdOf(tck, scope, eventType, digest(Marked(payload, last)));
    } else {
      NumberedIdsSpec(tck, scope, eventType, payload, last - 1, digest, id);
    }
  }

  lemma {:induction false} AsManyIds(tck: string, scope: seq<string>, eventType: string, payload: Value, last: nat,
                                     digest: Value -> string)
    requires payload.Mapping? && last >= 1 && TellsApart(payload, last, digest)
    ensures |NumberedIds(tck, scope, eventType, payload, last, digest)| == last - 1
  {
    if last == 1 {
    } else {
      AsManyIds(tck, scope, eventType, payload, last - 1, digest);
      var id := OccurrenceId(tck, scope, eventType, payload, last, digest);
      var before := NumberedIds(tck, scope, eventType, payload, last - 1, digest);
      if id in before {
        NumberedIdsSpec(tck, scope, eventType, payload, last - 1, digest, id);
        var n: nat :| 1 < n <= last - 1 && id == IdOf(tck, scope, eventType, digest(Marked(payload, n)));
        IdTellsDigests(tck, scope, eventType, digest(Marked(payload, n)), digest(Marked(payload, last)));
      }
    }
  }

  lemma {:induction false} NoLarger(a: set<string>, b: set<string>)
    requires a <= b
    ensures |a| <= |b|
  {
    if a == {} {
    } else {
      var x :| x in a;
      NoLarger(a - {x}, b - {x});
    }
  }

  /** With the first two more occurrences than ids issued told apart, one of them is unused. */
  lemma OneIsUnused(tck: string, scope: seq<string>, eventType: string, payload: Value, digest: Value -> string,
                    issued: set<string>) returns (n: nat)
    requires payload.Mapping? && TellsApart(payload, |issued| + 2, digest)
    ensures n <= |issued| + 2 && IsUnused(tck, scope, eventType, payload, n, digest, issued)
  {
    var last := |issued| + 2;
    var ids := NumberedIds(tck, scope, eventType, payload, last, digest);
    AsManyIds(tck, scope, eventType, payload, last, digest);
    if ids <= issued {
      NoLarger(ids, issued);
      assert false;
    }
    var id :| id in ids && id !in issued;
    NumberedIdsSpec(tck, scope, eventType, payload, last, digest, id);
    n :| 1 < n <= last && id == IdOf(tck, scope, eventType, digest(Marked(payload, n)));
  }

  /** So the first unused one is among them. */
  lemma FirstIsAmongThem(tck: string, scope: seq<string>, eventType: string, payload: Value, n: nat,
                         digest: Value -> string, issued: set<string>)
    requires payload.Mapping? && UsedBefore(tck, scope, eventType, payload, n, digest, issued)
    ensures TellsApart(payload, |issued| + 2, digest) ==> n <= |issued| + 2
  {
    if TellsApart(payload, |issued| + 2, digest) {
      var m := OneIsUnused(tck, scope, eventType, payload, digest, issued);
    }
  }

  /** Marking again replaces the mark. */
  lemma {:induction false} PutTwice(entries: seq<Entry>, a: Entry, b: Entry)
    requires a.key == b.key
    ensures Put(Put(entries, a), b) == Put(entries, b)
  {
    if entries == [] || entries[0].key == a.key {
    } else {
      PutTwice(entries[1..], a, b);
      assert ([entries[0]] + Put(entries[1..], a))[1..] == Put(entries[1..], a);
    }
  }

  // ---------- the trace ----------

  class ExecutionTrace {
    const tck: string
    const digest: Value -> string
    var sequence: nat
    var issued: set<string>
    /** All envelopes so far, the latest last. */
    var written: seq<Envelope>

    /** Sequence numbers run from 1 without a gap and no two events share an id. */
    ghost predicate Valid()
      reads this
    {
      && sequence == |written|
      && (forall i :: 0 <= i < |written| ==> written[i].sequence == i + 1 && written[i].id in issued)
      && (forall i, j :: 0 <= i < j < |written| ==> written[i].id != written[j].id)
    }

    constructor (tck: string, digest: Value -> string)
      ensures Valid() && written == [] && issued == {} && this.tck == tck && this.digest == digest
    {
      this.tck, this.digest := tck, digest;
      sequence, issued, written := 0, {}, [];
    }

    /**
      Writes one event. It is numbered as the first occurrence whose id was not issued yet,
      and its id is the one its own data gives, as long as masking leaves the number alone.
    */
    method Emit(eventType: string, data: Value, scope: seq<string>, ghost rules: Rules, payload: Value)
      returns (envelope: Envelope, occurrence: nat)
      requires Valid() && data.Mapping? && "" !in rules.secrets && payload == EventData(rules, data)
      requires SomeUnused(tck, scope, eventType, payload, digest, issued)
      modifies this
      ensures Valid() && written == old(written) + [envelope] && issued == old(issued) + {envelope.id}
      ensures envelope.sequence == old(sequence) + 1 && envelope.eventType == eventType && envelope.id !in old(issued)
      ensures OccurrenceOf(payload, occurrence, envelope.data)
      ensures occurrence > 1 ==> SaysItsNumber(payload, occurrence, envelope.data)
      ensures UsedBefore(tck, scope, eventType, payload, occurrence, digest, old(issued))
      ensures occurrence == 1 || LeavesOccurrence(rules, occurrence) ==>
                PlainRules(rules) && DumpsToSomething(data) ==>
                  EventId(tck, scope, eventType, envelope.data, rules, digest) == envelope.id
      ensures DumpsToSomething(data) ==> EventId(tck, scope, eventType, envelope.data, NO_RULES, digest) == envelope.id
    {
      sequence := sequence + 1;
      var identifier, marked;
      identifier, marked, occurrence := FirstNew(eventType, scope, payload);
      issued := issued + {identifier};
      envelope := Envelope(identifier, eventType, sequence, marked);
      written := written + [envelope];
      KeyedOfMasked(rules, Jsonable(data));
      MarkedSaysItsNumber(payload, occurrence);
      DataGivesItsId(tck, scope, eventType, rules, data, occurrence, marked, digest);
      ReaderGetsItsId(tck, scope, eventType, rules, data, occurrence, marked, digest);
    }

    /** The first occurrence of an event whose id was not issued; the search ends exactly where there is one. */
    method FirstNew(eventType: string, scope: seq<string>, payload: Value) returns (identifier: string,
                    marked: Value, occurrence: nat)
      requires payload.Mapping? && SomeUnused(tck, scope, eventType, payload, digest, issued)
      ensures OccurrenceOf(payload, occurrence, marked) && identifier == IdOf(tck, scope, eventType, digest(marked))
      ensures identifier !in issued
      ensures UsedBefore(tck, scope, eventType, payload, occurrence, digest, issued)
      ensures TellsApart(payload, |issued| + 2, digest) ==> occurrence <= |issued| + 2
    {
      ghost var last: nat :| IsUnused(tck, scope, eventType, payload, last, digest, issued);
      marked := payload;
      identifier := IdOf(tck, scope, eventType, digest(marked));
      occurrence := 1;
      while identifier in issued
        invariant marked.Mapping? && OccurrenceOf(payload, occurrence, marked)
        invariant identifier == IdOf(tck, scope, eventType, digest(marked))
        invariant UsedBefore(tck, scope, eventType, payload, occurrence, digest, issued)
        decreases last - occurrence
      {
        SearchGoesOn(tck, scope, eventType, payload, occurrence, marked, last, digest, issued);
        MarkedTwice(payload, occurrence, marked);
        occurrence := occurrence + 1;
        marked := Marked(marked, occurrence);
        identifier := IdOf(tck, scope, eventType, digest(marked));
      }
      FirstIsAmongThem(tck, scope, eventType, payload, occurrence, digest, issued);
    }
  }

  /** An occurrence whose id was issued is before every unused one. */
  lemma SearchGoesOn(tck: string, scope: seq<string>, eventType: string, payload: Value, n: nat, marked: Value,
                     last: nat,
                     digest: Value -> string, issued: set<string>)
    requires payload.Mapping? && OccurrenceOf(payload, n, marked)
        && IdOf(tck, scope, eventType, digest(marked)) in issued
    requires UsedBefore(tck, scope, eventType, payload, n, digest, issued)
    requires IsUnused(tck, scope, eventType, payload, last, digest, issued)
    ensures n < last && UsedBefore(tck, scope, eventType, payload, n + 1, digest, issued)
  {
    assert OccurrenceId(tck, scope, eventType, payload, n, digest) == IdOf(tck, scope, eventType, digest(marked));
  }

  lemma MarkedTwice(payload: Value, n: nat, marked: Value)
    requires payload.Mapping? && marked.Mapping? && n >= 1 && OccurrenceOf(payload, n, marked)
    ensures Marked(marked, n + 1) == Marked(payload, n + 1)
  {
    if n > 1 {
      PutTwice(payload.entries, Entry(Text(OCCURRENCE), Number(Decimal(n))),
        Entry(Text(OCCURRENCE), Number(Decimal(n + 1))));
    }
  }

  /** The data of an envelope is its own written form. */
  lemma IdIsRecomputed(rules: Rules, data: Value, n: nat)
    requires PlainRules(rules) && data.Mapping? && DumpsToSomething(data)
    requires n > 1 ==> LeavesOccurrence(rules, n)
    ensures var payload := EventData(rules, data);
            var written := if n > 1 then Marked(payload, n) else payload;
            EventData(rules, written) == written
  {
    var payload := EventData(rules, data);
    EventDataAgain(rules, data);
    JsonableAgainExactly(data);
    MaskedStaysWritten(rules, Jsonable(data));
    MaskedAgain(rules, Jsonable(data));
    KeyedOfMasked(rules, Jsonable(data));
    if n > 1 {
      MarkedStays(rules, payload, n);
    }
  }

  /** An envelope's data gives back the id it was issued under. */
  lemma DataGivesItsId(tck: string, scope: seq<string>, eventType: string, rules: Rules, data: Value, n: nat,
                       marked: Value, digest: Value -> string)
    requires "" !in rules.secrets && data.Mapping? && OccurrenceOf(EventData(rules, data), n, marked)
    ensures PlainRules(rules) && DumpsToSomething(data) && (n > 1 ==> LeavesOccurrence(rules, n)) ==>
              EventId(tck, scope, eventType, marked, rules, digest) == IdOf(tck, scope, eventType, digest(marked))
  {
    if PlainRules(rules) && DumpsToSomething(data) && (n > 1 ==> LeavesOccurrence(rules, n)) {
      IdIsRecomputed(rules, data, n);
    }
  }

  // ---------- a reader who has no secrets registered ----------

  const NO_RULES: Rules := Rules({}, {}, {})

  lemma MarkIsWellKeyed(payload: Value, n: nat)
    requires payload.Mapping? && WellKeyed(payload)
    ensures WellKeyed(Marked(payload, n))
  {
    var mark := Entry(Text(OCCURRENCE), Number(Decimal(n)));
    var all := Put(payload.entries, mark);
    PutSpec(payload.entries, mark);
    forall i | 0 <= i < |all| ensures WellKeyed(all[i].key) && WellKeyed(all[i].value) {
      assert all[i] in all;
      if all[i] != mark {
        var j :| 0 <= j < |payload.entries| && payload.entries[j] == all[i];
      }
    }
  }

  /** The data of an envelope, masked by whatever rules, is its own written form to who masks nothing. */
  lemma ReadsAsItIs(rules: Rules, data: Value, n: nat, marked: Value)
    requires "" !in rules.secrets && data.Mapping? && DumpsToSomething(data)
    requires OccurrenceOf(EventData(rules, data), n, marked)
    ensures EventData(NO_RULES, marked) == marked
  {
    var payload := EventData(rules, data);
    JsonableAgainExactly(data);
    MaskedStaysWritten(rules, Jsonable(data));
    MaskedIsWellKeyed(rules, Jsonable(data));
    KeyedOfMasked(rules, Jsonable(data));
    if n > 1 {
      MarkedStaysWritten(payload, n);
      MarkIsWellKeyed(payload, n);
    }
    NothingMasked(marked);
  }

  /** So is its id: whoever reads the envelope computes the one it was issued under. */
  lemma ReaderGetsItsId(tck: string, scope: seq<string>, eventType: string, rules: Rules, data: Value, n: nat,
                        marked: Value, digest: Value -> string)
    requires "" !in rules.secrets && data.Mapping? && OccurrenceOf(EventData(rules, data), n, marked)
    ensures DumpsToSomething(data) ==>
              EventId(tck, scope, eventType, marked, NO_RULES, digest) == IdOf(tck, scope, eventType, digest(marked))
  {
    if DumpsToSomething(data) {
      ReadsAsItIs(rules, data, n, marked);
    }
  }
}
