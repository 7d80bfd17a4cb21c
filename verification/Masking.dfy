/**
  Masking a structured value: every string in it, keys included, and the numbers that
  print as an explicit secret (logging/masking.py).
*/
module Masking {
  import opened Sequences
  import opened SecretPattern
  import opened TextMasking
  import opened CutMasking

  /**
    A value a record holds. A number is known by how it prints, a set by its members, a
    model by its dump and a moment by how it is written.
  */
  datatype Value =
    | Text(text: string)
    | Flag(on: bool)
    | Null
    | Number(printed: string)
    | Listing(items: seq<Value>)
    | Fixed(items: seq<Value>)
    | Unordered(items: seq<Value>)
    | Mapping(entries: seq<Entry>)
    | Model(dump: Value)
    | Moment(written: string)
    | Opaque(id: int)
  datatype Entry = Entry(key: Value, value: Value)

  /** What is masked: whole secrets, numbers by their print, secrets a truncation may have cut. */
  datatype Rules = Rules(secrets: set<string>, numbers: set<string>, cuttable: set<string>)

  /** No secret is empty, and none can hold a part of the marker. */
  ghost predicate PlainRules(rules: Rules) {
    Plain(rules.secrets) && Plain(rules.cuttable)
  }

  // ---------- dictionaries ----------

  /** Assigning one key: an equal key keeps its place, a new one goes last. */
  function Put(entries: seq<Entry>, e: Entry): seq<Entry> {
    if entries == [] then [e]
    else if entries[0].key == e.key then [Entry(e.key, e.value)] + entries[1..]
    else [entries[0]] + Put(entries[1..], e)
  }

  /** A dictionary built from `entries` in order: of equal keys the last value stays. */
  function Keyed(entries: seq<Entry>): seq<Entry> {
    if entries == [] then [] else Put(Keyed(entries[..|entries| - 1]), entries[|entries| - 1])
  }

  predicate DistinctKeys(entries: seq<Entry>) {
    forall i, j :: 0 <= i < j < |entries| ==> entries[i].key != entries[j].key
  }

  lemma {:induction false} PutSpec(entries: seq<Entry>, e: Entry)
    requires DistinctKeys(entries)
    ensures DistinctKeys(Put(entries, e))
    ensures forall x :: x in Put(entries, e) ==> x in entries || x == e
    ensures (forall x :: x in entries ==> x.key != e.key) ==> Put(entries, e) == entries + [e]
  {
    if entries == [] || entries[0].key == e.key {
    } else {
      PutSpec(entries[1..], e);
      var rest := Put(entries[1..], e);
      assert forall x :: x in rest ==> x.key != entries[0].key;
      if forall x :: x in entries ==> x.key != e.key {
        assert entries == [entries[0]] + entries[1..];
      }
    }
  }

  lemma {:induction false} KeyedSpec(entries: seq<Entry>)
    ensures DistinctKeys(Keyed(entries))
    ensures forall x :: x in Keyed(entries) ==> x in entries
  {
    if entries == [] {
    } else {
      KeyedSpec(entries[..|entries| - 1]);
      PutSpec(Keyed(entries[..|entries| - 1]), entries[|entries| - 1]);
    }
  }

  lemma {:induction false} PutExactly(entries: seq<Entry>, e: Entry, x: Entry)
    requires DistinctKeys(entries)
    ensures x in Put(entries, e) <==> x == e || (x in entries && x.key != e.key)
  {
    if entries == [] {
    } else if entries[0].key == e.key {
      HeadAndTail(entries[0], entries[1..]);
      assert entries == [entries[0]] + entries[1..];
    } else {
      PutExactly(entries[1..], e, x);
      assert entries == [entries[0]] + entries[1..];
    }
  }

  /** Of the entries with one key the one given last. */
  predicate IsLast(entries: seq<Entry>, i: nat)
    requires i < |entries|
  {
    forall j :: i < j < |entries| ==> entries[j].key != entries[i].key
  }

  predicate GivenLast(entries: seq<Entry>, x: Entry) {
    exists i: nat :: i < |entries| && entries[i] == x && IsLast(entries, i)
  }

  /** A dictionary built from entries holds exactly those that no later one replaces. */
  lemma {:induction false} KeyedExactly(entries: seq<Entry>, x: Entry)
    ensures x in Keyed(entries) <==> GivenLast(entries, x)
  {
    if entries == [] {
    } else {
      var front, last := entries[..|entries| - 1], entries[|entries| - 1];
      KeyedExactly(front, x);
      KeyedSpec(front);
      PutExactly(Keyed(front), last, x);
      LastOneMore(entries, x);
    }
  }

  lemma LastOneMore(entries: seq<Entry>, x: Entry)
    requires entries != []
    ensures var front, last := entries[..|entries| - 1], entries[|entries| - 1];
            GivenLast(entries, x) <==> x == last || (GivenLast(front, x) && x.key != last.key)
  {
    var front, last := entries[..|entries| - 1], entries[|entries| - 1];
    if x == last {
      assert IsLast(entries, |entries| - 1);
    } else if GivenLast(entries, x) {
      var i: nat :| i < |entries| && entries[i] == x && IsLast(entries, i);
      assert front[i] == x && IsLast(front, i);
    } else if GivenLast(front, x) && x.key != last.key {
      var i: nat :| i < |front| && front[i] == x && IsLast(front, i);
      assert entries[i] == x && IsLast(entries, i);
    }
  }

  lemma KeyedEach(entries: seq<Entry>, ok: Entry -> bool)
    requires forall i :: 0 <= i < |entries| ==> ok(entries[i])
    ensures forall i :: 0 <= i < |Keyed(entries)| ==> ok(Keyed(entries)[i])
  {
    KeyedSpec(entries);
    forall i | 0 <= i < |Keyed(entries)| ensures ok(Keyed(entries)[i]) {
      assert Keyed(entries)[i] in entries;
    }
  }

  lemma {:induction false} KeyedStays(entries: seq<Entry>)
    requires DistinctKeys(entries)
    ensures Keyed(entries) == entries
  {
    if entries == [] {
    } else {
      var front, last := entries[..|entries| - 1], entries[|entries| - 1];
      KeyedStays(front);
      PutSpec(front, last);
      assert entries == front + [last];
    }
  }

  // ---------- the reference ----------

  ghost function TextMasked(rules: Rules, s: string): string
    requires "" !in rules.secrets
  {
    CutsMasked(rules.cuttable, SecretsMasked(rules.secrets, s))
  }

  /** Of a text: the secrets in it replaced, and then what a truncation left of others. */
  ghost predicate IsTextMasked(rules: Rules, s: string, masked: string) {
    exists scanned :: IsScanned(rules.secrets, s, scanned) && IsCutMasked(rules.cuttable, scanned, masked)
  }

  lemma TextMaskedExactly(rules: Rules, s: string, masked: string)
    requires "" !in rules.secrets
    ensures IsTextMasked(rules, s, masked) <==> masked == TextMasked(rules, s)
  {
    ScannedExactly(rules.secrets, s, SecretsMasked(rules.secrets, s));
    CutsMaskedExactly(rules.cuttable, SecretsMasked(rules.secrets, s), TextMasked(rules, s));
    if scanned :| IsScanned(rules.secrets, s, scanned) && IsCutMasked(rules.cuttable, scanned, masked) {
      ScannedExactly(rules.secrets, s, scanned);
      CutsMaskedExactly(rules.cuttable, scanned, masked);
    }
  }

  ghost function Masked(rules: Rules, v: Value): Value
    requires "" !in rules.secrets
    decreases v, 0
  {
    match v
    case Text(s) => Text(TextMasked(rules, s))
    case Number(printed) => if printed in rules.numbers then Text(MARK) else v
    case Listing(items) => Listing(MaskedAll(rules, items))
    case Fixed(items) => Fixed(MaskedAll(rules, items))
    case Mapping(entries) => Mapping(Keyed(MaskedEntries(rules, entries)))
    case _ => v
  }

  ghost function MaskedAll(rules: Rules, items: seq<Value>): (all: seq<Value>)
    requires "" !in rules.secrets
    ensures |all| == |items|
    decreases items, 1
  {
    if items == [] then [] else [Masked(rules, items[0])] + MaskedAll(rules, items[1..])
  }

  lemma {:induction false} MaskedAllSpec(rules: Rules, items: seq<Value>)
    requires "" !in rules.secrets
    ensures forall i :: 0 <= i < |items| ==> MaskedAll(rules, items)[i] == Masked(rules, items[i])
  {
    if items == [] {
    } else {
      MaskedAllSpec(rules, items[1..]);
    }
  }

  ghost function MaskedEntry(rules: Rules, e: Entry): Entry
    requires "" !in rules.secrets
    decreases e, 0
  {
    Entry(Masked(rules, e.key), Masked(rules, e.value))
  }

  ghost function MaskedEntries(rules: Rules, entries: seq<Entry>): (all: seq<Entry>)
    requires "" !in rules.secrets
    ensures |all| == |entries|
    decreases entries, 1
  {
    if entries == [] then [] else [MaskedEntry(rules, entries[0])] + MaskedEntries(rules, entries[1..])
  }

  lemma {:induction false} MaskedEntriesSpec(rules: Rules, entries: seq<Entry>)
    requires "" !in rules.secrets
    ensures forall i :: 0 <= i < |entries| ==> MaskedEntries(rules, entries)[i] == MaskedEntry(rules, entries[i])
  {
    if entries == [] {
    } else {
      MaskedEntriesSpec(rules, entries[1..]);
    }
  }

  /** No string anywhere in `v`, key or value, holds a secret; no number prints as one. */
  ghost predicate Clean(rules: Rules, v: Value)
    decreases v
  {
    match v
    case Text(s) => Free(rules.secrets, s)
    case Number(printed) => printed !in rules.numbers
    case Listing(items) => forall i :: 0 <= i < |items| ==> Clean(rules, items[i])
    case Fixed(items) => forall i :: 0 <= i < |items| ==> Clean(rules, items[i])
    case Unordered(items) => forall i :: 0 <= i < |items| ==> Clean(rules, items[i])
    case Mapping(entries) =>
      forall i :: 0 <= i < |entries| ==> Clean(rules, entries[i].key) && Clean(rules, entries[i].value)
    case Model(dump) => Clean(rules, dump)
    case Moment(written) => Free(rules.secrets, written)
    case _ => true
  }

  /** What masking does not look into, a set of values, a model or a moment, is clean already. */
  ghost predicate UnseenClean(rules: Rules, v: Value)
    decreases v
  {
    match v
    case Listing(items) => forall i :: 0 <= i < |items| ==> UnseenClean(rules, items[i])
    case Fixed(items) => forall i :: 0 <= i < |items| ==> UnseenClean(rules, items[i])
    case Unordered(_) => Clean(rules, v)
    case Model(_) => Clean(rules, v)
    case Moment(_) => Clean(rules, v)
    case Mapping(entries) =>
      forall i :: 0 <= i < |entries| ==> UnseenClean(rules, entries[i].key) && UnseenClean(rules, entries[i].value)
    case _ => true
  }

  /** Every dictionary in `v` has one entry per key. */
  ghost predicate WellKeyed(v: Value)
    decreases v
  {
    match v
    case Listing(items) => forall i :: 0 <= i < |items| ==> WellKeyed(items[i])
    case Fixed(items) => forall i :: 0 <= i < |items| ==> WellKeyed(items[i])
    case Mapping(entries) =>
      && DistinctKeys(entries)
      && forall i :: 0 <= i < |entries| ==> WellKeyed(entries[i].key) && WellKeyed(entries[i].value)
    case _ => true
  }

  // ---------- texts ----------

  lemma TextMaskedIsFree(rules: Rules, s: string)
    requires PlainRules(rules)
    ensures Free(rules.secrets, TextMasked(rules, s))
  {
    var scanned := SecretsMasked(rules.secrets, s);
    SecretsMaskedIsFree(rules.secrets, s);
    CutsMaskedCovers(rules.cuttable, scanned);
    CoveredStaysFree(rules.secrets, scanned, TextMasked(rules, s));
  }

  lemma TextMaskedAgain(rules: Rules, s: string)
    requires PlainRules(rules)
    ensures TextMasked(rules, TextMasked(rules, s)) == TextMasked(rules, s)
  {
    TextMaskedIsFree(rules, s);
    FreeStays(rules.secrets, TextMasked(rules, s));
    CutsMaskedAgain(rules.cuttable, SecretsMasked(rules.secrets, s));
  }

  lemma MarkStays(rules: Rules)
    requires PlainRules(rules)
    ensures Free(rules.secrets, MARK) && TextMasked(rules, MARK) == MARK
  {
    assert MARK[3..] == "" && MARK[0] == '*' != CUT_HEAD[0];
    StarStartsNoSecret(rules.secrets, "");
    assert Free(rules.secrets, "");
    AfterMarkFree(rules.secrets, MARK);
    FreeStays(rules.secrets, MARK);
    assert FirstCut(MARK) == 3;
  }

  // ---------- values ----------

  /** No string of a masked value, at any depth, holds a secret. */
  lemma {:induction false} MaskedIsClean(rules: Rules, v: Value)
    requires PlainRules(rules) && UnseenClean(rules, v)
    ensures Clean(rules, Masked(rules, v))
    decreases v
  {
    match v
    case Text(s) => TextMaskedIsFree(rules, s);
    case Number(_) => MarkStays(rules);
    case Listing(items) =>
      MaskedAllSpec(rules, items);
      forall i | 0 <= i < |items| { MaskedIsClean(rules, items[i]); }
    case Fixed(items) =>
      MaskedAllSpec(rules, items);
      forall i | 0 <= i < |items| { MaskedIsClean(rules, items[i]); }
    case Mapping(entries) =>
      MaskedEntriesSpec(rules, entries);
      var all := MaskedEntries(rules, entries);
      forall i | 0 <= i < |entries| ensures Clean(rules, all[i].key) && Clean(rules, all[i].value) {
        MaskedIsClean(rules, entries[i].key);
        MaskedIsClean(rules, entries[i].value);
      }
      KeyedEach(all, (e: Entry) => Clean(rules, e.key) && Clean(rules, e.value));
    case _ =>
  }

  lemma {:induction false} MaskedAllAgain(rules: Rules, items: seq<Value>)
    requires PlainRules(rules)
    ensures MaskedAll(rules, MaskedAll(rules, items)) == MaskedAll(rules, items)
    decreases items, 1
  {
    if items == [] {
    } else {
      MaskedAgain(rules, items[0]);
      MaskedAllAgain(rules, items[1..]);
      assert MaskedAll(rules, items)[1..] == MaskedAll(rules, items[1..]);
    }
  }

  /** Masking a masked value changes nothing. */
  lemma {:induction false} MaskedAgain(rules: Rules, v: Value)
    requires PlainRules(rules)
    ensures Masked(rules, Masked(rules, v)) == Masked(rules, v)
    decreases v, 0
  {
    match v
    case Text(s) => TextMaskedAgain(rules, s);
    case Number(_) => MarkStays(rules);
    case Listing(items) => MaskedAllAgain(rules, items);
    case Fixed(items) => MaskedAllAgain(rules, items);
    case Mapping(entries) =>
      MaskedEntriesSpec(rules, entries);
      var all := MaskedEntries(rules, entries);
      forall i | 0 <= i < |entries|
        ensures Masked(rules, all[i].key) == all[i].key && Masked(rules, all[i].value) == all[i].value
      {
        MaskedAgain(rules, entries[i].key);
        MaskedAgain(rules, entries[i].value);
      }
      KeyedEach(all, (e: Entry) => Masked(rules, e.key) == e.key && Masked(rules, e.value) == e.value);
      MaskedEntriesSpec(rules, Keyed(all));
      assert MaskedEntries(rules, Keyed(all)) == Keyed(all);
      KeyedSpec(all);
      KeyedStays(Keyed(all));
    case _ =>
  }

  /** Masking with more rules does not bring back what others removed. */
  lemma {:induction false} CleanStaysClean(rules: Rules, more: Rules, v: Value)
    requires PlainRules(rules) && "" !in more.secrets && Clean(rules, v)
    ensures Clean(rules, Masked(more, v))
    decreases v
  {
    match v
    case Text(s) =>
      var scanned := SecretsMasked(more.secrets, s);
      SecretsMaskedCovers(more.secrets, s);
      CoveredStaysFree(rules.secrets, s, scanned);
      CutsMaskedCovers(more.cuttable, scanned);
      CoveredStaysFree(rules.secrets, scanned, TextMasked(more, s));
    case Number(_) => MarkStays(rules);
    case Listing(items) =>
      MaskedAllSpec(more, items);
      forall i | 0 <= i < |items| { CleanStaysClean(rules, more, items[i]); }
    case Fixed(items) =>
      MaskedAllSpec(more, items);
      forall i | 0 <= i < |items| { CleanStaysClean(rules, more, items[i]); }
    case Mapping(entries) =>
      MaskedEntriesSpec(more, entries);
      var all := MaskedEntries(more, entries);
      forall i | 0 <= i < |entries| ensures Clean(rules, all[i].key) && Clean(rules, all[i].value) {
        CleanStaysClean(rules, more, entries[i].key);
        CleanStaysClean(rules, more, entries[i].value);
      }
      KeyedEach(all, (e: Entry) => Clean(rules, e.key) && Clean(rules, e.value));
    case _ =>
  }

  /** With nothing to mask, a value is its own masked form. */
  lemma {:induction false} NothingMasked(v: Value)
    requires WellKeyed(v)
    ensures Masked(Rules({}, {}, {}), v) == v
    decreases v
  {
    var none := Rules({}, {}, {});
    match v
    case Text(s) =>
      FreeStays({}, s);
      NothingToCut(s, map[], {});
    case Listing(items) =>
      MaskedAllSpec(none, items);
      forall i | 0 <= i < |items| { NothingMasked(items[i]); }
    case Fixed(items) =>
      MaskedAllSpec(none, items);
      forall i | 0 <= i < |items| { NothingMasked(items[i]); }
    case Mapping(entries) =>
      MaskedEntriesSpec(none, entries);
      forall i | 0 <= i < |entries|
        ensures Masked(none, entries[i].key) == entries[i].key && Masked(none, entries[i].value) == entries[i].value
      {
        NothingMasked(entries[i].key);
        NothingMasked(entries[i].value);
      }
      assert MaskedEntries(none, entries) == entries;
      KeyedStays(entries);
    case _ =>
  }

  /** Whatever is masked comes out with one entry per key in every dictionary. */
  lemma {:induction false} MaskedIsWellKeyed(rules: Rules, v: Value)
    requires "" !in rules.secrets
    ensures WellKeyed(Masked(rules, v))
    decreases v
  {
    match v
    case Listing(items) =>
      MaskedAllSpec(rules, items);
      forall i | 0 <= i < |items| ensures WellKeyed(MaskedAll(rules, items)[i]) {
        MaskedIsWellKeyed(rules, items[i]);
      }
    case Fixed(items) =>
      MaskedAllSpec(rules, items);
      forall i | 0 <= i < |items| ensures WellKeyed(MaskedAll(rules, items)[i]) {
        MaskedIsWellKeyed(rules, items[i]);
      }
    case Mapping(entries) =>
      MaskedEntriesSpec(rules, entries);
      var all := MaskedEntries(rules, entries);
      forall i | 0 <= i < |entries| ensures WellKeyed(all[i].key) && WellKeyed(all[i].value) {
        MaskedIsWellKeyed(rules, entries[i].key);
        MaskedIsWellKeyed(rules, entries[i].value);
      }
      KeyedEach(all, (e: Entry) => WellKeyed(e.key) && WellKeyed(e.value));
      KeyedSpec(all);
    case _ =>
  }

  // ---------- the compiled form ----------

  datatype Compiled = Compiled(pattern: Regex, numbers: set<string>, cuts: map<string, seq<string>>, longest: nat)

  /** `c` is a compiled form of `rules`. */
  ghost predicate CompiledFor(c: Compiled, rules: Rules) {
    && Recognises(c.pattern, rules.secrets)
    && c.numbers == rules.numbers
    && Indexes(c.cuts, rules.cuttable)
    && Bounds(c.longest, rules.cuttable)
  }

  method MaskText(s: string, c: Compiled, ghost rules: Rules) returns (masked: string)
    requires CompiledFor(c, rules) && "" !in rules.secrets
    ensures masked == TextMasked(rules, s) && IsTextMasked(rules, s, masked)
  {
    TextMaskedExactly(rules, s, TextMasked(rules, s));
    SubstituteMasksSecrets(c.pattern, rules.secrets, s);
    var text := Substitute(c.pattern, s);
    masked := MaskCutPrefix(text, c.cuts, c.longest, rules.cuttable);
  }

  /** The walk over a value with a compiled form does what the reference says of the plain sets. */
  method MaskValue(v: Value, c: Compiled, ghost rules: Rules) returns (masked: Value)
    requires CompiledFor(c, rules) && "" !in rules.secrets
    ensures masked == Masked(rules, v)
    decreases v, 0
  {
    match v
    case Text(s) =>
      var text := MaskText(s, c, rules);
      masked := Text(text);
    case Number(printed) =>
      masked := if printed in c.numbers then Text(MARK) else v;
    case Listing(items) =>
      var all := MaskAll(items, c, rules);
      masked := Listing(all);
    case Fixed(items) =>
      var all := MaskAll(items, c, rules);
      masked := Fixed(all);
    case Mapping(entries) =>
      var all := MaskEntries(entries, c, rules);
      masked := Mapping(Keyed(all));
    case _ =>
      masked := v;
  }

  method MaskAll(items: seq<Value>, c: Compiled, ghost rules: Rules) returns (all: seq<Value>)
    requires CompiledFor(c, rules) && "" !in rules.secrets
    ensures all == MaskedAll(rules, items)
    decreases items, 1
  {
    all := [];
    ghost var whole := MaskedAll(rules, items);
    MaskedAllSpec(rules, items);
    for i := 0 to |items|
      invariant all == whole[..i]
    {
      var one := MaskValue(items[i], c, rules);
      TakeOneMore(whole, i);
      all := all + [one];
    }
  }

  method MaskEntries(entries: seq<Entry>, c: Compiled, ghost rules: Rules) returns (all: seq<Entry>)
    requires CompiledFor(c, rules) && "" !in rules.secrets
    ensures all == MaskedEntries(rules, entries)
    decreases entries, 1
  {
    if entries == [] {
      return [];
    }
    var one := MaskEntry(entries[0], c, rules);
    var rest := MaskEntries(entries[1..], c, rules);
    return [one] + rest;
  }

  method MaskEntry(e: Entry, c: Compiled, ghost rules: Rules) returns (masked: Entry)
    requires CompiledFor(c, rules) && "" !in rules.secrets
    ensures masked == MaskedEntry(rules, e)
    decreases e, 0
  {
    var key := MaskValue(e.key, c, rules);
    var value := MaskValue(e.value, c, rules);
    masked := Entry(key, value);
  }
}
