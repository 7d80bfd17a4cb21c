/**
  What masking and writing leave in each place of a value (logging/masking.py, logging/trace.py).
*/
module ValuePlaces {
  import opened Sequences
  import opened TextMasking
  import opened Masking
  import opened Trace

  /** One step into a value: the item at an index of a list or tuple, or what a mapping has under a key. */
  datatype Step = Item(index: nat) | Field(key: Value)

  /** The steps lead from `v` to `x`, through tuples too if these are entered. */
  ghost predicate Leads(v: Value, path: seq<Step>, x: Value, tuples: bool)
    decreases |path|
  {
    if path == [] then v == x
    else
      match path[0]
      case Item(i) => (v.Listing? || (tuples && v.Fixed?)) && i < |v.items| && Leads(v.items[i], path[1..], x, tuples)
      case Field(key) =>
        v.Mapping? && exists e :: e in v.entries && e.key == key && Leads(e.value, path[1..], x, tuples)
  }

  // ---------- masking ----------

  /** No later key of the mapping is masked to what this one is. */
  ghost predicate Prevails(rules: Rules, entries: seq<Entry>, i: nat)
    requires "" !in rules.secrets && i < |entries|
  {
    forall j :: i < j < |entries| ==> Masked(rules, entries[j].key) != Masked(rules, entries[i].key)
  }

  /** The steps lead from `v` to `x`, under no key that a later one, masked, replaces; `masked` has its keys masked. */
  ghost predicate LeadsMasked(rules: Rules, v: Value, masked: seq<Step>, x: Value)
    requires "" !in rules.secrets
    decreases |masked|
  {
    if masked == [] then v == x
    else
      match masked[0]
      case Item(i) => (v.Listing? || v.Fixed?) && i < |v.items| && LeadsMasked(rules, v.items[i], masked[1..], x)
      case Field(key) =>
        && v.Mapping?
        && exists i: nat :: i < |v.entries| && Masked(rules, v.entries[i].key) == key && Prevails(rules, v.entries, i)
                       && LeadsMasked(rules, v.entries[i].value, masked[1..], x)
  }

  lemma MaskedItem(rules: Rules, v: Value, i: nat)
    requires "" !in rules.secrets && (v.Listing? || v.Fixed?)
    ensures var m := Masked(rules, v);
            && (m.Listing? <==> v.Listing?) && (m.Fixed? <==> v.Fixed?) && |m.items| == |v.items|
            && (i < |v.items| ==> m.items[i] == Masked(rules, v.items[i]))
  {
    MaskedAllSpec(rules, v.items);
  }

  lemma MaskedField(rules: Rules, entries: seq<Entry>, e: Entry)
    requires "" !in rules.secrets
    ensures e in Masked(rules, Mapping(entries)).entries
       <==> exists i: nat :: i < |entries| && Prevails(rules, entries, i) && e == MaskedEntry(rules, entries[i])
  {
    var all := MaskedEntries(rules, entries);
    MaskedEntriesSpec(rules, entries);
    KeyedExactly(all, e);
    if GivenLast(all, e) {
      var i: nat :| i < |all| && all[i] == e && IsLast(all, i);
      assert Prevails(rules, entries, i);
    }
    if i: nat :| i < |entries| && Prevails(rules, entries, i) && e == MaskedEntry(rules, entries[i]) {
      assert all[i] == e && IsLast(all, i);
    }
  }

  lemma UnderKey(v: Value, e: Entry, below: seq<Step>, x: Value, tuples: bool)
    requires v.Mapping? && e in v.entries && Leads(e.value, below, x, tuples)
    ensures Leads(v, [Field(e.key)] + below, x, tuples)
  {
    HeadAndTail(Field(e.key), below);
  }

  lemma {:induction false} MaskedComesFrom(rules: Rules, v: Value, path: seq<Step>, y: Value) returns (x: Value)
    requires "" !in rules.secrets && Leads(Masked(rules, v), path, y, true)
    ensures LeadsMasked(rules, v, path, x) && y == Masked(rules, x)
    decreases |path|
  {
    if path == [] {
      x := v;
    } else if path[0].Item? {
      MaskedItem(rules, v, path[0].index);
      x := MaskedComesFrom(rules, v.items[path[0].index], path[1..], y);
    } else {
      var e :| e in Masked(rules, v).entries && e.key == path[0].key && Leads(e.value, path[1..], y, true);
      MaskedField(rules, v.entries, e);
      var i: nat :| i < |v.entries| && Prevails(rules, v.entries, i) && e == MaskedEntry(rules, v.entries[i]);
      x := MaskedComesFrom(rules, v.entries[i].value, path[1..], y);
    }
  }

  lemma {:induction false} MaskedIsThere(rules: Rules, v: Value, path: seq<Step>, x: Value)
    requires "" !in rules.secrets && LeadsMasked(rules, v, path, x)
    ensures Leads(Masked(rules, v), path, Masked(rules, x), true)
    decreases |path|
  {
    if path == [] {
    } else if path[0].Item? {
      MaskedItem(rules, v, path[0].index);
      MaskedIsThere(rules, v.items[path[0].index], path[1..], x);
    } else {
      var i: nat :| i < |v.entries| && Masked(rules, v.entries[i].key) == path[0].key && Prevails(rules, v.entries, i)
                    && LeadsMasked(rules, v.entries[i].value, path[1..], x);
      var e := MaskedEntry(rules, v.entries[i]);
      MaskedField(rules, v.entries, e);
      MaskedIsThere(rules, v.entries[i].value, path[1..], x);
      UnderKey(Masked(rules, v), e, path[1..], Masked(rules, x), true);
      assert [path[0]] + path[1..] == path;
    }
  }

  /** A place of the masked value holds exactly the masked form of what the original has there. */
  lemma MaskedInPlace(rules: Rules, v: Value, path: seq<Step>, y: Value)
    requires "" !in rules.secrets
    ensures Leads(Masked(rules, v), path, y, true)
       <==> exists x :: LeadsMasked(rules, v, path, x) && y == Masked(rules, x)
  {
    if Leads(Masked(rules, v), path, y, true) {
      var x := MaskedComesFrom(rules, v, path, y);
    }
    if x :| LeadsMasked(rules, v, path, x) && y == Masked(rules, x) {
      MaskedIsThere(rules, v, path, x);
    }
  }

  /** A text with its secrets replaced, a number that prints as one replaced whole, anything else as it is. */
  ghost predicate IsMaskedLeaf(rules: Rules, x: Value, y: Value) {
    match x
    case Text(s) => y.Text? && IsTextMasked(rules, s, y.text)
    case Number(printed) => y == if printed in rules.numbers then Text(MARK) else x
    case _ => y == x
  }

  /** What a value that is no container is masked to; of a set, a model or a moment nothing is. */
  lemma MaskedLeaf(rules: Rules, x: Value, y: Value)
    requires "" !in rules.secrets && !x.Listing? && !x.Fixed? && !x.Mapping?
    ensures y == Masked(rules, x) <==> IsMaskedLeaf(rules, x, y)
  {
    if x.Text? && y.Text? {
      TextMaskedExactly(rules, x.text, y.text);
    }
  }

  // ---------- the written form ----------

  /** A model is what it dumps. */
  function Shown(v: Value): Value { if v.Model? then Shown(v.dump) else v }

  /** The steps lead from `v` to `x`, models taken as what they dump, under no field that is null. */
  ghost predicate LeadsShown(v: Value, path: seq<Step>, x: Value)
    decreases |path|
  {
    if path == [] then Shown(v) == x
    else
      match path[0]
      case Item(i) => Shown(v).Listing? && i < |Shown(v).items| && LeadsShown(Shown(v).items[i], path[1..], x)
      case Field(key) =>
        && Shown(v).Mapping?
        && exists e :: e in Shown(v).entries && e.key == key && !e.value.Null? && LeadsShown(e.value, path[1..], x)
  }

  lemma {:induction false} ShownIsWritten(v: Value)
    ensures Jsonable(v) == Jsonable(Shown(v))
  {
    if v.Model? {
      ShownIsWritten(v.dump);
    }
  }

  lemma {:induction false} AllInPlace(items: seq<Value>)
    ensures forall i :: 0 <= i < |items| ==> JsonableAll(items)[i] == Jsonable(items[i])
  {
    if items == [] {
    } else {
      AllInPlace(items[1..]);
    }
  }

  lemma {:induction false} FieldsInPlace(entries: seq<Entry>, x: Entry)
    ensures x in JsonableEntries(entries) <==> exists e :: e in entries && !e.value.Null? && x == JsonableEntry(e)
  {
    if entries == [] {
    } else {
      FieldsInPlace(entries[1..], x);
      assert entries == [entries[0]] + entries[1..];
    }
  }

  lemma {:induction false} WrittenComesFrom(v: Value, path: seq<Step>, y: Value) returns (x: Value)
    requires Leads(Jsonable(v), path, y, false)
    ensures LeadsShown(v, path, x) && y == Jsonable(x)
    decreases |path|
  {
    var shown := Shown(v);
    ShownIsWritten(v);
    NoModelShown(v);
    if path == [] {
      x := shown;
    } else if path[0].Item? {
      if shown.Listing? { AllInPlace(shown.items); }
      x := WrittenComesFrom(shown.items[path[0].index], path[1..], y);
    } else {
      var f :| f in Jsonable(shown).entries && f.key == path[0].key && Leads(f.value, path[1..], y, false);
      FieldsInPlace(shown.entries, f);
      var e :| e in shown.entries && !e.value.Null? && f == JsonableEntry(e);
      x := WrittenComesFrom(e.value, path[1..], y);
    }
  }

  lemma {:induction false} WrittenIsThere(v: Value, path: seq<Step>, x: Value)
    requires LeadsShown(v, path, x)
    ensures Leads(Jsonable(v), path, Jsonable(x), false)
    decreases |path|
  {
    var shown := Shown(v);
    ShownIsWritten(v);
    if path == [] {
    } else if path[0].Item? {
      AllInPlace(shown.items);
      WrittenIsThere(shown.items[path[0].index], path[1..], x);
    } else {
      var e :| e in shown.entries && e.key == path[0].key && !e.value.Null? && LeadsShown(e.value, path[1..], x);
      FieldsInPlace(shown.entries, JsonableEntry(e));
      WrittenIsThere(e.value, path[1..], x);
      UnderKey(Jsonable(shown), JsonableEntry(e), path[1..], Jsonable(x), false);
      assert [path[0]] + path[1..] == path;
    }
  }

  lemma {:induction false} NoModelShown(v: Value)
    ensures !Shown(v).Model?
  {
    if v.Model? {
      NoModelShown(v.dump);
    }
  }

  /** A place of the written form holds exactly what the value has there, written. */
  lemma WrittenInPlace(v: Value, path: seq<Step>, y: Value)
    ensures Leads(Jsonable(v), path, y, false) <==> exists x :: LeadsShown(v, path, x) && y == Jsonable(x)
  {
    if Leads(Jsonable(v), path, y, false) {
      var x := WrittenComesFrom(v, path, y);
    }
    if x :| LeadsShown(v, path, x) && y == Jsonable(x) {
      WrittenIsThere(v, path, x);
    }
  }

  /** What a value that is no container is written as: a moment as its text, anything else as it is. */
  lemma WrittenLeaf(x: Value)
    requires !x.Listing? && !x.Mapping? && !x.Model?
    ensures Jsonable(x) == if x.Moment? then Text(x.written) else x
  {
  }

  /** Nothing written is a model or a moment, in any place outside a tuple. */
  lemma NoModelIsWritten(v: Value, path: seq<Step>, y: Value)
    requires Leads(Jsonable(v), path, y, false)
    ensures !y.Model? && !y.Moment?
  {
    WrittenInPlace(v, path, y);
    var x :| LeadsShown(v, path, x) && y == Jsonable(x);
    NotAModel(x);
  }

  lemma {:induction false} NotAModel(v: Value)
    ensures !Jsonable(v).Model? && !Jsonable(v).Moment?
    decreases v
  {
    if v.Model? {
      NotAModel(v.dump);
    }
  }
}
