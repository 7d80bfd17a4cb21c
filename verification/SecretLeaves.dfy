/**
  What of a value handed over can be a secret: the texts that stand in it, and its numbers where
  they are meant too (logging/masking.py).
*/
module SecretLeaves {
  import opened Masking

  /** The texts in a value, and its numbers as they print when `numbers` is set; keys are not taken. */
  function Leaves(v: Value, numbers: bool): seq<string>
    decreases v, 0
  {
    match v
    case Text(s) => [s]
    case Number(printed) => if numbers then [printed] else []
    case Listing(items) => LeavesOfAll(items, numbers)
    case Fixed(items) => LeavesOfAll(items, numbers)
    case Unordered(items) => LeavesOfAll(items, numbers)
    case Mapping(entries) => LeavesOfEntries(entries, numbers)
    case _ => []
  }

  function LeavesOfAll(items: seq<Value>, numbers: bool): seq<string>
    decreases items, 1
  {
    if items == [] then [] else Leaves(items[0], numbers) + LeavesOfAll(items[1..], numbers)
  }

  function LeavesOfEntries(entries: seq<Entry>, numbers: bool): seq<string>
    decreases entries, 1
  {
    if entries == [] then [] else LeavesOfEntry(entries[0], numbers) + LeavesOfEntries(entries[1..], numbers)
  }

  function LeavesOfEntry(e: Entry, numbers: bool): seq<string>
    decreases e, 0
  {
    Leaves(e.value, numbers)
  }

  function LongEnough(leaves: seq<string>, floor: nat): (kept: seq<string>)
    ensures forall s :: s in kept <==> s in leaves && |s| >= floor
  {
    if leaves == [] then []
    else (if |leaves[0]| >= floor then [leaves[0]] else []) + LongEnough(leaves[1..], floor)
  }

  // ---------- what stands in a value ----------

  /** One step into a value: an item of a list, tuple or set, or what a mapping has under a key. */
  ghost predicate HasPart(v: Value, part: Value) {
    match v
    case Listing(items) => part in items
    case Fixed(items) => part in items
    case Unordered(items) => part in items
    case Mapping(entries) => exists i :: 0 <= i < |entries| && entries[i].value == part
    case _ => false
  }

  /** From `v` to `part` in steps into a value, any number of them. */
  ghost predicate Within(v: Value, steps: seq<Value>, part: Value) {
    if steps == [] then v == part else HasPart(v, steps[0]) && Within(steps[0], steps[1..], part)
  }

  ghost predicate Holds(v: Value, part: Value) { exists steps :: Within(v, steps, part) }

  /** A text that stands in `v`, or a number as it prints where numbers are meant. */
  ghost predicate StandsIn(text: string, v: Value, numbers: bool) {
    Holds(v, Text(text)) || (numbers && Holds(v, Number(text)))
  }

  lemma Deeper(v: Value, part: Value, text: string, numbers: bool)
    requires HasPart(v, part) && StandsIn(text, part, numbers)
    ensures StandsIn(text, v, numbers)
  {
    var leaf := if Holds(part, Text(text)) then Text(text) else Number(text);
    var steps :| Within(part, steps, leaf);
    assert ([part] + steps)[1..] == steps;
    assert Within(v, [part] + steps, leaf);
  }

  lemma Shallower(v: Value, text: string, numbers: bool) returns (part: Value)
    requires StandsIn(text, v, numbers) && v != Text(text) && v != Number(text)
    ensures HasPart(v, part) && StandsIn(text, part, numbers)
  {
    var leaf := if Holds(v, Text(text)) then Text(text) else Number(text);
    var steps :| Within(v, steps, leaf);
    part := steps[0];
    assert Within(part, steps[1..], leaf);
  }

  lemma {:induction false} LeavesOfAllAre(items: seq<Value>, numbers: bool, text: string)
    ensures text in LeavesOfAll(items, numbers) <==> exists i :: 0 <= i < |items| && text in Leaves(items[i], numbers)
  {
    if items == [] {
    } else {
      LeavesOfAllAre(items[1..], numbers, text);
      if i :| 0 <= i < |items[1..]| && text in Leaves(items[1..][i], numbers) {
        assert items[i + 1] == items[1..][i];
      }
      if i :| 0 < i < |items| && text in Leaves(items[i], numbers) {
        assert items[1..][i - 1] == items[i];
      }
    }
  }

  lemma {:induction false} LeavesOfEntriesAre(entries: seq<Entry>, numbers: bool, text: string)
    ensures text in LeavesOfEntries(entries, numbers)
       <==> exists i :: 0 <= i < |entries| && text in Leaves(entries[i].value, numbers)
  {
    if entries == [] {
    } else {
      LeavesOfEntriesAre(entries[1..], numbers, text);
      if i :| 0 <= i < |entries[1..]| && text in Leaves(entries[1..][i].value, numbers) {
        assert entries[i + 1] == entries[1..][i];
      }
      if i :| 0 < i < |entries| && text in Leaves(entries[i].value, numbers) {
        assert entries[1..][i - 1] == entries[i];
      }
    }
  }

  predicate IsLeaf(v: Value) { v.Text? || v.Number? }

  lemma LeavesArePartsLeaves(v: Value, numbers: bool, text: string)
    requires !IsLeaf(v)
    ensures text in Leaves(v, numbers) <==> exists part :: HasPart(v, part) && text in Leaves(part, numbers)
  {
    match v
    case Listing(items) => LeavesOfAllAre(items, numbers, text);
    case Fixed(items) => LeavesOfAllAre(items, numbers, text);
    case Unordered(items) => LeavesOfAllAre(items, numbers, text);
    case Mapping(entries) =>
      LeavesOfEntriesAre(entries, numbers, text);
      if i :| 0 <= i < |entries| && text in Leaves(entries[i].value, numbers) {
        assert HasPart(v, entries[i].value);
      }
    case _ =>
  }

  lemma PartIsSmaller(v: Value, part: Value)
    requires HasPart(v, part)
    ensures part < v
  {
    if v.Mapping? {
      var i :| 0 <= i < |v.entries| && v.entries[i].value == part;
      assert v.entries[i] < v;
    }
  }

  lemma StandsInALeaf(v: Value, numbers: bool, text: string)
    requires IsLeaf(v)
    ensures StandsIn(text, v, numbers) <==> v == Text(text) || (numbers && v == Number(text))
  {
    if v == Text(text) || (numbers && v == Number(text)) {
      assert Within(v, [], v);
    }
  }

  /** Taken from a value is exactly what stands in it, at any depth; what stands in a key is not. */
  lemma {:induction false} LeavesExactly(v: Value, numbers: bool, text: string)
    ensures text in Leaves(v, numbers) <==> StandsIn(text, v, numbers)
    decreases v
  {
    if IsLeaf(v) {
      StandsInALeaf(v, numbers, text);
    } else {
      LeavesArePartsLeaves(v, numbers, text);
      if text in Leaves(v, numbers) {
        var part :| HasPart(v, part) && text in Leaves(part, numbers);
        PartIsSmaller(v, part);
        LeavesExactly(part, numbers, text);
        Deeper(v, part, text, numbers);
      } else if StandsIn(text, v, numbers) {
        var part := Shallower(v, text, numbers);
        PartIsSmaller(v, part);
        LeavesExactly(part, numbers, text);
      }
    }
  }
}
