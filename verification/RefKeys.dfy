/**
  Which references a walk finds, told from the keys that lead to them (openapi/ref_walk.py).
*/
module RefKeys {
  import opened Sequences
  import opened ApiGraph
  import opened Pointers
  import opened RefWalk
  import opened RefPaths
  import opened RefPointers

  // ---------- what the keys of a path are ----------

  /** A keyword that has names below it, of whatever is defined there or of examples. */
  predicate MapsNames(key: string) { key in NAME_MAPS || key == EXAMPLES }

  /** The keys lead to a mapping. */
  ghost predicate IsMapping(h: Heap, document: Item, keys: seq<string>) {
    match DescendAll(h, document, keys)
    case Found(item) => IsContainer(h, item) && h[item.id].MapOf?
    case Missing => false
  }

  /** The last of the keys is one of a mapping, not the index of a list. */
  ghost predicate EndsInAKey(h: Heap, document: Item, keys: seq<string>) {
    keys != [] && IsMapping(h, document, keys[..|keys| - 1])
  }

  /** How many keys at the end, without a gap, map names. */
  ghost function NameMaps(h: Heap, document: Item, keys: seq<string>): nat {
    if EndsInAKey(h, document, keys) && MapsNames(keys[|keys| - 1]) then
      1 + NameMaps(h, document, keys[..|keys| - 1])
    else 0
  }

  /** What is there is keyed by names, not by keywords: of name maps in a row every other one is itself a name. */
  ghost predicate HoldsNames(h: Heap, document: Item, keys: seq<string>) { NameMaps(h, document, keys) % 2 == 1 }

  /** An example given under its name in `examples`. */
  ghost predicate IsNamedExample(h: Heap, document: Item, keys: seq<string>) {
    && |keys| >= 2 && EndsInAKey(h, document, keys)
    && HoldsNames(h, document, keys[..|keys| - 1]) && keys[|keys| - 2] == EXAMPLES
  }

  ghost predicate IsListAt(h: Heap, document: Item, keys: seq<string>) {
    match DescendAll(h, document, keys)
    case Found(item) => IsList(h, item)
    case Missing => false
  }

  /** The last of the keys is a keyword, and what it holds is a sample. */
  ghost predicate IsSample(h: Heap, document: Item, keys: seq<string>) {
    && EndsInAKey(h, document, keys) && !HoldsNames(h, document, keys[..|keys| - 1])
    && var key := keys[|keys| - 1];
       || key in LITERAL_KEYS
       || "x-" <= key
       || (key == EXAMPLES && IsListAt(h, document, keys))
       || (key == "value" && IsNamedExample(h, document, keys[..|keys| - 1]))
  }

  /** The last of the keys is how a pointer has it: an index of a list without leading zeros. */
  ghost predicate IsSpelled(h: Heap, document: Item, keys: seq<string>) {
    keys != [] && (EndsInAKey(h, document, keys) || exists n: nat :: keys[|keys| - 1] == Decimal(n))
  }

  /** No key on the way holds a sample. */
  ghost predicate IsOutsideSamples(h: Heap, document: Item, keys: seq<string>) {
    keys == [] || (IsOutsideSamples(h, document, keys[..|keys| - 1]) && IsNoSample(h, document, keys))
  }

  ghost predicate IsNoSample(h: Heap, document: Item, keys: seq<string>) {
    IsSpelled(h, document, keys) && !IsSample(h, document, keys)
  }

  ghost predicate HasRefAt(h: Heap, document: Item, keys: seq<string>, target: string) {
    && IsMapping(h, document, keys)
    && Lookup(h[DescendAll(h, document, keys).item.id].entries, REF) == Found(Text(target))
  }

  /** The keys lead to a mapping that has the text `target` under `$ref`, with `$ref` a keyword there and no sample. */
  ghost predicate IsReference(h: Heap, document: Item, keys: seq<string>, target: string) {
    && HasRefAt(h, document, keys, target)
    && !HoldsNames(h, document, keys)
    && IsOutsideSamples(h, document, keys)
  }

  // ---------- along the keys ----------

  lemma {:induction false} DescendOnce(h: Heap, item: Item, keys: seq<string>, key: string)
    ensures DescendAll(h, item, keys + [key])
         == match DescendAll(h, item, keys) case Found(last) => Descend(h, last, key) case Missing => Missing
    decreases |keys|
  {
    if keys == [] {
      assert keys + [key] == [key] && [key][1..] == [];
    } else {
      assert (keys + [key])[1..] == keys[1..] + [key];
      match Descend(h, item, keys[0])
      case Found(next) => DescendOnce(h, next, keys[1..], key);
      case Missing =>
    }
  }

  lemma {:induction false} PointerOnce(keys: seq<string>, key: string)
    ensures PointerOf(keys + [key]) == PointerOf(keys) + "/" + Escape(key)
  {
    if keys == [] {
      assert keys + [key] == [key] && [key][1..] == [];
      assert PointerOf([key]) == "/" + Escape(key) + "";
    } else {
      assert (keys + [key])[1..] == keys[1..] + [key];
      PointerOnce(keys[1..], key);
    }
  }

  lemma LastKey(keys: seq<string>, key: string)
    ensures (keys + [key])[..|keys + [key]| - 1] == keys && (keys + [key])[|keys + [key]| - 1] == key
  {
  }

  /** The role of a visit is what the keys to it say. */
  ghost predicate Fits(h: Heap, document: Item, keys: seq<string>, role: Role) {
    && (KeyedByName(role) <==> HoldsNames(h, document, keys))
    && (role.Examples? <==> HoldsNames(h, document, keys) && keys != [] && keys[|keys| - 1] == EXAMPLES)
    && (role.Example? <==> IsNamedExample(h, document, keys))
  }

  ghost predicate IsAt(h: Heap, document: Item, keys: seq<string>, v: Visit) {
    && DescendAll(h, document, keys) == Found(v.item)
    && v.pointer == PointerOf(keys)
    && Fits(h, document, keys, v.role)
  }

  lemma OneNameMapMore(h: Heap, document: Item, keys: seq<string>, key: string)
    ensures NameMaps(h, document, keys + [key])
         == if IsMapping(h, document, keys) && MapsNames(key) then 1 + NameMaps(h, document, keys) else 0
  {
    LastKey(keys, key);
  }

  lemma FitsBelow(h: Heap, document: Item, keys: seq<string>, role: Role, key: string)
    requires Fits(h, document, keys, role)
    ensures Fits(h, document, keys + [key], if IsMapping(h, document, keys) then ChildRole(key, role) else Object)
  {
    LastKey(keys, key);
    OneNameMapMore(h, document, keys, key);
    assert IsMapping(h, document, keys) && HoldsNames(h, document, keys) ==>
        (IsNamedExample(h, document, keys + [key]) <==> keys[|keys| - 1] == EXAMPLES);
  }

  lemma SampleIsLiteral(h: Heap, document: Item, keys: seq<string>, v: Visit, e: Entry)
    requires IsAt(h, document, keys, v) && IsMapping(h, document, keys)
    requires Descend(h, v.item, e.key) == Found(e.value)
    ensures IsSample(h, document, keys + [e.key]) <==> !Walked(h, e, v.role)
  {
    LastKey(keys, e.key);
    DescendOnce(h, document, keys, e.key);
  }

  /** One step of the walk: the keys to where it comes have one more, which holds no sample. */
  lemma StepHasAKey(h: Heap, document: Item, keys: seq<string>, v: Visit, i: nat) returns (key: string)
    requires WellFormed(h) && IsAt(h, document, keys, v) && IsContainer(h, v.item) && i < |Steps(h, v)|
    ensures IsAt(h, document, keys + [key], Steps(h, v)[i])
    ensures IsNoSample(h, document, keys + [key])
  {
    var s := Steps(h, v)[i];
    match h[v.item.id] {
    case ListOf(items) =>
      key := Decimal(i);
      ListStepsSpec(items, v.pointer, 0, i);
      DecimalRoundTrip(i);
      DecimalIsItsOwnToken(i);
    case MapOf(entries) =>
      assert s in Steps(h, v);
      MapStepsSpec(h, entries, v.pointer, v.role, s);
      var j :| 0 <= j < |entries| && Walked(h, entries[j], v.role) && s == MapStep(entries[j], v.pointer, v.role);
      key := entries[j].key;
      LookupFinds(entries, j);
      SampleIsLiteral(h, document, keys, v, entries[j]);
    }
    LastKey(keys, key);
    DescendOnce(h, document, keys, key);
    PointerOnce(keys, key);
    FitsBelow(h, document, keys, v.role, key);
  }

  lemma {:induction false} LookupIsAnEntry(entries: seq<Entry>, key: string) returns (i: nat)
    requires Lookup(entries, key).Found?
    ensures i < |entries| && entries[i] == Entry(key, Lookup(entries, key).item)
  {
    if entries[0].key == key {
      i := 0;
    } else {
      i := LookupIsAnEntry(entries[1..], key);
      i := i + 1;
    }
  }

  /** A key that leads on and holds no sample is a step of the walk. */
  lemma KeyIsAStep(h: Heap, document: Item, keys: seq<string>, v: Visit, key: string) returns (i: nat)
    requires WellFormed(h) && IsAt(h, document, keys, v) && Descend(h, v.item, key).Found?
    requires IsNoSample(h, document, keys + [key])
    ensures IsContainer(h, v.item) && i < |Steps(h, v)| && IsAt(h, document, keys + [key], Steps(h, v)[i])
  {
    LastKey(keys, key);
    if h[v.item.id].ListOf? {
      i := IndexIsAStep(h, v, key);
    } else {
      i := EntryIsAStep(h, document, keys, v, key);
    }
    DescendOnce(h, document, keys, key);
    PointerOnce(keys, key);
    FitsBelow(h, document, keys, v.role, key);
  }

  lemma IndexIsAStep(h: Heap, v: Visit, key: string) returns (i: nat)
    requires IsContainer(h, v.item) && h[v.item.id].ListOf? && Descend(h, v.item, key).Found?
    requires exists n: nat :: key == Decimal(n)
    ensures i < |Steps(h, v)|
    ensures Steps(h, v)[i] == Visit(Descend(h, v.item, key).item, v.pointer + "/" + Escape(key), Object)
  {
    i :| key == Decimal(i);
    DecimalRoundTrip(i);
    DecimalIsItsOwnToken(i);
    ListStepsSpec(h[v.item.id].items, v.pointer, 0, i);
  }

  lemma EntryIsAStep(h: Heap, document: Item, keys: seq<string>, v: Visit, key: string) returns (i: nat)
    requires IsAt(h, document, keys, v) && IsContainer(h, v.item) && h[v.item.id].MapOf?
    requires Descend(h, v.item, key).Found? && !IsSample(h, document, keys + [key])
    ensures i < |Steps(h, v)|
    ensures Steps(h, v)[i]
         == Visit(Descend(h, v.item, key).item, v.pointer + "/" + Escape(key), ChildRole(key, v.role))
  {
    var entries := h[v.item.id].entries;
    var j := LookupIsAnEntry(entries, key);
    SampleIsLiteral(h, document, keys, v, entries[j]);
    var s := MapStep(entries[j], v.pointer, v.role);
    MapStepsSpec(h, entries, v.pointer, v.role, s);
    i :| 0 <= i < |Steps(h, v)| && Steps(h, v)[i] == s;
  }

  // ---------- along a route ----------

  lemma {:induction false} RouteOneMore(h: Heap, v: Visit, path: seq<nat>, i: nat)
    requires Route(h, v, path) != []
    ensures var route := Route(h, v, path);
            var last := route[|route| - 1];
            Route(h, v, path + [i])
              == if IsContainer(h, last.item) && i < |Steps(h, last)| then route + [Steps(h, last)[i]] else []
    decreases |path|
  {
    if path == [] {
      assert path + [i] == [i] && [i][1..] == [];
    } else {
      var next := Steps(h, v)[path[0]];
      var rest := Route(h, next, path[1..]);
      var last := rest[|rest| - 1];
      JoinedDrop(path, [i], 1);
      RouteOneMore(h, next, path[1..], i);
      LastOfLonger(v, rest);
      if IsContainer(h, last.item) && i < |Steps(h, last)| {
        Associates([v], rest, [Steps(h, last)[i]]);
      }
    }
  }

  /** The end of a route, where there is one. */
  ghost predicate EndsWith(h: Heap, document: Item, path: seq<nat>, v: Visit) {
    var route := Route(h, Start(document), path);
    route != [] && route[|route| - 1] == v
  }

  lemma OutsideOneMore(h: Heap, document: Item, keys: seq<string>, key: string)
    ensures IsOutsideSamples(h, document, keys + [key])
       <==> && IsOutsideSamples(h, document, keys)
            && IsNoSample(h, document, keys + [key])
  {
    LastKey(keys, key);
  }

  lemma {:induction false} RouteHasKeys(h: Heap, document: Item, path: seq<nat>, v: Visit) returns (keys: seq<string>)
    requires WellFormed(h) && EndsWith(h, document, path, v)
    ensures IsAt(h, document, keys, v) && IsOutsideSamples(h, document, keys)
    decreases |path|
  {
    if path == [] {
      keys := [];
    } else {
      var last := LastStep(h, document, path, v);
      var before := RouteHasKeys(h, document, path[..|path| - 1], last);
      var key := StepHasAKey(h, document, before, last, path[|path| - 1]);
      OutsideOneMore(h, document, before, key);
      keys := before + [key];
    }
  }

  /** What a route is at before its last step. */
  lemma LastStep(h: Heap, document: Item, path: seq<nat>, v: Visit) returns (last: Visit)
    requires path != [] && EndsWith(h, document, path, v)
    ensures EndsWith(h, document, path[..|path| - 1], last)
    ensures var i := path[|path| - 1];
            IsContainer(h, last.item) && i < |Steps(h, last)| && v == Steps(h, last)[i]
  {
    var front, i := path[..|path| - 1], path[|path| - 1];
    Rejoined(path, |path| - 1);
    assert path == front + [i];
    PrefixHasARoute(h, Start(document), front, i);
    RouteOneMore(h, Start(document), front, i);
    var route := Route(h, Start(document), front);
    last := route[|route| - 1];
  }

  lemma {:induction false} PrefixHasARoute(h: Heap, v: Visit, path: seq<nat>, i: nat)
    requires Route(h, v, path + [i]) != []
    ensures Route(h, v, path) != []
    decreases |path|
  {
    if path == [] {
    } else {
      assert (path + [i])[1..] == path[1..] + [i];
      PrefixHasARoute(h, Steps(h, v)[path[0]], path[1..], i);
    }
  }

  lemma {:induction false} KeysHaveARoute(h: Heap, document: Item, keys: seq<string>)
    returns (path: seq<nat>, v: Visit)
    requires WellFormed(h) && DescendAll(h, document, keys).Found? && IsOutsideSamples(h, document, keys)
    ensures EndsWith(h, document, path, v) && IsAt(h, document, keys, v)
    decreases |keys|
  {
    if keys == [] {
      path, v := [], Start(document);
    } else {
      var front, key := keys[..|keys| - 1], keys[|keys| - 1];
      assert keys == front + [key];
      DescendOnce(h, document, front, key);
      OutsideOneMore(h, document, front, key);
      var before, last := KeysHaveARoute(h, document, front);
      var i := KeyIsAStep(h, document, front, last, key);
      RouteOneMore(h, Start(document), before, i);
      path, v := before + [i], Steps(h, last)[i];
    }
  }

  // ---------- the references found ----------

  lemma CarriesExactly(h: Heap, document: Item, keys: seq<string>, v: Visit, target: string)
    requires IsAt(h, document, keys, v) && IsOutsideSamples(h, document, keys)
    ensures Carries(h, v, Ref(v.pointer, target)) <==> IsReference(h, document, keys, target)
  {
  }

  /** What keys say of a reference found by the walk. */
  lemma FoundHasKeys(h: Heap, document: Item, r: Ref) returns (keys: seq<string>)
    requires WellFormed(h) && r in Whole(h, document).refs
    ensures r.pointer == PointerOf(keys) && IsReference(h, document, keys, r.target)
  {
    var path := FoundOnARoute(h, Start(document), 0, {}, 0, r);
    var route := Route(h, Start(document), path);
    var v := route[|route| - 1];
    OwnRefPointer(h, v, r);
    keys := RouteHasKeys(h, document, path, v);
    CarriesExactly(h, document, keys, v, r.target);
  }

  lemma SamePointerSameKeys(a: seq<string>, b: seq<string>)
    requires PointerOf(a) == PointerOf(b)
    ensures a == b
  {
    var plain := (s: string) => s;
    FollowsItsKeys(a, plain);
    FollowsItsKeys(b, plain);
  }

  /**
    A walk that gets to its end found the reference to `target` at the pointer of these keys exactly
    when they lead to a mapping that has it under `$ref`, `$ref` is a keyword there, and no key on
    the way is a keyword that holds a sample.
  */
  lemma ReferencesExactly(h: Heap, document: Item, keys: seq<string>, target: string)
    requires WellFormed(h) && Whole(h, document).stop.Done?
    ensures Ref(PointerOf(keys), target) in Whole(h, document).refs <==> IsReference(h, document, keys, target)
  {
    var r := Ref(PointerOf(keys), target);
    if r in Whole(h, document).refs {
      var others := FoundHasKeys(h, document, r);
      SamePointerSameKeys(keys, others);
    }
    if IsReference(h, document, keys, target) {
      var path, v := KeysHaveARoute(h, document, keys);
      CarriesExactly(h, document, keys, v, target);
      assert LeadsTo(h, Start(document), path, r);
      FindsExactlyTheReferences(h, document, r);
    }
  }

  lemma {:induction false} OutsideBefore(h: Heap, document: Item, keys: seq<string>, below: seq<string>)
    requires IsOutsideSamples(h, document, keys + below)
    ensures IsOutsideSamples(h, document, keys)
    decreases |below|
  {
    if below == [] {
      assert keys + below == keys;
    } else {
      assert (keys + below)[..|keys + below| - 1] == keys + below[..|below| - 1];
      OutsideBefore(h, document, keys, below[..|below| - 1]);
    }
  }

  /** Under a key that holds a sample no reference is found, whatever the sample looks like. */
  lemma NothingInASample(h: Heap, document: Item, keys: seq<string>, below: seq<string>, target: string)
    requires WellFormed(h) && Whole(h, document).stop.Done? && IsSample(h, document, keys)
    ensures Ref(PointerOf(keys + below), target) !in Whole(h, document).refs
  {
    ReferencesExactly(h, document, keys + below, target);
    if IsOutsideSamples(h, document, keys + below) {
      OutsideBefore(h, document, keys, below);
      assert false;
    }
  }

  lemma NameMapIsNoLiteral(key: string)
    requires key in NAME_MAPS
    ensures key !in LITERAL_KEYS && !("x-" <= key) && key != EXAMPLES && key != "value"
  {
    assert key[0] != 'x';
  }

  lemma NamesAreMapped(h: Heap, document: Item, keys: seq<string>, names: string)
    requires IsMapping(h, document, keys) && !HoldsNames(h, document, keys) && names in NAME_MAPS
    ensures HoldsNames(h, document, keys + [names]) && IsNoSample(h, document, keys + [names])
  {
    NameMapIsNoLiteral(names);
    LastKey(keys, names);
    OneNameMapMore(h, document, keys, names);
  }

  lemma AnyNameIsAnObject(h: Heap, document: Item, mapped: seq<string>, name: string)
    requires IsMapping(h, document, mapped) && HoldsNames(h, document, mapped)
    ensures !HoldsNames(h, document, mapped + [name]) && IsNoSample(h, document, mapped + [name])
  {
    LastKey(mapped, name);
    OneNameMapMore(h, document, mapped, name);
  }

  /**
    Under a keyword that maps names: whatever name an author chose, `default` and `example` among them,
    a reference in its place is found; what the names are mapped in is none, one of them `$ref` or not.
  */
  lemma NamedReferenceIsFound(h: Heap, document: Item, keys: seq<string>, names: string, name: string, target: string)
    requires WellFormed(h) && Whole(h, document).stop.Done? && names in NAME_MAPS
    requires IsMapping(h, document, keys) && !HoldsNames(h, document, keys) && IsOutsideSamples(h, document, keys)
    requires IsMapping(h, document, keys + [names])
    ensures HasRefAt(h, document, keys + [names] + [name], target) ==>
              Ref(PointerOf(keys + [names] + [name]), target) in Whole(h, document).refs
    ensures Ref(PointerOf(keys + [names]), target) !in Whole(h, document).refs
  {
    var mapped := keys + [names];
    NamesAreMapped(h, document, keys, names);
    AnyNameIsAnObject(h, document, mapped, name);
    OutsideOneMore(h, document, keys, names);
    OutsideOneMore(h, document, mapped, name);
    ReferencesExactly(h, document, mapped, target);
    ReferencesExactly(h, document, mapped + [name], target);
  }
}
