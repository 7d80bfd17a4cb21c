/**
  The order in which a walk finds references: that of the document (openapi/ref_walk.py).
*/
module RefOrder {
  import opened Sequences
  import opened ApiGraph
  import opened Pointers
  import opened RefWalk
  import opened RefPaths
  import opened RefPointers
  import opened RefKeys

  /** Where a key stands among those of a mapping, |entries| where it does not. */
  function EntryPlace(entries: seq<Entry>, key: string): nat {
    if entries == [] || entries[0].key == key then 0 else 1 + EntryPlace(entries[1..], key)
  }

  /** Where a key stands in a mapping, or which index of a list it is. */
  function Place(h: Heap, item: Item, key: string): nat
    requires IsContainer(h, item)
  {
    match h[item.id]
    case MapOf(entries) => EntryPlace(entries, key)
    case ListOf(items) => if AllDigits(key) then Parsed(key) else |items|
  }

  /** From `item` on, the place `a` leads to comes before the one `b` leads to: it holds it, or stands before it. */
  ghost predicate InOrder(h: Heap, item: Item, a: seq<string>, b: seq<string>)
    decreases |a|
  {
    if a == [] then b != []
    else
      && b != [] && IsContainer(h, item)
      && if a[0] == b[0] then
           Descend(h, item, a[0]).Found? && InOrder(h, Descend(h, item, a[0]).item, a[1..], b[1..])
         else Place(h, item, a[0]) < Place(h, item, b[0])
  }

  // ---------- the keys of the steps ----------

  /** Which entry the step `k` of a mapping is. */
  ghost function EntryOfStep(h: Heap, entries: seq<Entry>, role: Role, k: nat): nat {
    if entries == [] then 0
    else if !Walked(h, entries[0], role) then 1 + EntryOfStep(h, entries[1..], role, k)
    else if k == 0 then 0
    else 1 + EntryOfStep(h, entries[1..], role, k - 1)
  }

  ghost function KeyOf(h: Heap, v: Visit, k: nat): string
    requires IsContainer(h, v.item) && k < |Steps(h, v)|
  {
    match h[v.item.id]
    case ListOf(items) => Decimal(k)
    case MapOf(entries) =>
      var i := EntryOfStep(h, entries, v.role, k);
      if i < |entries| then entries[i].key else ""
  }

  lemma FirstOrNone<T>(c: bool, x: T, rest: seq<T>, k: nat)
    requires k < |(if c then [x] else []) + rest|
    ensures var all := (if c then [x] else []) + rest;
            if !c then k < |rest| && all[k] == rest[k]
            else if k == 0 then all[k] == x
            else k - 1 < |rest| && all[k] == rest[k - 1]
  {
  }

  lemma FirstStep(h: Heap, entries: seq<Entry>, pointer: string, role: Role, k: nat)
    requires entries != [] && k < |MapSteps(h, entries, pointer, role)|
    ensures var steps, rest := MapSteps(h, entries, pointer, role), MapSteps(h, entries[1..], pointer, role);
            if !Walked(h, entries[0], role) then k < |rest| && steps[k] == rest[k]
            else if k == 0 then steps[k] == MapStep(entries[0], pointer, role)
            else k - 1 < |rest| && steps[k] == rest[k - 1]
  {
    FirstOrNone(Walked(h, entries[0], role), MapStep(entries[0], pointer, role),
                MapSteps(h, entries[1..], pointer, role), k);
  }

  lemma {:induction false} WalkedEntry(h: Heap, entries: seq<Entry>, pointer: string, role: Role, k: nat)
    requires k < |MapSteps(h, entries, pointer, role)|
    ensures var i := EntryOfStep(h, entries, role, k);
            i < |entries| && MapSteps(h, entries, pointer, role)[k] == MapStep(entries[i], pointer, role)
  {
    if entries == [] {
    } else {
      FirstStep(h, entries, pointer, role, k);
      if !Walked(h, entries[0], role) {
        WalkedEntry(h, entries[1..], pointer, role, k);
      } else if k > 0 {
        WalkedEntry(h, entries[1..], pointer, role, k - 1);
      }
    }
  }

  lemma {:induction false} LaterIsFurther(h: Heap, entries: seq<Entry>, pointer: string, role: Role, k: nat, m: nat)
    requires k < m < |MapSteps(h, entries, pointer, role)|
    ensures EntryOfStep(h, entries, role, k) < EntryOfStep(h, entries, role, m)
  {
    if entries == [] {
    } else {
      FirstStep(h, entries, pointer, role, m);
      if !Walked(h, entries[0], role) {
        LaterIsFurther(h, entries[1..], pointer, role, k, m);
      } else if k > 0 {
        LaterIsFurther(h, entries[1..], pointer, role, k - 1, m - 1);
      }
    }
  }

  lemma {:induction false} PlaceOfEntry(entries: seq<Entry>, i: nat)
    requires UniqueKeys(entries) && i < |entries|
    ensures EntryPlace(entries, entries[i].key) == i
  {
    if i == 0 {
    } else {
      assert entries[0].key != entries[i].key;
      PlaceOfEntry(entries[1..], i - 1);
    }
  }

  /** What the key of a step says: its pointer, the value there and its place. */
  lemma KeyOfStep(h: Heap, v: Visit, k: nat)
    requires WellFormed(h) && IsContainer(h, v.item) && k < |Steps(h, v)|
    ensures var key := KeyOf(h, v, k);
            && Steps(h, v)[k].pointer == v.pointer + "/" + Escape(key)
            && Descend(h, v.item, key) == Found(Steps(h, v)[k].item)
            && Place(h, v.item, key)
               == if h[v.item.id].ListOf? then k else EntryOfStep(h, h[v.item.id].entries, v.role, k)
  {
    match h[v.item.id]
    case ListOf(items) =>
      ListStepsSpec(items, v.pointer, 0, k);
      DecimalRoundTrip(k);
      DecimalIsItsOwnToken(k);
    case MapOf(entries) =>
      WalkedEntry(h, entries, v.pointer, v.role, k);
      LookupFinds(entries, EntryOfStep(h, entries, v.role, k));
      PlaceOfEntry(entries, EntryOfStep(h, entries, v.role, k));
  }

  lemma StepsAreInOrder(h: Heap, v: Visit, k: nat, m: nat)
    requires WellFormed(h) && IsContainer(h, v.item) && k < m < |Steps(h, v)|
    ensures Place(h, v.item, KeyOf(h, v, k)) < Place(h, v.item, KeyOf(h, v, m))
  {
    KeyOfStep(h, v, k);
    KeyOfStep(h, v, m);
    if h[v.item.id].MapOf? {
      LaterIsFurther(h, h[v.item.id].entries, v.pointer, v.role, k, m);
    }
  }

  // ---------- along the walk ----------

  /** The keys from `v` along a route that starts with the step `m`. */
  lemma KeysThrough(h: Heap, v: Visit, m: nat, path: seq<nat>, r: Ref) returns (below: seq<string>)
    requires WellFormed(h) && IsContainer(h, v.item) && m < |Steps(h, v)| && LeadsTo(h, Steps(h, v)[m], path, r)
    ensures r.pointer == v.pointer + PointerOf([KeyOf(h, v, m)] + below)
  {
    below := KeysOf(h, Steps(h, v)[m], path, r);
    KeyOfStep(h, v, m);
    PointerGrows(v.pointer, KeyOf(h, v, m), below);
  }

  lemma KeysOf(h: Heap, v: Visit, path: seq<nat>, r: Ref) returns (keys: seq<string>)
    requires WellFormed(h) && LeadsTo(h, v, path, r)
    ensures r.pointer == v.pointer + PointerOf(keys)
  {
    RouteEndsAt(h, v, path, r);
    keys := RouteLeadsBack(h, v, path);
  }

  /** Two references, and keys from `v` that lead to them in order. */
  ghost predicate FoundInOrder(h: Heap, v: Visit, first: Ref, second: Ref, a: seq<string>, b: seq<string>) {
    && first.pointer == v.pointer + PointerOf(a) && second.pointer == v.pointer + PointerOf(b)
    && InOrder(h, v.item, a, b)
  }

  /** There are such keys. */
  ghost predicate AreInOrder(h: Heap, v: Visit, first: Ref, second: Ref) {
    exists a, b :: FoundInOrder(h, v, first, second, a, b)
  }

  lemma OneStepUp(h: Heap, v: Visit, k: nat, first: Ref, second: Ref)
    requires WellFormed(h) && IsContainer(h, v.item) && k < |Steps(h, v)|
    requires AreInOrder(h, Steps(h, v)[k], first, second)
    ensures AreInOrder(h, v, first, second)
  {
    var a, b :| FoundInOrder(h, Steps(h, v)[k], first, second, a, b);
    var key := KeyOf(h, v, k);
    KeyOfStep(h, v, k);
    PointerGrows(v.pointer, key, a);
    PointerGrows(v.pointer, key, b);
    HeadAndTail(key, a);
    HeadAndTail(key, b);
    assert FoundInOrder(h, v, first, second, [key] + a, [key] + b);
  }

  ghost predicate IsBelow(h: Heap, v: Visit, r: Ref) { exists path :: LeadsTo(h, v, path, r) }

  /** Both are below one of these values, in order, or the second is below a later one. */
  ghost predicate AreInOrderBelow(h: Heap, vs: seq<Visit>, first: Ref, second: Ref) {
    || (exists k :: 0 <= k < |vs| && AreInOrder(h, vs[k], first, second))
    || (exists k, m :: 0 <= k < m < |vs| && IsBelow(h, vs[k], first) && IsBelow(h, vs[m], second))
  }

  /** What is in order below the steps of a value is in order below the value. */
  lemma OrderOfSteps(h: Heap, v: Visit, first: Ref, second: Ref)
    requires WellFormed(h) && IsContainer(h, v.item) && AreInOrderBelow(h, Steps(h, v), first, second)
    ensures AreInOrder(h, v, first, second)
  {
    if k :| 0 <= k < |Steps(h, v)| && AreInOrder(h, Steps(h, v)[k], first, second) {
      OneStepUp(h, v, k, first, second);
    } else {
      var k, m :| 0 <= k < m < |Steps(h, v)|
               && IsBelow(h, Steps(h, v)[k], first) && IsBelow(h, Steps(h, v)[m], second);
      Across(h, v, k, m, first, second);
    }
  }

  /** One below a step, the other below a later one. */
  lemma Across(h: Heap, v: Visit, k: nat, m: nat, first: Ref, second: Ref)
    requires WellFormed(h) && IsContainer(h, v.item) && k < m < |Steps(h, v)|
    requires IsBelow(h, Steps(h, v)[k], first) && IsBelow(h, Steps(h, v)[m], second)
    ensures AreInOrder(h, v, first, second)
  {
    var p :| LeadsTo(h, Steps(h, v)[k], p, first);
    var q :| LeadsTo(h, Steps(h, v)[m], q, second);
    var c := KeysThrough(h, v, k, p, first);
    var d := KeysThrough(h, v, m, q, second);
    StepsAreInOrder(h, v, k, m);
    assert FoundInOrder(h, v, first, second, [KeyOf(h, v, k)] + c, [KeyOf(h, v, m)] + d);
  }

  // ---------- the references of a walk ----------

  /** Of these references each is in order before those behind it. */
  ghost predicate Sorted(h: Heap, v: Visit, refs: seq<Ref>) {
    forall i, j :: 0 <= i < j < |refs| ==> AreInOrder(h, v, refs[i], refs[j])
  }

  ghost predicate SortedBelow(h: Heap, vs: seq<Visit>, refs: seq<Ref>) {
    forall i, j :: 0 <= i < j < |refs| ==> AreInOrderBelow(h, vs, refs[i], refs[j])
  }

  ghost predicate BelowOne(h: Heap, vs: seq<Visit>, r: Ref) { exists k :: 0 <= k < |vs| && IsBelow(h, vs[k], r) }

  lemma OrderOfOthers(h: Heap, vs: seq<Visit>, first: Ref, second: Ref)
    requires vs != [] && AreInOrderBelow(h, vs[1..], first, second)
    ensures AreInOrderBelow(h, vs, first, second)
  {
    if k :| 0 <= k < |vs[1..]| && AreInOrder(h, vs[1..][k], first, second) {
      assert vs[k + 1] == vs[1..][k];
    } else {
      var k, m :| 0 <= k < m < |vs[1..]| && IsBelow(h, vs[1..][k], first) && IsBelow(h, vs[1..][m], second);
      assert vs[k + 1] == vs[1..][k] && vs[m + 1] == vs[1..][m];
    }
  }

  lemma FirstBeforeOthers(h: Heap, vs: seq<Visit>, first: Ref, second: Ref)
    requires vs != [] && IsBelow(h, vs[0], first) && BelowOne(h, vs[1..], second)
    ensures AreInOrderBelow(h, vs, first, second)
  {
    var k :| 0 <= k < |vs[1..]| && IsBelow(h, vs[1..][k], second);
    assert vs[k + 1] == vs[1..][k];
  }

  /** What is found in the first value, and behind it what is found in the others. */
  lemma JoinSorted(h: Heap, vs: seq<Visit>, a: seq<Ref>, b: seq<Ref>)
    requires vs != [] && Sorted(h, vs[0], a) && SortedBelow(h, vs[1..], b)
    requires forall r :: r in a ==> IsBelow(h, vs[0], r)
    requires forall r :: r in b ==> BelowOne(h, vs[1..], r)
    ensures SortedBelow(h, vs, a + b)
  {
    forall i, j | 0 <= i < j < |a + b| ensures AreInOrderBelow(h, vs, (a + b)[i], (a + b)[j]) {
      if j < |a| {
        assert AreInOrder(h, vs[0], a[i], a[j]);
      } else if i < |a| {
        FirstBeforeOthers(h, vs, a[i], b[j - |a|]);
      } else {
        OrderOfOthers(h, vs, b[i - |a|], b[j - |a|]);
      }
    }
  }

  /** What is sorted below the steps of a value is sorted below the value. */
  lemma SortedUp(h: Heap, v: Visit, refs: seq<Ref>)
    requires WellFormed(h) && IsContainer(h, v.item) && SortedBelow(h, Steps(h, v), refs)
    ensures Sorted(h, v, refs)
  {
    forall i, j | 0 <= i < j < |refs| ensures AreInOrder(h, v, refs[i], refs[j]) {
      OrderOfSteps(h, v, refs[i], refs[j]);
    }
  }

  /** One at most, and behind it others. */
  lemma JoinOwn(h: Heap, v: Visit, own: seq<Ref>, below: seq<Ref>)
    requires |own| <= 1 && Sorted(h, v, below)
    requires forall r, q :: r in own && q in below ==> AreInOrder(h, v, r, q)
    ensures Sorted(h, v, own + below)
  {
    forall i, j | 0 <= i < j < |own + below| ensures AreInOrder(h, v, (own + below)[i], (own + below)[j]) {
      if i < |own| {
        assert own[i] in own && below[j - |own|] in below;
      } else {
        assert AreInOrder(h, v, below[i - |own|], below[j - |own|]);
      }
    }
  }

  lemma OwnIsFirst(h: Heap, v: Visit, own: Ref, r: Ref)
    requires WellFormed(h) && IsContainer(h, v.item) && own in OwnRef(h, v) && BelowOne(h, Steps(h, v), r)
    ensures AreInOrder(h, v, own, r)
  {
    var m :| 0 <= m < |Steps(h, v)| && IsBelow(h, Steps(h, v)[m], r);
    var path :| LeadsTo(h, Steps(h, v)[m], path, r);
    var more := KeysThrough(h, v, m, path, r);
    OwnRefPointer(h, v, own);
    assert v.pointer + PointerOf([]) == v.pointer;
    assert FoundInOrder(h, v, own, r, [], [KeyOf(h, v, m)] + more);
  }

  /** A mapping that is a reference, and behind it what is found below it. */
  lemma SortedHere(h: Heap, v: Visit, own: seq<Ref>, below: seq<Ref>)
    requires WellFormed(h) && IsContainer(h, v.item) && own == OwnRef(h, v) && SortedBelow(h, Steps(h, v), below)
    requires forall r :: r in below ==> BelowOne(h, Steps(h, v), r)
    ensures Sorted(h, v, own + below)
  {
    SortedUp(h, v, below);
    forall r, q | r in own && q in below ensures AreInOrder(h, v, r, q) {
      OwnIsFirst(h, v, r, q);
    }
    JoinOwn(h, v, own, below);
  }

  lemma OneIsBelow(h: Heap, v: Visit, depth: nat, inside: set<Id>, nodes: nat)
    ensures forall r :: r in WalkOne(h, v, depth, inside, nodes).refs ==> IsBelow(h, v, r)
  {
    forall r | r in WalkOne(h, v, depth, inside, nodes).refs ensures IsBelow(h, v, r) {
      var path := FoundOnARoute(h, v, depth, inside, nodes, r);
    }
  }

  lemma EachIsBelow(h: Heap, vs: seq<Visit>, depth: nat, inside: set<Id>, nodes: nat)
    ensures forall r :: r in WalkEach(h, vs, depth, inside, nodes).refs ==> BelowOne(h, vs, r)
  {
    forall r | r in WalkEach(h, vs, depth, inside, nodes).refs ensures BelowOne(h, vs, r) {
      var k, path := FoundBelow(h, vs, depth, inside, nodes, r);
      assert IsBelow(h, vs[k], r);
    }
  }

  lemma {:induction false} OneIsSorted(h: Heap, v: Visit, depth: nat, inside: set<Id>, nodes: nat)
    requires WellFormed(h)
    ensures Sorted(h, v, WalkOne(h, v, depth, inside, nodes).refs)
    decreases MAX_DEPTH - depth, 0
  {
    if nodes < MAX_NODES && IsContainer(h, v.item) && v.item.id !in inside && depth < MAX_DEPTH {
      var within := inside + {v.item.id};
      EachIsSorted(h, Steps(h, v), depth + 1, within, nodes + 1);
      EachIsBelow(h, Steps(h, v), depth + 1, within, nodes + 1);
      var own, below := OwnRef(h, v), WalkEach(h, Steps(h, v), depth + 1, within, nodes + 1).refs;
      SortedHere(h, v, own, below);
    }
  }

  lemma {:induction false} EachIsSorted(h: Heap, vs: seq<Visit>, depth: nat, inside: set<Id>, nodes: nat)
    requires WellFormed(h)
    ensures SortedBelow(h, vs, WalkEach(h, vs, depth, inside, nodes).refs)
    decreases MAX_DEPTH - depth, 1, |vs|
  {
    if vs == [] {
    } else {
      var first := WalkOne(h, vs[0], depth, inside, nodes);
      OneIsSorted(h, vs[0], depth, inside, nodes);
      OneIsBelow(h, vs[0], depth, inside, nodes);
      if first.stop.Done? {
        EachIsSorted(h, vs[1..], depth, inside, first.nodes);
        EachIsBelow(h, vs[1..], depth, inside, first.nodes);
        JoinSorted(h, vs, first.refs, WalkEach(h, vs[1..], depth, inside, first.nodes).refs);
      } else {
        JoinSorted(h, vs, first.refs, []);
        assert first.refs + [] == first.refs;
      }
    }
  }

  lemma {:induction false} NothingPrecedesItself(h: Heap, item: Item, keys: seq<string>)
    ensures !InOrder(h, item, keys, keys)
    decreases |keys|
  {
    if keys != [] && Descend(h, item, keys[0]).Found? {
      NothingPrecedesItself(h, Descend(h, item, keys[0]).item, keys[1..]);
    }
  }

  /**
    References are found in the order of the document: a mapping that is one before those inside it,
    entries of a mapping and items of a list as they stand, and so none twice.
  */
  lemma ReferencesInOrder(h: Heap, document: Item, i: nat, j: nat) returns (a: seq<string>, b: seq<string>)
    requires WellFormed(h) && i < j < |Whole(h, document).refs|
    ensures var refs := Whole(h, document).refs;
            && refs[i].pointer == PointerOf(a) && refs[j].pointer == PointerOf(b) && InOrder(h, document, a, b)
            && refs[i].pointer != refs[j].pointer
  {
    var refs := Whole(h, document).refs;
    OneIsSorted(h, Start(document), 0, {}, 0);
    assert AreInOrder(h, Start(document), refs[i], refs[j]);
    a, b :| FoundInOrder(h, Start(document), refs[i], refs[j], a, b);
    NothingPrecedesItself(h, document, a);
    if PointerOf(a) == PointerOf(b) {
      SamePointerSameKeys(a, b);
    }
  }
}
