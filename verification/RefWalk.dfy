/**
  The walk over an API document that finds its references, as a loop over a stack of values to
  visit and containers to leave, and as the recursion it stands for (openapi/ref_walk.py).
*/
module RefWalk {
  import opened Sequences
  import opened Wrappers
  import opened ApiGraph
  import opened Pointers

  /** How many values a walk may visit, a shared one each time it comes to it. */
  const MAX_NODES: nat := 1_000_000
  /** The depth at which a container is no longer entered. */
  const MAX_DEPTH: nat := 128

  const REF: string := "$ref"
  const EXAMPLES: string := "examples"
  const LITERAL_KEYS: set<string> := {"example", "default", "enum", "const"}
  const NAME_MAPS: set<string> := {
    "properties", "patternProperties", "$defs", "definitions", "dependentSchemas",
    "paths", "webhooks", "schemas", "responses", "parameters", "requestBodies", "headers",
    "securitySchemes", "links", "callbacks", "pathItems", "content", "encoding", "variables"
  }

  /** How the keys of a mapping are read: as keywords, or as names its author chose. */
  datatype Role = Object | Names | Examples | Example

  predicate KeyedByName(role: Role) { role.Names? || role.Examples? }

  function ChildRole(key: string, role: Role): Role {
    match role
    case Examples => Example
    case Names => Object
    case _ => if key == EXAMPLES then Examples else if key in NAME_MAPS then Names else Object
  }

  predicate IsList(h: Heap, item: Item) { item.At? && item.id in h && h[item.id].ListOf? }

  /** What is under this key is a value written out as an example, and is not walked. */
  predicate IsLiteral(h: Heap, key: string, value: Item, role: Role) {
    || key in LITERAL_KEYS
    || "x-" <= key
    || (key == EXAMPLES && IsList(h, value))
    || (role.Example? && key == "value")
  }

  /** A value to visit: where it is and what its mapping is. */
  datatype Visit = Visit(item: Item, pointer: string, role: Role)

  datatype Ref = Ref(pointer: string, target: string)

  /** How a walk went on: to its end, or refused for the shape of the document. */
  datatype Stop = Done | TooManyNodes | ContainsItself(at: string) | TooDeep(at: string)

  datatype Walk = Walk(refs: seq<Ref>, nodes: nat, stop: Stop)

  // ---------- the children of a container, in document order ----------

  function ListSteps(items: seq<Item>, pointer: string, index: nat): (steps: seq<Visit>)
    requires index <= |items|
    ensures |steps| == |items| - index
    decreases |items| - index
  {
    if index == |items| then []
    else [Visit(items[index], pointer + "/" + Decimal(index), Object)] + ListSteps(items, pointer, index + 1)
  }

  lemma {:induction false} ListStepsSpec(items: seq<Item>, pointer: string, index: nat, i: nat)
    requires index + i < |items|
    ensures ListSteps(items, pointer, index)[i] == Visit(items[index + i], pointer + "/" + Decimal(index + i), Object)
    decreases i
  {
    HeadAndTail(Visit(items[index], pointer + "/" + Decimal(index), Object), ListSteps(items, pointer, index + 1));
    if i == 0 {
    } else {
      ListStepsSpec(items, pointer, index + 1, i - 1);
    }
  }

  predicate Walked(h: Heap, e: Entry, role: Role) { KeyedByName(role) || !IsLiteral(h, e.key, e.value, role) }

  function MapStep(e: Entry, pointer: string, role: Role): Visit {
    Visit(e.value, pointer + "/" + Escape(e.key), ChildRole(e.key, role))
  }

  function MapSteps(h: Heap, entries: seq<Entry>, pointer: string, role: Role): seq<Visit> {
    if entries == [] then []
    else (if Walked(h, entries[0], role) then [MapStep(entries[0], pointer, role)] else [])
         + MapSteps(h, entries[1..], pointer, role)
  }

  lemma {:induction false} MapStepsSpec(h: Heap, entries: seq<Entry>, pointer: string, role: Role, s: Visit)
    ensures s in MapSteps(h, entries, pointer, role) <==>
            exists i :: 0 <= i < |entries| && Walked(h, entries[i], role) && s == MapStep(entries[i], pointer, role)
  {
    if entries == [] {
    } else {
      MapStepsSpec(h, entries[1..], pointer, role, s);
      var rest := entries[1..];
      if i :| 0 <= i < |rest| && Walked(h, rest[i], role) && s == MapStep(rest[i], pointer, role) {
        assert entries[i + 1] == entries[1..][i];
      }
      if i :| 0 <= i < |entries| && Walked(h, entries[i], role) && s == MapStep(entries[i], pointer, role) {
        if i > 0 { assert entries[1..][i - 1] == entries[i]; }
      }
    }
  }

  predicate IsContainer(h: Heap, item: Item) { item.At? && item.id in h }

  /** The values walked below `v`, one level down. */
  function Steps(h: Heap, v: Visit): seq<Visit>
    requires IsContainer(h, v.item)
  {
    match h[v.item.id]
    case ListOf(items) => ListSteps(items, v.pointer, 0)
    case MapOf(entries) => MapSteps(h, entries, v.pointer, v.role)
  }

  lemma {:induction false} MapStepsAreValues(h: Heap, entries: seq<Entry>, pointer: string, role: Role)
    ensures forall s :: s in MapSteps(h, entries, pointer, role) ==> s.item in Values(entries)
  {
    if entries == [] {
    } else {
      MapStepsAreValues(h, entries[1..], pointer, role);
      assert Values(entries) == [entries[0].value] + Values(entries[1..]);
    }
  }

  lemma StepsAreChildren(h: Heap, v: Visit)
    requires IsContainer(h, v.item)
    ensures forall s :: s in Steps(h, v) ==> s.item in Children(h[v.item.id])
  {
    match h[v.item.id]
    case MapOf(entries) => MapStepsAreValues(h, entries, v.pointer, v.role);
    case ListOf(items) =>
      forall s | s in Steps(h, v) ensures s.item in items {
        var i :| 0 <= i < |items| && Steps(h, v)[i] == s;
        ListStepsSpec(items, v.pointer, 0, i);
      }
  }

  /** The reference a mapping itself is, where its role makes `$ref` a keyword. */
  function OwnRef(h: Heap, v: Visit): seq<Ref>
    requires IsContainer(h, v.item)
  {
    if h[v.item.id].MapOf? && !KeyedByName(v.role) then
      match Lookup(h[v.item.id].entries, REF)
      case Found(Text(target)) => [Ref(v.pointer, target)]
      case _ => []
    else []
  }

  // ---------- the reference: a recursive pre-order walk ----------

  /** One value and all below it; `inside` are the containers the walk is in. */
  ghost function WalkOne(h: Heap, v: Visit, depth: nat, inside: set<Id>, nodes: nat): Walk
    decreases MAX_DEPTH - depth, 0
  {
    if nodes + 1 > MAX_NODES then Walk([], nodes + 1, TooManyNodes)
    else if !IsContainer(h, v.item) then Walk([], nodes + 1, Done)
    else if v.item.id in inside then Walk([], nodes + 1, ContainsItself(v.pointer))
    else if depth >= MAX_DEPTH then Walk([], nodes + 1, TooDeep(v.pointer))
    else After(OwnRef(h, v), WalkEach(h, Steps(h, v), depth + 1, inside + {v.item.id}, nodes + 1))
  }

  ghost function WalkEach(h: Heap, vs: seq<Visit>, depth: nat, inside: set<Id>, nodes: nat): Walk
    decreases MAX_DEPTH - depth, 1, |vs|
  {
    if vs == [] then Walk([], nodes, Done)
    else
      var first := WalkOne(h, vs[0], depth, inside, nodes);
      if !first.stop.Done? then first
      else After(first.refs, WalkEach(h, vs[1..], depth, inside, first.nodes))
  }

  function After(refs: seq<Ref>, rest: Walk): Walk { Walk(refs + rest.refs, rest.nodes, rest.stop) }

  // ---------- the stack ----------

  datatype Frame = Visiting(visit: Visit, depth: nat) | Leave(id: Id)

  datatype Stack = Bottom | On(top: Frame, below: Stack)

  /** The values on top of `below`, the first of them to be popped first. */
  function Pushed(vs: seq<Visit>, depth: nat, below: Stack): Stack {
    if vs == [] then below else On(Visiting(vs[0], depth), Pushed(vs[1..], depth, below))
  }

  /** What is still to come from a stack. */
  ghost function Remaining(h: Heap, stack: Stack, inside: set<Id>, nodes: nat): Walk
    decreases stack, 0
  {
    match stack
    case Bottom => Walk([], nodes, Done)
    case On(Leave(id), below) => Remaining(h, below, inside - {id}, nodes)
    case On(Visiting(v, depth), below) => Continued(WalkOne(h, v, depth, inside, nodes), h, below, inside)
  }

  ghost function Continued(first: Walk, h: Heap, stack: Stack, inside: set<Id>): Walk
    decreases stack, 1
  {
    if !first.stop.Done? then first else After(first.refs, Remaining(h, stack, inside, first.nodes))
  }

  lemma AfterAfter(a: seq<Ref>, b: seq<Ref>, rest: Walk)
    ensures After(a, After(b, rest)) == After(a + b, rest)
    ensures After([], rest) == rest
  {
  }

  /** Popping the values pushed walks them in their order. */
  lemma {:induction false} PushedAreWalked(h: Heap, vs: seq<Visit>, depth: nat, stack: Stack, inside: set<Id>,
      nodes: nat)
    ensures Remaining(h, Pushed(vs, depth, stack), inside, nodes)
         == Continued(WalkEach(h, vs, depth, inside, nodes), h, stack, inside)
  {
    if vs == [] {
      AfterAfter([], [], Remaining(h, stack, inside, nodes));
    } else {
      var first := WalkOne(h, vs[0], depth, inside, nodes);
      if first.stop.Done? {
        PushedAreWalked(h, vs[1..], depth, stack, inside, first.nodes);
        var rest := WalkEach(h, vs[1..], depth, inside, first.nodes);
        AfterAfter(first.refs, rest.refs, Remaining(h, stack, inside, rest.nodes));
      }
    }
  }

  /** Entering a container: its own reference now, its children next, the way out after them. */
  lemma Entered(h: Heap, v: Visit, depth: nat, stack: Stack, inside: set<Id>, nodes: nat)
    requires nodes < MAX_NODES && IsContainer(h, v.item) && v.item.id !in inside && depth < MAX_DEPTH
    ensures Remaining(h, On(Visiting(v, depth), stack), inside, nodes)
         == After(OwnRef(h, v),
                  Remaining(h, Pushed(Steps(h, v), depth + 1, On(Leave(v.item.id), stack)),
                            inside + {v.item.id}, nodes + 1))
  {
    var entered := inside + {v.item.id};
    var below := WalkEach(h, Steps(h, v), depth + 1, entered, nodes + 1);
    PushedAreWalked(h, Steps(h, v), depth + 1, On(Leave(v.item.id), stack), entered, nodes + 1);
    if below.stop.Done? {
      assert entered - {v.item.id} == inside;
      AfterAfter(OwnRef(h, v), below.refs, Remaining(h, stack, inside, below.nodes));
    }
  }

  // ---------- where the walk is ----------

  /** The containers entered and not yet left, the innermost first. */
  function Trail(stack: Stack): seq<Id> {
    match stack
    case Bottom => []
    case On(Leave(id), below) => [id] + Trail(below)
    case On(Visiting(_, _), below) => Trail(below)
  }

  function Subject(f: Frame): Item { if f.Leave? then At(f.id) else f.visit.item }

  /** The container the top of the stack lies in. */
  function Innermost(stack: Stack): Option<Id> {
    match stack
    case Bottom => None
    case On(Leave(id), _) => Some(id)
    case On(Visiting(_, _), below) => Innermost(below)
  }

  /** `item` comes next on a path: it is the document, or a child of the container the path is in. */
  predicate Follows(h: Heap, document: Item, container: Option<Id>, item: Item) {
    match container
    case None => item == document
    case Some(id) => IsChild(h, id, item)
  }

  predicate IsChild(h: Heap, id: Id, item: Item) { id in h && item in Children(h[id]) }

  /** The entry `k` below the top follows the containers entered below it. */
  predicate EntryFollows(h: Heap, document: Item, stack: Stack, k: nat)
    decreases k
  {
    stack.On? ==>
      if k == 0 then Follows(h, document, Innermost(stack.below), Subject(stack.top))
      else EntryFollows(h, document, stack.below, k - 1)
  }

  ghost predicate OnPath(h: Heap, document: Item, stack: Stack) { forall k: nat :: EntryFollows(h, document, stack, k) }

  lemma PathOneMore(h: Heap, document: Item, top: Frame, stack: Stack)
    requires OnPath(h, document, stack) && Follows(h, document, Innermost(stack), Subject(top))
    ensures OnPath(h, document, On(top, stack))
  {
    forall k: nat ensures EntryFollows(h, document, On(top, stack), k) {
      assert k > 0 ==> EntryFollows(h, document, stack, k - 1);
    }
  }

  lemma PathOneLess(h: Heap, document: Item, top: Frame, stack: Stack)
    requires OnPath(h, document, On(top, stack))
    ensures OnPath(h, document, stack) && Follows(h, document, Innermost(stack), Subject(top))
  {
    assert EntryFollows(h, document, On(top, stack), 0);
    forall k: nat ensures EntryFollows(h, document, stack, k) {
      assert EntryFollows(h, document, On(top, stack), k + 1);
    }
  }

  /** `trail` lists the containers `inside`, each once. */
  ghost predicate Lists(trail: seq<Id>, inside: set<Id>) {
    if trail == [] then inside == {} else trail[0] in inside && Lists(trail[1..], inside - {trail[0]})
  }

  lemma {:induction false} ListsEachOnce(trail: seq<Id>, inside: set<Id>)
    requires Lists(trail, inside)
    ensures (forall id :: id in inside <==> id in trail) && |trail| == |inside|
  {
    if trail == [] {
    } else {
      ListsEachOnce(trail[1..], inside - {trail[0]});
      assert inside == (inside - {trail[0]}) + {trail[0]};
    }
  }

  /** `inside` is exactly the set of containers on the path to the entry on top. */
  ghost predicate AtPath(h: Heap, document: Item, stack: Stack, inside: set<Id>) {
    OnPath(h, document, stack) && Lists(Trail(stack), inside)
  }

  lemma ListsOneMore(trail: seq<Id>, inside: set<Id>, id: Id)
    requires id !in inside
    ensures Lists([id] + trail, inside + {id}) == Lists(trail, inside)
  {
    assert ([id] + trail)[1..] == trail && inside + {id} - {id} == inside;
  }

  lemma {:induction false} ChildrenOnPath(h: Heap, document: Item, vs: seq<Visit>, depth: nat, stack: Stack)
    requires OnPath(h, document, stack)
    requires forall v :: v in vs ==> Follows(h, document, Innermost(stack), v.item)
    ensures OnPath(h, document, Pushed(vs, depth, stack))
    ensures Trail(Pushed(vs, depth, stack)) == Trail(stack) && Innermost(Pushed(vs, depth, stack)) == Innermost(stack)
  {
    if vs == [] {
    } else {
      assert vs[0] in vs;
      ChildrenOnPath(h, document, vs[1..], depth, stack);
      PathOneMore(h, document, Visiting(vs[0], depth), Pushed(vs[1..], depth, stack));
    }
  }

  lemma PathEntered(h: Heap, document: Item, v: Visit, depth: nat, stack: Stack, inside: set<Id>)
    requires AtPath(h, document, On(Visiting(v, depth), stack), inside) && IsContainer(h, v.item)
        && v.item.id !in inside
    ensures AtPath(h, document, Pushed(Steps(h, v), depth + 1, On(Leave(v.item.id), stack)), inside + {v.item.id})
  {
    StepsAreChildren(h, v);
    PathOneLess(h, document, Visiting(v, depth), stack);
    PathOneMore(h, document, Leave(v.item.id), stack);
    ChildrenOnPath(h, document, Steps(h, v), depth + 1, On(Leave(v.item.id), stack));
    ListsOneMore(Trail(stack), inside, v.item.id);
  }

  // ---------- the walk ----------

  ghost function Whole(h: Heap, document: Item): Walk { WalkOne(h, Visit(document, "", Object), 0, {}, 0) }

  /** The walk of the whole document is what was found so far, and then what the stack still holds. */
  ghost predicate Standing(h: Heap, document: Item, refs: seq<Ref>, stack: Stack, inside: set<Id>, nodes: nat) {
    && nodes <= MAX_NODES
    && Whole(h, document) == After(refs, Remaining(h, stack, inside, nodes))
    && AtPath(h, document, stack, inside)
  }

  /** Leaving a container. */
  lemma Left(h: Heap, document: Item, refs: seq<Ref>, id: Id, stack: Stack, inside: set<Id>, nodes: nat)
    requires Standing(h, document, refs, On(Leave(id), stack), inside, nodes)
    ensures Standing(h, document, refs, stack, inside - {id}, nodes)
  {
    PathOneLess(h, document, Leave(id), stack);
    assert ([id] + Trail(stack))[1..] == Trail(stack);
  }

  lemma CountedOnly(h: Heap, v: Visit, depth: nat, stack: Stack, inside: set<Id>, nodes: nat)
    requires nodes < MAX_NODES && !IsContainer(h, v.item)
    ensures Remaining(h, On(Visiting(v, depth), stack), inside, nodes) == Remaining(h, stack, inside, nodes + 1)
  {
    AfterAfter([], [], Remaining(h, stack, inside, nodes + 1));
  }

  /** A value that is no container is counted, and that is all. */
  lemma Scalar(h: Heap, document: Item, refs: seq<Ref>, v: Visit, depth: nat, stack: Stack, inside: set<Id>, nodes: nat)
    requires Standing(h, document, refs, On(Visiting(v, depth), stack), inside, nodes)
    requires nodes < MAX_NODES && !IsContainer(h, v.item)
    ensures Standing(h, document, refs, stack, inside, nodes + 1)
  {
    PathOneLess(h, document, Visiting(v, depth), stack);
    CountedOnly(h, v, depth, stack, inside, nodes);
  }

  lemma RefusedOnly(h: Heap, refs: seq<Ref>, v: Visit, depth: nat, stack: Stack, inside: set<Id>, nodes: nat)
    requires !WalkOne(h, v, depth, inside, nodes).stop.Done?
    requires nodes >= MAX_NODES || (IsContainer(h, v.item) && (v.item.id in inside || depth >= MAX_DEPTH))
    ensures After(refs, Remaining(h, On(Visiting(v, depth), stack), inside, nodes))
         == Walk(refs, nodes + 1, WalkOne(h, v, depth, inside, nodes).stop)
  {
    assert refs + [] == refs;
  }

  /** A walk that is refused ends at the value it is refused for. */
  lemma Stopped(h: Heap, document: Item, refs: seq<Ref>, v: Visit, depth: nat, stack: Stack, inside: set<Id>,
                nodes: nat)
    requires Standing(h, document, refs, On(Visiting(v, depth), stack), inside, nodes)
    requires !WalkOne(h, v, depth, inside, nodes).stop.Done?
    requires nodes >= MAX_NODES || (IsContainer(h, v.item) && (v.item.id in inside || depth >= MAX_DEPTH))
    ensures Whole(h, document) == Walk(refs, nodes + 1, WalkOne(h, v, depth, inside, nodes).stop)
  {
    RefusedOnly(h, refs, v, depth, stack, inside, nodes);
  }

  /** Entering a container. */
  lemma EnteredAfter(h: Heap, document: Item, refs: seq<Ref>, v: Visit, depth: nat, stack: Stack, inside: set<Id>,
                     nodes: nat)
    requires Standing(h, document, refs, On(Visiting(v, depth), stack), inside, nodes)
    requires nodes < MAX_NODES && IsContainer(h, v.item) && v.item.id !in inside && depth < MAX_DEPTH
    ensures var pushed := Pushed(Steps(h, v), depth + 1, On(Leave(v.item.id), stack));
            Standing(h, document, refs + OwnRef(h, v), pushed, inside + {v.item.id}, nodes + 1)
  {
    Entered(h, v, depth, stack, inside, nodes);
    PathEntered(h, document, v, depth, stack, inside);
    var pushed := Pushed(Steps(h, v), depth + 1, On(Leave(v.item.id), stack));
    var rest := Remaining(h, pushed, inside + {v.item.id}, nodes + 1);
    AfterAfter(refs, OwnRef(h, v), rest);
  }

  lemma Begun(h: Heap, document: Item)
    ensures Standing(h, document, [], On(Visiting(Visit(document, "", Object), 0), Bottom), {}, 0)
  {
    var first := Whole(h, document);
    assert first.refs + [] == first.refs;
    AfterAfter([], [], Continued(first, h, Bottom, {}));
    PathOneMore(h, document, Visiting(Visit(document, "", Object), 0), Bottom);
  }

  lemma Ended(h: Heap, document: Item, refs: seq<Ref>, inside: set<Id>, nodes: nat)
    requires Standing(h, document, refs, Bottom, inside, nodes)
    ensures Whole(h, document) == Walk(refs, nodes, Done)
  {
    assert refs + [] == refs;
  }

  method References(h: Heap, document: Item) returns (walk: Walk)
    ensures walk == Whole(h, document)
  {
    var nodes := 0;
    var inside: set<Id> := {};
    var refs: seq<Ref> := [];
    var stack := On(Visiting(Visit(document, "", Object), 0), Bottom);
    Begun(h, document);
    while stack.On?
      invariant Standing(h, document, refs, stack, inside, nodes)
      decreases MAX_NODES + 1 - nodes, stack
    {
      var top, below := stack.top, stack.below;
      match top
      case Leave(id) =>
        Left(h, document, refs, id, below, inside, nodes);
        inside := inside - {id};
        stack := below;
      case Visiting(v, depth) =>
        if nodes + 1 > MAX_NODES {
          Stopped(h, document, refs, v, depth, below, inside, nodes);
          return Walk(refs, nodes + 1, TooManyNodes);
        }
        if !IsContainer(h, v.item) {
          Scalar(h, document, refs, v, depth, below, inside, nodes);
          nodes := nodes + 1;
          stack := below;
          continue;
        }
        if v.item.id in inside {
          Stopped(h, document, refs, v, depth, below, inside, nodes);
          return Walk(refs, nodes + 1, ContainsItself(v.pointer));
        }
        if depth >= MAX_DEPTH {
          Stopped(h, document, refs, v, depth, below, inside, nodes);
          return Walk(refs, nodes + 1, TooDeep(v.pointer));
        }
        EnteredAfter(h, document, refs, v, depth, below, inside, nodes);
        stack := Push(h, v, depth + 1, On(Leave(v.item.id), below));
        inside := inside + {v.item.id};
        nodes := nodes + 1;
        refs := refs + OwnRef(h, v);
    }
    Ended(h, document, refs, inside, nodes);
    walk := Walk(refs, nodes, Done);
  }

  /** The children of a container on top of the stack, the first of them last. */
  method Push(h: Heap, v: Visit, depth: nat, below: Stack) returns (stack: Stack)
    requires IsContainer(h, v.item)
    ensures stack == Pushed(Steps(h, v), depth, below)
  {
    stack := below;
    match h[v.item.id]
    case ListOf(items) =>
      for i := |items| downto 0
        invariant stack == Pushed(ListSteps(items, v.pointer, i), depth, below)
      {
        stack := On(Visiting(Visit(items[i], v.pointer + "/" + Decimal(i), Object), depth), stack);
      }
    case MapOf(entries) =>
      for i := |entries| downto 0
        invariant stack == Pushed(MapSteps(h, entries[i..], v.pointer, v.role), depth, below)
      {
        assert entries[i..][1..] == entries[i + 1..];
        var e := entries[i];
        var rest := MapSteps(h, entries[i + 1..], v.pointer, v.role);
        assert [] + rest == rest && ([MapStep(e, v.pointer, v.role)] + rest)[1..] == rest;
        if !KeyedByName(v.role) && IsLiteral(h, e.key, e.value, v.role) {
          continue;
        }
        stack := On(Visiting(MapStep(e, v.pointer, v.role), depth), stack);
      }
      assert entries[0..] == entries;
  }
}
