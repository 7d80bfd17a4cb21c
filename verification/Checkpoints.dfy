/**
  The plan of a package's checkpoints, read off its tests (authoring/_checkpoints.py).
*/
module Checkpoints {
  import opened Sequences
  import opened Wrappers

  // ---------- what makes a step a checkpoint ----------

  datatype Direction = Inbound | Outbound | Internal

  datatype Via = Direct | Dataplane

  datatype Checkpoint = Checkpoint(direction: Direction, via: Option<Via>)

  /** A checkpoint as it is built: inbound is direct unless `via` is given, internal has none. */
  function Built(direction: Direction, via: Option<Via>, given: bool): Option<Checkpoint> {
    var how := if direction.Inbound? && !given then Some(Direct) else via;
    if direction.Internal? && how.Some? then None else Some(Checkpoint(direction, how))
  }

  /** A test's `checkpoint:` key: not given, `false`, `true`, or what the checkpoint is. */
  datatype Mark = Unmarked | Off | On | Given(direction: Option<Direction>, via: Option<Via>)

  /** How often a flow step runs what it carries under a key; a phase runs its steps once. */
  datatype NestedRun = Once | Conditional | Repeated

  datatype Carried = Carried(key: string, run: NestedRun)

  datatype StepType = StepType(declared: Option<Checkpoint>, carried: seq<Carried>)

  type Types = map<string, StepType>

  // ---------- tests ----------

  datatype Definition = Definition(id: string, uses: string, mark: Mark, params: Params)

  datatype Params = NoParams | Param(key: string, value: Value, others: Params)

  datatype Value = Listed(items: Items) | Other

  /** A list under a key: its elements are steps, or no steps at all. */
  datatype Items = NoItems | Step(definition: Definition, after: Items) | NoStep(after: Items)

  /** A test by its manifest entry and its id, its phases holding their steps. */
  datatype Test = Test(testId: string, id: string, phases: Params)

  const PHASES: seq<Carried> := [Carried("setup", Once), Carried("execution", Once), Carried("teardown", Once)]

  /** A key and a position under it; a path of them leads from a test to a step. */
  datatype Edge = Edge(key: string, index: nat)

  type Path = seq<Edge>

  /** Where a walk has come to, and whether an edge behind it was conditional or repeated. */
  datatype Position = Position(owner: string, path: Path, conditional: bool, repeated: bool)

  datatype Planned = Planned(at: Position, step: Definition, checkpoint: Checkpoint, asks: bool)

  function Entering(at: Position, run: NestedRun): Position {
    at.(conditional := at.conditional || run.Conditional?, repeated := at.repeated || run.Repeated?)
  }

  function Moved(at: Position, edge: Edge): Position { at.(path := at.path + [edge]) }

  function CarriedBy(types: Types, uses: string): seq<Carried> {
    if uses in types then types[uses].carried else []
  }

  function DeclaredBy(types: Types, uses: string): Option<Checkpoint> {
    if uses in types then types[uses].declared else None
  }

  /** The checkpoint a mark asks for; `via` is passed over where it would be invalid. */
  function MarkedAs(direction: Option<Direction>, via: Option<Via>): Checkpoint {
    var d := if direction.Some? then direction.value else Outbound;
    var built := Built(d, via, true);
    if built.Some? then built.value else Built(d, None, false).value
  }

  /** The checkpoint a step is, and whether the step asks for itself. */
  function Effective(types: Types, step: Definition): Option<(Checkpoint, bool)> {
    if step.mark.Off? then None
    else
      match DeclaredBy(types, step.uses)
      case Some(c) => Some((c, c.direction != Outbound))
      case None =>
        match step.mark
        case Unmarked => None
        case Given(direction, via) => Some((MarkedAs(direction, via), false))
        case _ => Some((Built(Outbound, None, false).value, false))
  }

  /** What is listed under `key`; None where nothing is, or no list. */
  function Under(params: Params, key: string): (items: Option<Items>)
    ensures items.Some? ==> items.value < params
  {
    match params
    case NoParams => None
    case Param(k, value, others) =>
      if k == key then (if value.Listed? then Some(value.items) else None) else Under(others, key)
  }

  // ---------- the walk ----------

  function PlannedAs(types: Types, at: Position, step: Definition): (p: Option<Planned>)
    ensures p.Some? ==> p.value.at == at && p.value.step == step
  {
    match Effective(types, step)
    case None => None
    case Some((checkpoint, asks)) => Some(Planned(at, step, checkpoint, asks))
  }

  /** The plan below one step: itself, where it is a checkpoint, and after it what lies below it. */
  function Walk(types: Types, at: Position, step: Definition): seq<Planned>
    decreases step, 0
  {
    Own(types, at, step) + WalkKeys(types, at, step.params, CarriedBy(types, step.uses), 0)
  }

  function Own(types: Types, at: Position, step: Definition): seq<Planned> {
    var own := PlannedAs(types, at, step);
    if own.Some? then [own.value] else []
  }

  /** What is carried under the keys from the `k`th on. */
  function WalkKeys(types: Types, at: Position, params: Params, keys: seq<Carried>, k: nat): seq<Planned>
    requires k <= |keys|
    decreases params, |keys| - k
  {
    if k == |keys| then []
    else WalkKey(types, at, params, keys[k]) + WalkKeys(types, at, params, keys, k + 1)
  }

  function WalkKey(types: Types, at: Position, params: Params, carried: Carried): seq<Planned>
    decreases params, 0
  {
    match Under(params, carried.key)
    case None => []
    case Some(items) => WalkItems(types, Entering(at, carried.run), items, carried.key, 0)
  }

  /** The steps among `items`, the first of which sits at `index` under `key`. */
  function WalkItems(types: Types, at: Position, items: Items, key: string, index: nat): seq<Planned>
    decreases items, 0
  {
    match items
    case NoItems => []
    case Step(step, after) =>
      Walk(types, Moved(at, Edge(key, index)), step) + WalkItems(types, at, after, key, index + 1)
    case NoStep(after) => WalkItems(types, at, after, key, index + 1)
  }

  function Start(test: Test): Position { Position(test.id, [], false, false) }

  function OfTest(types: Types, test: Test): seq<Planned> {
    WalkKeys(types, Start(test), test.phases, PHASES, 0)
  }

  // ---------- what a path leads to, without walking ----------

  function ItemAt(items: Items, index: nat): Option<Definition> {
    match items
    case NoItems => None
    case Step(step, after) => if index == 0 then Some(step) else ItemAt(after, index - 1)
    case NoStep(after) => if index == 0 then None else ItemAt(after, index - 1)
  }

  function StepAt(params: Params, edge: Edge): Option<Definition> {
    match Under(params, edge.key)
    case None => None
    case Some(items) => ItemAt(items, edge.index)
  }

  /** The place of `key` among `keys`, |keys| where it is not one of them. */
  function Place(keys: seq<Carried>, key: string): (n: nat)
    ensures n <= |keys|
    ensures n < |keys| ==> keys[n].key == key
    ensures forall i :: 0 <= i < n ==> keys[i].key != key
  {
    if keys == [] || keys[0].key == key then 0 else 1 + Place(keys[1..], key)
  }

  /** A step and how the edges on the way to it are run. */
  datatype Found = Found(step: Definition, runs: seq<NestedRun>)

  function Lookup(types: Types, params: Params, keys: seq<Carried>, path: Path): Option<Found>
    decreases |path|
  {
    if path == [] || Place(keys, path[0].key) == |keys| then None
    else
      var run := keys[Place(keys, path[0].key)].run;
      match StepAt(params, path[0])
      case None => None
      case Some(step) =>
        if |path| == 1 then Some(Found(step, [run]))
        else
          match Lookup(types, step.params, CarriedBy(types, step.uses), path[1..])
          case None => None
          case Some(found) => Some(Found(found.step, [run] + found.runs))
  }

  /** Run order: a step before those it carries, by key as declared, then by position. */
  predicate Precedes(types: Types, params: Params, keys: seq<Carried>, a: Path, b: Path)
    decreases |a|
  {
    if a == [] || b == [] then a == [] && b != []
    else if a[0].key != b[0].key then Place(keys, a[0].key) < Place(keys, b[0].key)
    else if a[0].index != b[0].index then a[0].index < b[0].index
    else
      var step := StepAt(params, a[0]);
      step.Some? && Precedes(types, step.value.params, CarriedBy(types, step.value.uses), a[1..], b[1..])
  }

  lemma {:induction false} NothingPrecedesItself(types: Types, params: Params, keys: seq<Carried>, a: Path)
    ensures !Precedes(types, params, keys, a, a)
    decreases |a|
  {
    if a != [] && StepAt(params, a[0]).Some? {
      var step := StepAt(params, a[0]).value;
      NothingPrecedesItself(types, step.params, CarriedBy(types, step.uses), a[1..]);
    }
  }

  // ---------- the walk finds what paths lead to ----------

  function Reached(at: Position, rest: Path, runs: seq<NestedRun>): Position {
    Position(at.owner, at.path + rest, at.conditional || Conditional in runs, at.repeated || Repeated in runs)
  }

  /** What should be planned `rest` below a position whose step carries `params`. */
  function Below(types: Types, at: Position, params: Params, keys: seq<Carried>, rest: Path): Option<Planned> {
    match Lookup(types, params, keys, rest)
    case None => None
    case Some(found) => PlannedAs(types, Reached(at, rest, found.runs), found.step)
  }

  /** What should be planned `rest` below a step, itself included. */
  function From(types: Types, at: Position, step: Definition, rest: Path): Option<Planned> {
    if rest == [] then PlannedAs(types, at, step)
    else Below(types, at, step.params, CarriedBy(types, step.uses), rest)
  }

  /** Going down one edge. */
  lemma BelowEdge(types: Types, at: Position, params: Params, keys: seq<Carried>, rest: Path)
    requires rest != []
    ensures var n := Place(keys, rest[0].key);
            var step := StepAt(params, rest[0]);
            Below(types, at, params, keys, rest) ==
            if n == |keys| || step.None? then None
            else From(types, Moved(Entering(at, keys[n].run), rest[0]), step.value, rest[1..])
  {
    var n := Place(keys, rest[0].key);
    var step := StepAt(params, rest[0]);
    if n < |keys| && step.Some? {
      var run, uses := keys[n].run, step.value.uses;
      if |rest| == 1 {
        assert rest == [rest[0]];
        assert Reached(at, rest, [run]) == Moved(Entering(at, run), rest[0]);
      } else if Lookup(types, step.value.params, CarriedBy(types, uses), rest[1..]).Some? {
        ReachedThrough(at, rest, run, Lookup(types, step.value.params, CarriedBy(types, uses), rest[1..]).value.runs);
      }
    }
  }

  lemma ReachedThrough(at: Position, rest: Path, run: NestedRun, runs: seq<NestedRun>)
    requires rest != []
    ensures Reached(at, rest, [run] + runs) == Reached(Moved(Entering(at, run), rest[0]), rest[1..], runs)
  {
    assert at.path + rest == (at.path + [rest[0]]) + rest[1..];
  }

  ghost predicate DistinctKeys(keys: seq<Carried>) {
    forall i, j :: 0 <= i < j < |keys| ==> keys[i].key != keys[j].key
  }

  /** A step type's carried steps are declared in a dictionary. */
  ghost predicate WellFormed(types: Types) { forall uses :: uses in types ==> DistinctKeys(types[uses].carried) }

  lemma PlaceOf(keys: seq<Carried>, k: nat)
    requires DistinctKeys(keys) && k < |keys|
    ensures Place(keys, keys[k].key) == k
  {
  }

  /** The path from `at` to what was planned. */
  function Rest(at: Position, p: Planned): Path {
    if |p.at.path| >= |at.path| then p.at.path[|at.path|..] else []
  }

  lemma {:induction false} WalkSound(types: Types, at: Position, step: Definition, p: Planned)
    requires WellFormed(types) && p in Walk(types, at, step)
    ensures |p.at.path| >= |at.path| && From(types, at, step, Rest(at, p)) == Some(p)
    decreases step, 0
  {
    if p in Own(types, at, step) {
      assert Rest(at, p) == [];
    } else {
      KeysSound(types, at, step.params, CarriedBy(types, step.uses), 0, p);
    }
  }

  lemma {:induction false} KeysSound(types: Types, at: Position, params: Params, keys: seq<Carried>, k: nat, p: Planned)
    requires WellFormed(types) && DistinctKeys(keys) && k <= |keys| && p in WalkKeys(types, at, params, keys, k)
    ensures |p.at.path| > |at.path| && Place(keys, Rest(at, p)[0].key) >= k
    ensures Below(types, at, params, keys, Rest(at, p)) == Some(p)
    decreases params, |keys| - k
  {
    if p in WalkKey(types, at, params, keys[k]) {
      PlaceOf(keys, k);
      KeySound(types, at, params, keys[k], p);
      BelowEdge(types, at, params, keys, Rest(at, p));
    } else {
      KeysSound(types, at, params, keys, k + 1, p);
    }
  }

  lemma {:induction false} KeySound(types: Types, at: Position, params: Params, carried: Carried, p: Planned)
    requires WellFormed(types) && p in WalkKey(types, at, params, carried)
    ensures |p.at.path| > |at.path| && Rest(at, p)[0].key == carried.key && StepAt(params, Rest(at, p)[0]).Some?
    ensures From(types, Moved(Entering(at, carried.run), Rest(at, p)[0]),
                 StepAt(params, Rest(at, p)[0]).value, Rest(at, p)[1..])
         == Some(p)
    decreases params, 0
  {
    var items := Under(params, carried.key).value;
    ItemsSound(types, Entering(at, carried.run), items, carried.key, 0, p);
  }

  lemma {:induction false} ItemsSound(types: Types, at: Position, items: Items, key: string, index: nat, p: Planned)
    requires WellFormed(types) && p in WalkItems(types, at, items, key, index)
    ensures |p.at.path| > |at.path| && Rest(at, p)[0].key == key && Rest(at, p)[0].index >= index
    ensures var step := ItemAt(items, Rest(at, p)[0].index - index);
            step.Some? && From(types, Moved(at, Rest(at, p)[0]), step.value, Rest(at, p)[1..]) == Some(p)
    decreases items, 0
  {
    match items
    case Step(step, after) =>
      var here := Moved(at, Edge(key, index));
      if p in Walk(types, here, step) {
        WalkSound(types, here, step, p);
        FromExtends(types, here, step, Rest(here, p));
        assert p.at.path == here.path + Rest(here, p);
        assert Rest(at, p) == [Edge(key, index)] + Rest(here, p);
        assert Rest(at, p)[1..] == Rest(here, p);
      } else {
        ItemsSound(types, at, after, key, index + 1, p);
      }
    case NoStep(after) => ItemsSound(types, at, after, key, index + 1, p);
  }

  lemma FromExtends(types: Types, at: Position, step: Definition, rest: Path)
    ensures From(types, at, step, rest).Some? ==> From(types, at, step, rest).value.at.path == at.path + rest
  {
  }

  lemma {:induction false} WalkComplete(types: Types, at: Position, step: Definition, rest: Path)
    requires WellFormed(types) && From(types, at, step, rest).Some?
    ensures From(types, at, step, rest).value in Walk(types, at, step)
    decreases step, 0
  {
    if rest != [] {
      KeysComplete(types, at, step.params, CarriedBy(types, step.uses), 0, rest);
    }
  }

  lemma {:induction false} KeysComplete(types: Types, at: Position, params: Params, keys: seq<Carried>, k: nat,
                                        rest: Path)
    requires WellFormed(types) && rest != [] && k <= Place(keys, rest[0].key)
    requires Below(types, at, params, keys, rest).Some?
    ensures Below(types, at, params, keys, rest).value in WalkKeys(types, at, params, keys, k)
    decreases params, |keys| - k
  {
    BelowEdge(types, at, params, keys, rest);
    if k < Place(keys, rest[0].key) {
      KeysComplete(types, at, params, keys, k + 1, rest);
    } else {
      var items := Under(params, rest[0].key).value;
      ItemsComplete(types, Entering(at, keys[k].run), items, rest[0].key, 0, rest[0].index, rest[1..]);
      assert Below(types, at, params, keys, rest).value in WalkKey(types, at, params, keys[k]);
    }
  }

  lemma {:induction false} ItemsComplete(types: Types, at: Position, items: Items, key: string, index: nat, i: nat,
      rest: Path)
    requires WellFormed(types) && ItemAt(items, i).Some?
    requires From(types, Moved(at, Edge(key, index + i)), ItemAt(items, i).value, rest).Some?
    ensures From(types, Moved(at, Edge(key, index + i)), ItemAt(items, i).value, rest).value
         in WalkItems(types, at, items, key, index)
    decreases items, 0
  {
    match items
    case Step(step, after) =>
      if i == 0 {
        WalkComplete(types, Moved(at, Edge(key, index)), step, rest);
      } else {
        ItemsComplete(types, at, after, key, index + 1, i - 1, rest);
      }
    case NoStep(after) => ItemsComplete(types, at, after, key, index + 1, i - 1, rest);
  }

  // ---------- in run order ----------

  /** A place planned below a step extends its path. */
  lemma WalkExtends(types: Types, at: Position, step: Definition, p: Planned)
    requires WellFormed(types) && p in Walk(types, at, step)
    ensures p.at.path == at.path + Rest(at, p)
  {
    WalkSound(types, at, step, p);
    FromExtends(types, at, step, Rest(at, p));
  }

  lemma RestOfLonger(at: Position, edge: Edge, p: Planned, rest: Path)
    requires p.at.path == at.path + [edge] + rest
    ensures |p.at.path| > |at.path| && Rest(at, p) == [edge] + rest
  {
    Associates(at.path, [edge], rest);
  }

  /** What is planned below an edge lies below its end. */
  lemma BehindEdge(types: Types, at: Position, edge: Edge, step: Definition, p: Planned)
    requires WellFormed(types) && p in Walk(types, Moved(at, edge), step)
    ensures |p.at.path| > |at.path| && Rest(at, p) == [edge] + Rest(Moved(at, edge), p)
  {
    WalkExtends(types, Moved(at, edge), step, p);
    RestOfLonger(at, edge, p, Rest(Moved(at, edge), p));
  }

  lemma {:induction false} WalkOrdered(types: Types, at: Position, step: Definition, i: nat, j: nat)
    requires WellFormed(types) && i < j < |Walk(types, at, step)|
    ensures var ps := Walk(types, at, step);
            Precedes(types, step.params, CarriedBy(types, step.uses), Rest(at, ps[i]), Rest(at, ps[j]))
    decreases step, 0
  {
    var own, keys := Own(types, at, step), CarriedBy(types, step.uses);
    var below := WalkKeys(types, at, step.params, keys, 0);
    var ps := Walk(types, at, step);
    assert ps[j] == below[j - |own|];
    if i < |own| {
      KeysSound(types, at, step.params, keys, 0, ps[j]);
      assert Rest(at, ps[i]) == [];
    } else {
      assert ps[i] == below[i - |own|];
      KeysOrdered(types, at, step.params, keys, 0, i - |own|, j - |own|);
    }
  }

  /** Run order among what is listed under one key, the first element at `index`. */
  predicate ItemsInOrder(types: Types, items: Items, key: string, index: nat, a: Path, b: Path) {
    && a != [] && b != [] && a[0].key == b[0].key == key && index <= a[0].index <= b[0].index
    && (a[0].index == b[0].index ==>
          var step := ItemAt(items, a[0].index - index);
          step.Some? && Precedes(types, step.value.params, CarriedBy(types, step.value.uses), a[1..], b[1..]))
  }

  lemma UnderOneKey(types: Types, params: Params, keys: seq<Carried>, key: string, a: Path, b: Path)
    requires Under(params, key).Some? && ItemsInOrder(types, Under(params, key).value, key, 0, a, b)
    ensures Precedes(types, params, keys, a, b)
  {
    assert StepAt(params, a[0]) == ItemAt(Under(params, key).value, a[0].index);
  }

  lemma UnderLaterKey(types: Types, params: Params, keys: seq<Carried>, a: Path, b: Path)
    requires a != [] && b != [] && Place(keys, a[0].key) < Place(keys, b[0].key)
    ensures Precedes(types, params, keys, a, b)
  {
  }

  lemma SameItem(types: Types, step: Definition, after: Items, edge: Edge, a: Path, b: Path)
    requires Precedes(types, step.params, CarriedBy(types, step.uses), a, b)
    ensures ItemsInOrder(types, Step(step, after), edge.key, edge.index, [edge] + a, [edge] + b)
  {
    assert ([edge] + a)[1..] == a && ([edge] + b)[1..] == b;
  }

  lemma LaterItems(types: Types, items: Items, key: string, index: nat, a: Path, b: Path)
    requires !items.NoItems? && ItemsInOrder(types, items.after, key, index + 1, a, b)
    ensures ItemsInOrder(types, items, key, index, a, b)
  {
    assert ItemAt(items, a[0].index - index) == ItemAt(items.after, a[0].index - index - 1);
  }

  lemma JoinedAt<T>(a: seq<T>, b: seq<T>, i: nat)
    requires i < |a + b|
    ensures (a + b)[i] == if i < |a| then a[i] else b[i - |a|]
  {
  }

  /** Two planned below one key. */
  lemma KeyOrdered(types: Types, at: Position, params: Params, keys: seq<Carried>, carried: Carried, i: nat, j: nat)
    requires WellFormed(types) && i < j < |WalkKey(types, at, params, carried)|
    ensures var ps := WalkKey(types, at, params, carried);
            Precedes(types, params, keys, Rest(at, ps[i]), Rest(at, ps[j]))
    decreases params, 0
  {
    ItemsOrdered(types, Entering(at, carried.run), Under(params, carried.key).value, carried.key, 0, i, j);
    var ps := WalkKey(types, at, params, carried);
    UnderOneKey(types, params, keys, carried.key, Rest(at, ps[i]), Rest(at, ps[j]));
  }

  /** One planned below a key, the other below a later one. */
  lemma KeysApart(types: Types, at: Position, params: Params, keys: seq<Carried>, k: nat, p: Planned, q: Planned)
    requires WellFormed(types) && DistinctKeys(keys) && k < |keys|
    requires p in WalkKey(types, at, params, keys[k]) && q in WalkKeys(types, at, params, keys, k + 1)
    ensures Precedes(types, params, keys, Rest(at, p), Rest(at, q))
  {
    PlaceOf(keys, k);
    KeySound(types, at, params, keys[k], p);
    KeysSound(types, at, params, keys, k + 1, q);
    UnderLaterKey(types, params, keys, Rest(at, p), Rest(at, q));
  }

  lemma {:induction false} KeysOrdered(types: Types, at: Position, params: Params, keys: seq<Carried>, k: nat,
                                       i: nat, j: nat)
    requires WellFormed(types) && DistinctKeys(keys) && k <= |keys| && i < j < |WalkKeys(types, at, params, keys, k)|
    ensures var ps := WalkKeys(types, at, params, keys, k);
            Precedes(types, params, keys, Rest(at, ps[i]), Rest(at, ps[j]))
    decreases params, |keys| - k + 1
  {
    var first, others := WalkKey(types, at, params, keys[k]), WalkKeys(types, at, params, keys, k + 1);
    JoinedAt(first, others, i);
    JoinedAt(first, others, j);
    if i >= |first| {
      KeysOrdered(types, at, params, keys, k + 1, i - |first|, j - |first|);
    } else if j < |first| {
      KeyOrdered(types, at, params, keys, keys[k], i, j);
    } else {
      KeysApart(types, at, params, keys, k, first[i], others[j - |first|]);
    }
  }

  lemma {:induction false} ItemsOrdered(types: Types, at: Position, items: Items, key: string, index: nat, i: nat,
                                        j: nat)
    requires WellFormed(types) && i < j < |WalkItems(types, at, items, key, index)|
    ensures var ps := WalkItems(types, at, items, key, index);
            ItemsInOrder(types, items, key, index, Rest(at, ps[i]), Rest(at, ps[j]))
    decreases items, 0
  {
    var ps := WalkItems(types, at, items, key, index);
    match items
    case Step(step, after) =>
      var edge := Edge(key, index);
      var first, others := Walk(types, Moved(at, edge), step), WalkItems(types, at, after, key, index + 1);
      if i >= |first| {
        var p, q := others[i - |first|], others[j - |first|];
        assert ps[i] == p && ps[j] == q;
        ItemsOrdered(types, at, after, key, index + 1, i - |first|, j - |first|);
        LaterItems(types, items, key, index, Rest(at, p), Rest(at, q));
      } else {
        var p := first[i];
        assert ps[i] == p;
        BehindEdge(types, at, edge, step, p);
        if j < |first| {
          var q := first[j];
          assert ps[j] == q;
          BehindEdge(types, at, edge, step, q);
          WalkOrdered(types, Moved(at, edge), step, i, j);
          SameItem(types, step, after, edge, Rest(Moved(at, edge), p), Rest(Moved(at, edge), q));
        } else {
          var q := others[j - |first|];
          assert ps[j] == q;
          ItemsSound(types, at, after, key, index + 1, q);
        }
      }
    case NoStep(after) =>
      ItemsOrdered(types, at, after, key, index + 1, i, j);
      LaterItems(types, items, key, index, Rest(at, ps[i]), Rest(at, ps[j]));
  }

  // ---------- a test's plan ----------

  lemma PhasesAreDistinct()
    ensures DistinctKeys(PHASES)
  {
    assert "setup"[0] != "execution"[0] && "execution"[0] != "teardown"[0] && "setup"[0] != "teardown"[0];
  }

  /**
    A test's plan holds exactly the checkpoints its paths lead to: each leads back to its own
    step, and is conditional or repeated exactly when an edge on its path is.
  */
  lemma PlanFindsExactly(types: Types, test: Test, p: Planned)
    requires WellFormed(types)
    ensures p in OfTest(types, test) <==>
            var found := Lookup(types, test.phases, PHASES, p.at.path);
            && found.Some? && found.value.step == p.step
            && Effective(types, p.step) == Some((p.checkpoint, p.asks))
            && p.at.owner == test.id
            && (p.at.conditional <==> Conditional in found.value.runs)
            && (p.at.repeated <==> Repeated in found.value.runs)
  {
    PhasesAreDistinct();
    var at, path := Start(test), p.at.path;
    assert Rest(at, p) == path && [] + path == path;
    if p in OfTest(types, test) {
      KeysSound(types, at, test.phases, PHASES, 0, p);
    } else if Below(types, at, test.phases, PHASES, path) == Some(p) {
      KeysComplete(types, at, test.phases, PHASES, 0, path);
    }
  }

  /** The direction a mark gives, outbound where it gives none. */
  function MarkedDirection(mark: Mark): Direction {
    if mark.Given? && mark.direction.Some? then mark.direction.value else Outbound
  }

  /** The way of travel a mark gives, none for a move inside. */
  function MarkedVia(mark: Mark): Option<Via> {
    if mark.Given? && !MarkedDirection(mark).Internal? then mark.via else None
  }

  /** A test's step of this type is to be planned. */
  predicate IsCheckpoint(types: Types, step: Definition) {
    !step.mark.Off? && (DeclaredBy(types, step.uses).Some? || !step.mark.Unmarked?)
  }

  /** What it is planned as: what its type declares, or else what the test's mark says. */
  predicate IsPlannedAs(types: Types, step: Definition, checkpoint: Checkpoint, asks: bool) {
    && IsCheckpoint(types, step)
    && match DeclaredBy(types, step.uses)
       case Some(declared) => checkpoint == declared && (asks <==> !declared.direction.Outbound?)
       case None => checkpoint == Checkpoint(MarkedDirection(step.mark), MarkedVia(step.mark)) && !asks
  }

  /**
    A step is planned exactly when a path leads to it, the test does not switch it off, and its type
    declares a checkpoint or the test marks it; it asks only where its type declares a direction that does.
  */
  lemma PlannedExactly(types: Types, test: Test, path: Path, step: Definition, checkpoint: Checkpoint, asks: bool)
    requires WellFormed(types)
    ensures (exists p :: p in OfTest(types, test) && p.at.path == path && p.step == step
                      && p.checkpoint == checkpoint && p.asks == asks)
       <==> var found := Lookup(types, test.phases, PHASES, path);
            found.Some? && found.value.step == step && IsPlannedAs(types, step, checkpoint, asks)
  {
    var found := Lookup(types, test.phases, PHASES, path);
    if p :| p in OfTest(types, test) && p.at.path == path && p.step == step
            && p.checkpoint == checkpoint && p.asks == asks {
      PlanFindsExactly(types, test, p);
    }
    if found.Some? && found.value.step == step && IsPlannedAs(types, step, checkpoint, asks) {
      var runs := found.value.runs;
      var p := Planned(Position(test.id, path, Conditional in runs, Repeated in runs), step, checkpoint, asks);
      PlanFindsExactly(types, test, p);
    }
  }

  /** A test's plan is in run order, and no two of its checkpoints share a path. */
  lemma PlanIsInRunOrder(types: Types, test: Test, i: nat, j: nat)
    requires WellFormed(types) && i < j < |OfTest(types, test)|
    ensures var plan := OfTest(types, test);
            && Precedes(types, test.phases, PHASES, plan[i].at.path, plan[j].at.path)
            && plan[i].at.path != plan[j].at.path
  {
    PhasesAreDistinct();
    var at, plan := Start(test), OfTest(types, test);
    KeysOrdered(types, at, test.phases, PHASES, 0, i, j);
    assert Rest(at, plan[i]) == plan[i].at.path && Rest(at, plan[j]) == plan[j].at.path;
    NothingPrecedesItself(types, test.phases, PHASES, plan[i].at.path);
  }

  // ---------- a package's plan ----------

  /** A test is named by its manifest entry or by its id. */
  predicate Skips(skip: set<string>, test: Test) { test.testId in skip || test.id in skip }

  /** The plan of the tests that are not skipped. */
  function Collected(types: Types, tests: seq<Test>, skip: set<string>): seq<Planned> {
    if tests == [] then []
    else
      var last := tests[|tests| - 1];
      Collected(types, tests[..|tests| - 1], skip) + if Skips(skip, last) then [] else OfTest(types, last)
  }

  /** The checkpoints of the tests a run leaves out. */
  function Skipped(types: Types, tests: seq<Test>, skip: set<string>): seq<Planned> {
    if tests == [] then []
    else
      var last := tests[|tests| - 1];
      Skipped(types, tests[..|tests| - 1], skip) + if Skips(skip, last) then OfTest(types, last) else []
  }

  /** A planned checkpoint and the place of its test in the package. */
  datatype Listing = Listing(test: nat, planned: Planned)

  function Listed(test: nat, plan: seq<Planned>): seq<Listing> {
    if plan == [] then [] else Listed(test, plan[..|plan| - 1]) + [Listing(test, plan[|plan| - 1])]
  }

  /** The plan of a run that skips nothing. */
  function Full(types: Types, tests: seq<Test>): seq<Listing> {
    if tests == [] then []
    else Full(types, tests[..|tests| - 1]) + Listed(|tests| - 1, OfTest(types, tests[|tests| - 1]))
  }

  /** Of a plan, in its order, the checkpoints of the tests in `chosen`. */
  function Of(plan: seq<Listing>, chosen: set<nat>): seq<Planned> {
    if plan == [] then []
    else
      var last := plan[|plan| - 1];
      Of(plan[..|plan| - 1], chosen) + if last.test in chosen then [last.planned] else []
  }

  function SkippedTests(tests: seq<Test>, skip: set<string>): set<nat> {
    set i | 0 <= i < |tests| && Skips(skip, tests[i])
  }

  function RunTests(tests: seq<Test>, skip: set<string>): set<nat> {
    set i | 0 <= i < |tests| && !Skips(skip, tests[i])
  }

  lemma {:induction false} OfJoined(a: seq<Listing>, b: seq<Listing>, chosen: set<nat>)
    ensures Of(a + b, chosen) == Of(a, chosen) + Of(b, chosen)
  {
    if b == [] {
      assert a + b == a;
    } else {
      assert (a + b)[..|a + b| - 1] == a + b[..|b| - 1];
      OfJoined(a, b[..|b| - 1], chosen);
    }
  }

  lemma {:induction false} OfOneTest(test: nat, plan: seq<Planned>, chosen: set<nat>)
    ensures Of(Listed(test, plan), chosen) == if test in chosen then plan else []
  {
    if plan == [] {
    } else {
      var front := plan[..|plan| - 1];
      OfOneTest(test, front, chosen);
      LastListed(Listed(test, front), Listing(test, plan[|plan| - 1]), chosen);
      Rejoined(plan, |plan| - 1);
    }
  }

  lemma LastListed(front: seq<Listing>, last: Listing, chosen: set<nat>)
    ensures Of(front + [last], chosen) == Of(front, chosen) + if last.test in chosen then [last.planned] else []
  {
    assert (front + [last])[..|front|] == front;
  }

  lemma LastTestOf(types: Types, tests: seq<Test>, chosen: set<nat>)
    requires tests != []
    ensures var n := |tests| - 1;
            Of(Full(types, tests), chosen)
            == Of(Full(types, tests[..n]), chosen) + if n in chosen then OfTest(types, tests[n]) else []
  {
    var n := |tests| - 1;
    OfJoined(Full(types, tests[..n]), Listed(n, OfTest(types, tests[n])), chosen);
    OfOneTest(n, OfTest(types, tests[n]), chosen);
  }

  /** Only the tests of a plan matter to what is chosen from it. */
  lemma {:induction false} OfSame(types: Types, tests: seq<Test>, a: set<nat>, b: set<nat>)
    requires forall i: nat :: i < |tests| ==> (i in a <==> i in b)
    ensures Of(Full(types, tests), a) == Of(Full(types, tests), b)
  {
    if tests == [] {
    } else {
      OfSame(types, tests[..|tests| - 1], a, b);
      LastTestOf(types, tests, a);
      LastTestOf(types, tests, b);
    }
  }

  lemma {:induction false} CollectedIsOfTheRunTests(types: Types, tests: seq<Test>, skip: set<string>)
    ensures Collected(types, tests, skip) == Of(Full(types, tests), RunTests(tests, skip))
  {
    if tests == [] {
    } else {
      var front := tests[..|tests| - 1];
      CollectedIsOfTheRunTests(types, front, skip);
      OfSame(types, front, RunTests(front, skip), RunTests(tests, skip));
      LastTestOf(types, tests, RunTests(tests, skip));
    }
  }

  lemma {:induction false} SkippedIsOfTheOthers(types: Types, tests: seq<Test>, skip: set<string>)
    ensures Skipped(types, tests, skip) == Of(Full(types, tests), SkippedTests(tests, skip))
  {
    if tests == [] {
    } else {
      var front := tests[..|tests| - 1];
      SkippedIsOfTheOthers(types, front, skip);
      OfSame(types, front, SkippedTests(front, skip), SkippedTests(tests, skip));
      LastTestOf(types, tests, SkippedTests(tests, skip));
    }
  }

  lemma {:induction false} NothingIsLeftOut(types: Types, tests: seq<Test>, skip: set<string>)
    ensures |Collected(types, tests, skip)| + |Skipped(types, tests, skip)| == |Full(types, tests)|
  {
    if tests == [] {
    } else {
      var n := |tests| - 1;
      NothingIsLeftOut(types, tests[..n], skip);
      ListedLength(n, OfTest(types, tests[n]));
    }
  }

  /**
    Whatever is skipped, the full plan is split in two, both in its order: what is collected
    is of the tests that run, and what is skipped is of all the others.
  */
  lemma PlanIsSplit(types: Types, tests: seq<Test>, skip: set<string>)
    ensures Collected(types, tests, skip) == Of(Full(types, tests), RunTests(tests, skip))
    ensures Skipped(types, tests, skip) == Of(Full(types, tests), SkippedTests(tests, skip))
    ensures |Collected(types, tests, skip)| + |Skipped(types, tests, skip)| == |Full(types, tests)|
  {
    CollectedIsOfTheRunTests(types, tests, skip);
    SkippedIsOfTheOthers(types, tests, skip);
    NothingIsLeftOut(types, tests, skip);
  }

  lemma {:induction false} ListedLength(test: nat, plan: seq<Planned>)
    ensures |Listed(test, plan)| == |plan|
  {
    if plan == [] {
    } else {
      ListedLength(test, plan[..|plan| - 1]);
    }
  }

  /** Built as a step type declares it: with `via` only where it names one. */
  ghost predicate IsDeclaration(c: Checkpoint) {
    exists d: Direction, via: Option<Via> :: Built(d, via, via.Some?) == Some(c)
  }

  ghost predicate Declarations(types: Types) {
    forall uses :: uses in types && types[uses].declared.Some? ==> IsDeclaration(types[uses].declared.value)
  }

  /**
    Every inbound checkpoint has its `via`, except where a test marks a step that declares no
    checkpoint as inbound and leaves `via` out.
  */
  lemma InboundLacksViaExactly(types: Types, step: Definition)
    requires Declarations(types)
    ensures (Effective(types, step).Some? && Effective(types, step).value.0 == Checkpoint(Inbound, None))
       <==> DeclaredBy(types, step.uses).None? && step.mark == Given(Some(Inbound), None)
  {
    if DeclaredBy(types, step.uses).Some? {
      assert IsDeclaration(types[step.uses].declared.value);
    }
  }
}
