/**
  Freezing an API document: every container rebuilt once, after its children, and shared
  where it was shared (openapi/readonly.py).
*/
module Freezing {
  import opened ApiGraph

  // ---------- the graph ----------

  predicate HasChild(h: Heap, parent: Id, child: Id) { parent in h && At(child) in Children(h[parent]) }

  /** Every container a container holds is there. */
  ghost predicate Closed(h: Heap) {
    forall parent, child :: HasChild(h, parent, child) ==> child in h
  }

  ghost predicate ClosedUnder(h: Heap, ids: set<Id>) {
    forall parent, child :: parent in ids && HasChild(h, parent, child) ==> child in ids
  }

  /** Nothing in `ids` that the containers below `root` do not make necessary. */
  ghost predicate OnlyBelow(h: Heap, root: Id, ids: set<Id>) {
    forall r: set<Id> :: root in r && ClosedUnder(h, r) ==> ids <= r
  }

  /** The containers a document is made of. */
  ghost predicate IsBelow(h: Heap, root: Id, ids: set<Id>) {
    root in ids && ClosedUnder(h, ids) && OnlyBelow(h, root, ids)
  }

  /** Ranks that fall from every container to its children: there is no way back. */
  ghost predicate Ranks(h: Heap, rank: map<Id, nat>) {
    && rank.Keys <= h.Keys
    && forall parent, child :: parent in rank && HasChild(h, parent, child) ==>
         child in rank && rank[child] < rank[parent]
  }

  // ---------- ways back ----------

  /** Each container of `path` holds the next. */
  ghost predicate IsPath(h: Heap, path: seq<Id>) {
    path != [] && forall i :: 0 <= i < |path| - 1 ==> HasChild(h, path[i], path[i + 1])
  }

  /** A path from `root` that comes back to a container it has been at. */
  ghost predicate WayBack(h: Heap, root: Id, path: seq<Id>) {
    && IsPath(h, path) && path[0] == root
    && exists i :: 0 <= i < |path| - 1 && path[i] == path[|path| - 1]
  }

  ghost predicate Acyclic(h: Heap, root: Id) { forall path :: !WayBack(h, root, path) }

  ghost predicate LeadsTo(h: Heap, from: Id, to: Id, path: seq<Id>) {
    IsPath(h, path) && path[0] == from && path[|path| - 1] == to
  }

  ghost predicate Reaches(h: Heap, from: Id, to: Id) { exists path :: LeadsTo(h, from, to, path) }

  ghost function Reached(h: Heap, from: Id): set<Id> { set id | id in h && Reaches(h, from, id) }

  lemma PathsJoin(h: Heap, a: seq<Id>, b: seq<Id>)
    requires IsPath(h, a) && IsPath(h, b) && HasChild(h, a[|a| - 1], b[0])
    ensures IsPath(h, a + b) && (a + b)[0] == a[0] && (a + b)[|a + b| - 1] == b[|b| - 1]
  {
    forall i | 0 <= i < |a + b| - 1 ensures HasChild(h, (a + b)[i], (a + b)[i + 1]) {
      if i < |a| - 1 {
        assert HasChild(h, a[i], a[i + 1]);
      } else if i >= |a| {
        assert HasChild(h, b[i - |a|], b[i - |a| + 1]);
      }
    }
  }

  lemma ReachesItself(h: Heap, id: Id)
    ensures Reaches(h, id, id)
  {
    assert LeadsTo(h, id, id, [id]);
  }

  lemma ReachesThrough(h: Heap, from: Id, child: Id, to: Id)
    requires HasChild(h, from, child) && Reaches(h, child, to)
    ensures Reaches(h, from, to)
  {
    var path :| LeadsTo(h, child, to, path);
    PathsJoin(h, [from], path);
    assert LeadsTo(h, from, to, [from] + path);
  }

  lemma ReachesChild(h: Heap, from: Id, parent: Id, child: Id)
    requires Reaches(h, from, parent) && HasChild(h, parent, child)
    ensures Reaches(h, from, child)
  {
    var path :| LeadsTo(h, from, parent, path);
    PathsJoin(h, path, [child]);
    assert LeadsTo(h, from, child, path + [child]);
  }

  /** Without a way back no child of a container leads to it. */
  lemma ChildNeverReturns(h: Heap, root: Id, parent: Id, child: Id)
    requires Acyclic(h, root) && Reaches(h, root, parent) && HasChild(h, parent, child)
    ensures !Reaches(h, child, parent)
  {
    if Reaches(h, child, parent) {
      var a :| LeadsTo(h, root, parent, a);
      var b :| LeadsTo(h, child, parent, b);
      PathsJoin(h, a, b);
      assert (a + b)[|a| - 1] == parent;
      assert WayBack(h, root, a + b);
    }
  }

  lemma SmallerSet(a: set<Id>, b: set<Id>, x: Id)
    requires a <= b && x in b && x !in a
    ensures |a| < |b|
  {
    SetSizes(a, b - {x});
  }

  lemma {:induction false} SetSizes(a: set<Id>, b: set<Id>)
    requires a <= b
    ensures |a| <= |b|
  {
    if a == {} {
    } else {
      var x :| x in a;
      SetSizes(a - {x}, b - {x});
    }
  }

  /** How many containers each one of the document leads to. */
  ghost function Reach(h: Heap, root: Id): map<Id, nat> { map id | id in Reached(h, root) :: |Reached(h, id)| }

  lemma ReachFalls(h: Heap, root: Id, parent: Id, child: Id)
    requires Closed(h) && Acyclic(h, root) && parent in Reached(h, root) && HasChild(h, parent, child)
    ensures child in Reached(h, root) && |Reached(h, child)| < |Reached(h, parent)|
  {
    ReachesChild(h, root, parent, child);
    ChildNeverReturns(h, root, parent, child);
    ReachesItself(h, parent);
    forall id | id in Reached(h, child) ensures id in Reached(h, parent) {
      ReachesThrough(h, parent, child, id);
    }
    SmallerSet(Reached(h, child), Reached(h, parent), parent);
  }

  lemma ReachRanks(h: Heap, root: Id)
    requires Closed(h) && root in h && Acyclic(h, root)
    ensures Ranks(h, Reach(h, root)) && root in Reach(h, root)
  {
    ReachesItself(h, root);
    forall parent, child | parent in Reach(h, root) && HasChild(h, parent, child)
      ensures child in Reach(h, root) && Reach(h, root)[child] < Reach(h, root)[parent]
    {
      ReachFalls(h, root, parent, child);
    }
  }

  /** Ranks fall along a path. */
  lemma {:induction false} RankFalls(h: Heap, rank: map<Id, nat>, path: seq<Id>, i: nat, j: nat)
    requires Ranks(h, rank) && IsPath(h, path) && path[0] in rank && i < j < |path|
    ensures path[i] in rank && path[j] in rank && rank[path[j]] < rank[path[i]]
    decreases j
  {
    if j == 1 {
      assert HasChild(h, path[0], path[1]);
    } else {
      RankFalls(h, rank, path, 0, j - 1);
      assert HasChild(h, path[j - 1], path[j - 1 + 1]);
      if i < j - 1 {
        RankFalls(h, rank, path, i, j - 1);
      }
    }
  }

  /** There is no way back exactly where the containers can be ranked, each above its children. */
  lemma RankedExactly(h: Heap, root: Id)
    requires Closed(h) && root in h
    ensures Acyclic(h, root) <==> exists rank :: Ranks(h, rank) && root in rank
  {
    if Acyclic(h, root) {
      ReachRanks(h, root);
    }
    if rank :| Ranks(h, rank) && root in rank {
      forall path ensures !WayBack(h, root, path) {
        if WayBack(h, root, path) {
          var i :| 0 <= i < |path| - 1 && path[i] == path[|path| - 1];
          RankFalls(h, rank, path, i, |path| - 1);
        }
      }
    }
  }

  // ---------- one step of the loop ----------

  datatype Stack = Bottom | On(id: Id, ready: bool, below: Stack)

  /** What is still to do, where each finished container went, and the frozen containers built so far. */
  datatype State = State(stack: Stack, done: map<Id, nat>, frozen: seq<Container>)

  function Start(root: Id): State { State(On(root, false, Bottom), map[], []) }

  /** The children not done yet, pushed in their order. */
  function Extended(stack: Stack, items: seq<Item>, done: map<Id, nat>): Stack
    decreases |items|
  {
    if items == [] then stack
    else
      var more := if items[0].At? && items[0].id !in done then On(items[0].id, false, stack) else stack;
      Extended(more, items[1..], done)
  }

  /** An item with its container replaced by the frozen one. */
  function Frozen(item: Item, done: map<Id, nat>): Item {
    if item.At? && item.id in done then At(done[item.id]) else item
  }

  function FrozenAll(items: seq<Item>, done: map<Id, nat>): (frozen: seq<Item>)
    ensures |frozen| == |items| && forall i :: 0 <= i < |items| ==> frozen[i] == Frozen(items[i], done)
  {
    if items == [] then [] else [Frozen(items[0], done)] + FrozenAll(items[1..], done)
  }

  function FrozenEntries(entries: seq<Entry>, done: map<Id, nat>): (frozen: seq<Entry>)
    ensures |frozen| == |entries|
    ensures forall i :: 0 <= i < |entries| ==> frozen[i] == Entry(entries[i].key, Frozen(entries[i].value, done))
  {
    if entries == [] then []
    else [Entry(entries[0].key, Frozen(entries[0].value, done))] + FrozenEntries(entries[1..], done)
  }

  function Rebuilt(c: Container, done: map<Id, nat>): Container {
    match c
    case ListOf(items) => ListOf(FrozenAll(items, done))
    case MapOf(entries) => MapOf(FrozenEntries(entries, done))
  }

  function Step(h: Heap, s: State): State
    requires s.stack.On? && s.stack.id in h
  {
    var On(id, ready, below) := s.stack;
    if id in s.done then s.(stack := below)
    else if !ready then s.(stack := Extended(On(id, true, below), Children(h[id]), s.done))
    else State(below, s.done[id := |s.frozen|], s.frozen + [Rebuilt(h[id], s.done)])
  }

  // ---------- what every step keeps ----------

  ghost function Ids(stack: Stack): set<Id> { if stack.Bottom? then {} else {stack.id} + Ids(stack.below) }

  /** Below each container that waits for its children, all of them are done or still above it. */
  ghost predicate Covered(h: Heap, stack: Stack, above: set<Id>, done: set<Id>) {
    stack.On? ==>
      && (stack.ready ==> forall child :: HasChild(h, stack.id, child) ==> child in done || child in above)
      && Covered(h, stack.below, above + {stack.id}, done)
  }

  /** Every finished container was rebuilt from its finished children. */
  ghost predicate Placed(h: Heap, done: map<Id, nat>, frozen: seq<Container>) {
    forall id :: id in done ==> id in h && done[id] < |frozen| && frozen[done[id]] == Rebuilt(h[id], done)
  }

  ghost predicate IsPlace(done: map<Id, nat>, i: nat) { exists a :: a in done && done[a] == i }

  /** One frozen container for each finished one. */
  ghost predicate OneToOne(done: map<Id, nat>, frozen: seq<Container>) {
    && (forall a, b :: a in done && b in done && done[a] == done[b] ==> a == b)
    && (forall i :: 0 <= i < |frozen| ==> IsPlace(done, i))
    && (forall a :: a in done ==> done[a] < |frozen|)
  }

  /** Children were built before what holds them. */
  ghost predicate ChildrenFirst(h: Heap, done: map<Id, nat>) {
    forall a, child :: a in done && HasChild(h, a, child) ==> child in done && done[child] < done[a]
  }

  ghost predicate Built(h: Heap, done: map<Id, nat>, frozen: seq<Container>) {
    Placed(h, done, frozen) && OneToOne(done, frozen) && ChildrenFirst(h, done)
  }

  ghost predicate Inv(h: Heap, root: Id, s: State) {
    && Ids(s.stack) <= h.Keys
    && Covered(h, s.stack, {}, s.done.Keys)
    && Built(h, s.done, s.frozen)
    && root in Met(s)
  }

  /** The containers the loop has come to. */
  ghost function Met(s: State): set<Id> { Ids(s.stack) + s.done.Keys }

  lemma {:induction false} CoveredWeakens(h: Heap, stack: Stack, above: set<Id>, done: set<Id>, above': set<Id>,
      done': set<Id>)
    requires Covered(h, stack, above, done) && above <= above' + done' && done <= done'
    ensures Covered(h, stack, above', done')
  {
    if stack.Bottom? {
    } else {
      CoveredWeakens(h, stack.below, above + {stack.id}, done, above' + {stack.id}, done');
    }
  }

  ghost function ToDo(items: seq<Item>, done: map<Id, nat>): set<Id> {
    set item | item in items && item.At? && item.id !in done :: item.id
  }

  lemma {:induction false} ExtendedCovers(h: Heap, stack: Stack, items: seq<Item>, done: map<Id, nat>, above: set<Id>)
    requires Covered(h, stack, above + ToDo(items, done), done.Keys)
    ensures Covered(h, Extended(stack, items, done), above, done.Keys)
    decreases |items|
  {
    if items == [] {
      assert above + ToDo(items, done) == above;
    } else {
      var first := if items[0].At? && items[0].id !in done then {items[0].id} else {};
      assert items == [items[0]] + items[1..];
      assert ToDo(items, done) == ToDo(items[1..], done) + first;
      assert above + ToDo(items, done) == (above + ToDo(items[1..], done)) + first;
      assert (above + ToDo(items[1..], done)) + {} == above + ToDo(items[1..], done);
      ExtendedCovers(h, if first == {} then stack else On(items[0].id, false, stack), items[1..], done, above);
    }
  }

  lemma ToDoAreChildren(h: Heap, id: Id, done: map<Id, nat>)
    requires id in h
    ensures forall child :: child in ToDo(Children(h[id]), done) <==> HasChild(h, id, child) && child !in done
  {
    forall child | HasChild(h, id, child) && child !in done ensures child in ToDo(Children(h[id]), done) {
      assert At(child) in Children(h[id]);
    }
  }

  /** A container popped with its children done has every one of them: none is looked up unbuilt. */
  lemma ReadyHasItsChildren(h: Heap, root: Id, s: State)
    requires Inv(h, root, s) && s.stack.On? && s.stack.ready
    ensures forall child :: HasChild(h, s.stack.id, child) ==> child in s.done
  {
  }

  lemma RebuiltStays(c: Container, done: map<Id, nat>, id: Id, place: nat)
    requires id !in done && forall child :: At(child) in Children(c) ==> child in done
    ensures Rebuilt(c, done[id := place]) == Rebuilt(c, done)
  {
    var more := done[id := place];
    forall i | 0 <= i < |Children(c)| ensures Frozen(Children(c)[i], more) == Frozen(Children(c)[i], done) {
      assert Children(c)[i] in Children(c);
    }
    if c.ListOf? {
      assert FrozenAll(c.items, more) == FrozenAll(c.items, done);
    } else {
      forall i | 0 <= i < |c.entries| ensures FrozenEntries(c.entries, more)[i] == FrozenEntries(c.entries, done)[i] {
        assert Frozen(Children(c)[i], more) == Frozen(Children(c)[i], done);
      }
      assert FrozenEntries(c.entries, more) == FrozenEntries(c.entries, done);
    }
  }

  lemma PlacedOneMore(h: Heap, done: map<Id, nat>, frozen: seq<Container>, id: Id)
    requires Placed(h, done, frozen) && ChildrenFirst(h, done) && id in h && id !in done
    requires forall child :: HasChild(h, id, child) ==> child in done
    ensures Placed(h, done[id := |frozen|], frozen + [Rebuilt(h[id], done)])
  {
    var more, built := done[id := |frozen|], frozen + [Rebuilt(h[id], done)];
    forall a | a in more ensures a in h && more[a] < |built| && built[more[a]] == Rebuilt(h[a], more) {
      forall child | At(child) in Children(h[a]) ensures child in done {
        assert HasChild(h, a, child);
      }
      RebuiltStays(h[a], done, id, |frozen|);
    }
  }

  lemma OneToOneOneMore(done: map<Id, nat>, frozen: seq<Container>, id: Id, last: Container)
    requires OneToOne(done, frozen) && id !in done
    ensures OneToOne(done[id := |frozen|], frozen + [last])
  {
    var more := done[id := |frozen|];
    forall i | 0 <= i <= |frozen| ensures IsPlace(more, i) {
      if i < |frozen| {
        assert IsPlace(done, i);
        var a :| a in done && done[a] == i;
        assert a in more && more[a] == i;
      } else {
        assert id in more && more[id] == i;
      }
    }
  }

  lemma ChildrenFirstOneMore(h: Heap, done: map<Id, nat>, id: Id, place: nat)
    requires ChildrenFirst(h, done) && id !in done && forall a :: a in done ==> done[a] < place
    requires forall child :: HasChild(h, id, child) ==> child in done
    ensures ChildrenFirst(h, done[id := place])
  {
  }

  lemma BuiltOneMore(h: Heap, done: map<Id, nat>, frozen: seq<Container>, id: Id)
    requires Built(h, done, frozen) && id in h && id !in done
    requires forall child :: HasChild(h, id, child) ==> child in done
    ensures Built(h, done[id := |frozen|], frozen + [Rebuilt(h[id], done)])
  {
    PlacedOneMore(h, done, frozen, id);
    OneToOneOneMore(done, frozen, id, Rebuilt(h[id], done));
    ChildrenFirstOneMore(h, done, id, |frozen|);
  }

  /** Every step of the loop keeps what makes its result right, on any graph. */
  lemma StepKeepsInv(h: Heap, root: Id, s: State)
    requires Closed(h) && Inv(h, root, s) && s.stack.On?
    ensures Inv(h, root, Step(h, s))
  {
    var On(id, ready, below) := s.stack;
    StepMeetsChildren(h, s);
    if id in s.done {
      CoveredWeakens(h, below, {} + {id}, s.done.Keys, {}, s.done.Keys);
    } else if !ready {
      ExpandKeepsCovered(h, s);
    } else {
      BuiltOneMore(h, s.done, s.frozen, id);
      CoveredWeakens(h, below, {} + {id}, s.done.Keys, {}, s.done[id := |s.frozen|].Keys);
    }
  }

  /** A step comes to no container but children of the one on top, and forgets none. */
  lemma StepMeetsChildren(h: Heap, s: State)
    requires s.stack.On? && s.stack.id in h
    ensures Met(s) <= Met(Step(h, s))
    ensures forall id :: id in Met(Step(h, s)) ==> id in Met(s) || HasChild(h, s.stack.id, id)
  {
    var On(id, ready, below) := s.stack;
    if id !in s.done && !ready {
      ExtendedIds(On(id, true, below), Children(h[id]), s.done);
      ToDoAreChildren(h, id, s.done);
    }
  }

  lemma {:induction false} ExtendedIds(stack: Stack, items: seq<Item>, done: map<Id, nat>)
    ensures Ids(Extended(stack, items, done)) == Ids(stack) + ToDo(items, done)
    decreases |items|
  {
    if items == [] {
    } else {
      var next := if items[0].At? && items[0].id !in done then On(items[0].id, false, stack) else stack;
      ExtendedIds(next, items[1..], done);
      assert items == [items[0]] + items[1..];
    }
  }

  lemma ExpandKeepsCovered(h: Heap, s: State)
    requires s.stack.On? && s.stack.id in h && !s.stack.ready && Covered(h, s.stack, {}, s.done.Keys)
    ensures Covered(h, Extended(On(s.stack.id, true, s.stack.below), Children(h[s.stack.id]), s.done), {}, s.done.Keys)
  {
    var On(id, _, below) := s.stack;
    var todo := ToDo(Children(h[id]), s.done);
    ToDoAreChildren(h, id, s.done);
    CoveredWeakens(h, below, {} + {id}, s.done.Keys, {} + todo + {id}, s.done.Keys);
    ExtendedCovers(h, On(id, true, below), Children(h[id]), s.done, {});
  }

  lemma StartHasInv(h: Heap, root: Id)
    requires root in h
    ensures Inv(h, root, Start(root)) && OnlyBelow(h, root, Met(Start(root)))
  {
    assert Ids(Bottom) == {} && Ids(On(root, false, Bottom)) == {root} + Ids(Bottom);
    assert Met(Start(root)) == {root};
  }

  lemma StepStaysBelow(h: Heap, root: Id, s: State)
    requires s.stack.On? && s.stack.id in h && OnlyBelow(h, root, Met(s))
    ensures OnlyBelow(h, root, Met(Step(h, s)))
  {
    StepMeetsChildren(h, s);
    assert s.stack.id in Met(s);
  }

  /** Once the stack is empty, exactly the containers of the document are frozen. */
  lemma EmptyStackIsFrozen(h: Heap, root: Id, s: State)
    requires Inv(h, root, s) && OnlyBelow(h, root, Met(s)) && s.stack.Bottom?
    ensures IsBelow(h, root, s.done.Keys)
  {
    assert Met(s) == s.done.Keys;
  }

  // ---------- the loop comes to an end exactly on documents without a way back ----------

  ghost function Waiting(stack: Stack): set<Id> {
    if stack.Bottom? then {} else (if stack.ready then {stack.id} else {}) + Waiting(stack.below)
  }

  ghost function Size(stack: Stack): nat { if stack.Bottom? then 0 else 1 + Size(stack.below) }

  /** Everything above a container that waits for its children ranks below it. */
  ghost predicate Descends(rank: map<Id, nat>, stack: Stack) {
    stack.On? ==>
      && stack.id in rank
      && (forall m :: m in Waiting(stack.below) && m in rank ==> rank[stack.id] < rank[m])
      && Descends(rank, stack.below)
  }

  ghost function Unexpanded(rank: map<Id, nat>, s: State): set<Id> { rank.Keys - s.done.Keys - Waiting(s.stack) }

  lemma {:induction false} ExtendedDescends(rank: map<Id, nat>, stack: Stack, items: seq<Item>, done: map<Id, nat>)
    requires Descends(rank, stack)
    requires forall item :: item in items && item.At? ==>
               item.id in rank && forall m :: m in Waiting(stack) && m in rank ==> rank[item.id] < rank[m]
    ensures Descends(rank, Extended(stack, items, done)) && Waiting(Extended(stack, items, done)) == Waiting(stack)
    decreases |items|
  {
    if items == [] {
    } else {
      assert items[0] in items;
      var more := if items[0].At? && items[0].id !in done then On(items[0].id, false, stack) else stack;
      ExtendedDescends(rank, more, items[1..], done);
    }
  }

  lemma StepDescends(h: Heap, rank: map<Id, nat>, s: State)
    requires Ranks(h, rank) && s.stack.On? && Descends(rank, s.stack)
    ensures Descends(rank, Step(h, s).stack)
    ensures Unexpanded(rank, Step(h, s)) < Unexpanded(rank, s)
         || (Unexpanded(rank, Step(h, s)) == Unexpanded(rank, s) && Size(Step(h, s).stack) < Size(s.stack))
  {
    var On(id, ready, below) := s.stack;
    if id !in s.done && !ready {
      forall item | item in Children(h[id]) && item.At? ensures item.id in rank && rank[item.id] < rank[id] {
        assert HasChild(h, id, item.id);
      }
      ExtendedDescends(rank, On(id, true, below), Children(h[id]), s.done);
      assert id in Unexpanded(rank, s) && id !in Unexpanded(rank, Step(h, s));
    }
  }

  ghost function Run(h: Heap, s: State, n: nat): State
    requires Closed(h)
    decreases n
  {
    if n == 0 || s.stack.Bottom? || s.stack.id !in h then s else Run(h, Step(h, s), n - 1)
  }

  /** The loop, started on a container, comes to an empty stack. */
  ghost predicate Halts(h: Heap, root: Id)
    requires Closed(h)
  {
    exists n: nat :: Run(h, Start(root), n).stack.Bottom?
  }

  lemma {:induction false} RunKeepsInv(h: Heap, root: Id, s: State, n: nat)
    requires Closed(h) && Inv(h, root, s)
    ensures Inv(h, root, Run(h, s, n))
    decreases n
  {
    if n == 0 || s.stack.Bottom? {
    } else {
      StepKeepsInv(h, root, s);
      RunKeepsInv(h, root, Step(h, s), n - 1);
    }
  }

  lemma {:induction false} RankedRunHalts(h: Heap, rank: map<Id, nat>, s: State) returns (n: nat)
    requires Closed(h) && Ranks(h, rank) && Descends(rank, s.stack)
    ensures Run(h, s, n).stack.Bottom?
    decreases Unexpanded(rank, s), Size(s.stack)
  {
    if s.stack.Bottom? {
      n := 0;
    } else {
      StepDescends(h, rank, s);
      n := RankedRunHalts(h, rank, Step(h, s));
      n := n + 1;
    }
  }

  /** Freezing comes to an end exactly when no container of the document leads back to itself. */
  lemma HaltsExactlyOnAcyclic(h: Heap, root: Id)
    requires Closed(h) && root in h
    ensures Halts(h, root) <==> Acyclic(h, root)
  {
    StartHasInv(h, root);
    if Halts(h, root) {
      var n: nat :| Run(h, Start(root), n).stack.Bottom?;
      RunKeepsInv(h, root, Start(root), n);
      var done := Run(h, Start(root), n).done;
      assert Ranks(h, done) && root in done;
    }
    RankedExactly(h, root);
    if Acyclic(h, root) {
      var rank :| Ranks(h, rank) && root in rank;
      var n := RankedRunHalts(h, rank, Start(root));
    }
  }

  // ---------- the loop ----------

  /** What holds before every round of the loop, with ranks that fall from containers to children. */
  ghost predicate Running(h: Heap, root: Id, rank: map<Id, nat>, s: State) {
    Ranks(h, rank) && Inv(h, root, s) && OnlyBelow(h, root, Met(s)) && Descends(rank, s.stack)
  }

  lemma StepKeepsRunning(h: Heap, root: Id, rank: map<Id, nat>, s: State)
    requires Closed(h) && Running(h, root, rank, s) && s.stack.On?
    ensures s.stack.id in h && Running(h, root, rank, Step(h, s))
    ensures Unexpanded(rank, Step(h, s)) < Unexpanded(rank, s)
         || (Unexpanded(rank, Step(h, s)) == Unexpanded(rank, s) && Size(Step(h, s).stack) < Size(s.stack))
  {
    StepKeepsInv(h, root, s);
    StepStaysBelow(h, root, s);
    StepDescends(h, rank, s);
  }

  /** Freezes `value`; `done` says which frozen container each container became. */
  method Freeze(h: Heap, value: Item) returns (frozen: seq<Container>, result: Item, ghost done: map<Id, nat>)
    requires Closed(h) && (value.At? ==> value.id in h && Acyclic(h, value.id))
    ensures !value.At? ==> frozen == [] && result == value
    ensures value.At? ==> IsBelow(h, value.id, done.Keys) && Built(h, done, frozen) && result == At(done[value.id])
  {
    frozen, result, done := [], value, map[];
    if !value.At? {
      return;
    }
    RankedExactly(h, value.id);
    ghost var rank :| Ranks(h, rank) && value.id in rank;
    var placed: map<Id, nat> := map[];
    var stack := On(value.id, false, Bottom);
    StartHasInv(h, value.id);
    while stack.On?
      invariant Running(h, value.id, rank, State(stack, placed, frozen))
      decreases Unexpanded(rank, State(stack, placed, frozen)), Size(stack)
    {
      ghost var s := State(stack, placed, frozen);
      StepKeepsRunning(h, value.id, rank, s);
      var On(node, childrenDone, below) := stack;
      stack := below;
      if node in placed {
        assert State(stack, placed, frozen) == Step(h, s);
        continue;
      }
      if !childrenDone {
        stack := PushChildren(On(node, true, stack), Children(h[node]), placed);
        assert State(stack, placed, frozen) == Step(h, s);
        continue;
      }
      ReadyHasItsChildren(h, value.id, s);
      frozen := frozen + [Rebuilt(h[node], placed)];
      placed := placed[node := |frozen| - 1];
      assert State(stack, placed, frozen) == Step(h, s);
    }
    EmptyStackIsFrozen(h, value.id, State(stack, placed, frozen));
    done := placed;
    result := At(placed[value.id]);
  }

  method PushChildren(stack: Stack, children: seq<Item>, placed: map<Id, nat>) returns (pushed: Stack)
    ensures pushed == Extended(stack, children, placed)
  {
    pushed := stack;
    for i := 0 to |children|
      invariant Extended(pushed, children[i..], placed) == Extended(stack, children, placed)
    {
      assert children[i..][1..] == children[i + 1..];
      if children[i].At? && children[i].id !in placed {
        pushed := On(children[i].id, false, pushed);
      }
    }
  }

  // ---------- the frozen document is the document ----------

  /** A value written out, every container copied wherever it is used. */
  datatype Tree = Leaf(item: Item) | ListTree(items: seq<Tree>) | MapTree(keys: seq<string>, values: seq<Tree>)

  ghost function Keys(entries: seq<Entry>): seq<string> {
    if entries == [] then [] else [entries[0].key] + Keys(entries[1..])
  }

  ghost function TreeOf(c: Container, kids: seq<Tree>): Tree {
    match c
    case ListOf(_) => ListTree(kids)
    case MapOf(entries) => MapTree(Keys(entries), kids)
  }

  ghost predicate RankedUnder(rank: map<Id, nat>, item: Item, bound: nat) {
    item.At? ==> item.id in rank && rank[item.id] < bound
  }

  ghost function Unfolded(h: Heap, rank: map<Id, nat>, item: Item, bound: nat): Tree
    requires Ranks(h, rank) && RankedUnder(rank, item, bound)
    decreases bound, 0
  {
    if !item.At? then Leaf(item)
    else
      ChildrenRankLower(h, rank, item.id);
      TreeOf(h[item.id], UnfoldedAll(h, rank, Children(h[item.id]), rank[item.id]))
  }

  ghost function UnfoldedAll(h: Heap, rank: map<Id, nat>, items: seq<Item>, bound: nat): (trees: seq<Tree>)
    requires Ranks(h, rank) && forall item :: item in items ==> RankedUnder(rank, item, bound)
    ensures |trees| == |items|
    decreases bound, 1, |items|
  {
    if items == [] then [] else [Unfolded(h, rank, items[0], bound)] + UnfoldedAll(h, rank, items[1..], bound)
  }

  lemma ChildrenRankLower(h: Heap, rank: map<Id, nat>, id: Id)
    requires Ranks(h, rank) && id in rank
    ensures forall item :: item in Children(h[id]) ==> RankedUnder(rank, item, rank[id])
  {
    forall item | item in Children(h[id]) && item.At? ensures RankedUnder(rank, item, rank[id]) {
      assert HasChild(h, id, item.id);
    }
  }

  ghost function FrozenHeap(frozen: seq<Container>): Heap { map i | 0 <= i < |frozen| :: frozen[i] }

  ghost function Places(frozen: seq<Container>): map<Id, nat> { map i | i in FrozenHeap(frozen) :: i }

  lemma RebuiltChildren(c: Container, done: map<Id, nat>)
    ensures Children(Rebuilt(c, done)) == FrozenAll(Children(c), done)
  {
    if c.MapOf? {
      assert Values(FrozenEntries(c.entries, done)) == FrozenAll(Values(c.entries), done);
    }
  }

  lemma FrozenRanks(h: Heap, done: map<Id, nat>, frozen: seq<Container>)
    requires Built(h, done, frozen)
    ensures Ranks(FrozenHeap(frozen), Places(frozen))
  {
    forall parent, child | parent in Places(frozen) && HasChild(FrozenHeap(frozen), parent, child)
      ensures child in Places(frozen) && Places(frozen)[child] < Places(frozen)[parent]
    {
      assert IsPlace(done, parent);
      var a :| a in done && done[a] == parent;
      RebuiltChildren(h[a], done);
      var i :| 0 <= i < |Children(h[a])| && Frozen(Children(h[a])[i], done) == At(child);
      var item := Children(h[a])[i];
      assert item in Children(h[a]) && HasChild(h, a, item.id);
      assert child == done[item.id];
    }
  }

  /** Written out, the frozen document is the document. */
  lemma {:induction false} FrozenUnfoldsAlike(h: Heap, rank: map<Id, nat>, done: map<Id, nat>,
      frozen: seq<Container>, item: Item, bound: nat, place: nat)
    requires Built(h, done, frozen) && Ranks(h, rank) && RankedUnder(rank, item, bound)
    requires item.At? ==> item.id in done && done[item.id] < place
    ensures Ranks(FrozenHeap(frozen), Places(frozen)) && RankedUnder(Places(frozen), Frozen(item, done), place)
    ensures Unfolded(FrozenHeap(frozen), Places(frozen), Frozen(item, done), place) == Unfolded(h, rank, item, bound)
    decreases bound, 0
  {
    FrozenRanks(h, done, frozen);
    if item.At? {
      var c := h[item.id];
      ChildrenRankLower(h, rank, item.id);
      RebuiltChildren(c, done);
      forall child | child in Children(c) && child.At? ensures child.id in done && done[child.id] < done[item.id] {
        assert HasChild(h, item.id, child.id);
      }
      ChildrenRankLower(FrozenHeap(frozen), Places(frozen), done[item.id]);
      AllUnfoldAlike(h, rank, done, frozen, Children(c), rank[item.id], done[item.id]);
      if c.MapOf? { SameKeys(c.entries, done); }
    }
  }

  lemma {:induction false} SameKeys(entries: seq<Entry>, done: map<Id, nat>)
    ensures Keys(FrozenEntries(entries, done)) == Keys(entries)
  {
    if entries == [] {
    } else {
      SameKeys(entries[1..], done);
    }
  }

  lemma {:induction false} AllUnfoldAlike(h: Heap, rank: map<Id, nat>, done: map<Id, nat>, frozen: seq<Container>,
      items: seq<Item>, bound: nat, place: nat)
    requires Built(h, done, frozen) && Ranks(h, rank) && Ranks(FrozenHeap(frozen), Places(frozen))
    requires forall item :: item in items ==> RankedUnder(rank, item, bound)
    requires forall item :: item in items && item.At? ==> item.id in done && done[item.id] < place
    requires forall item :: item in FrozenAll(items, done) ==> RankedUnder(Places(frozen), item, place)
    ensures UnfoldedAll(FrozenHeap(frozen), Places(frozen), FrozenAll(items, done), place)
        == UnfoldedAll(h, rank, items, bound)
    decreases bound, 1, |items|
  {
    if items == [] {
    } else {
      assert items[0] in items;
      FrozenUnfoldsAlike(h, rank, done, frozen, items[0], bound, place);
      AllUnfoldAlike(h, rank, done, frozen, items[1..], bound, place);
    }
  }

  /** What freezing returns for a document without a way back is, written out, that document. */
  lemma FrozenDocumentUnfoldsAlike(h: Heap, root: Id, frozen: seq<Container>, done: map<Id, nat>)
    requires Closed(h) && root in h && Acyclic(h, root) && IsBelow(h, root, done.Keys) && Built(h, done, frozen)
    ensures Ranks(h, Reach(h, root)) && root in Reach(h, root)
    ensures Ranks(FrozenHeap(frozen), Places(frozen)) && done[root] in Places(frozen)
    ensures Unfolded(FrozenHeap(frozen), Places(frozen), At(done[root]), done[root] + 1)
         == Unfolded(h, Reach(h, root), At(root), Reach(h, root)[root] + 1)
  {
    ReachRanks(h, root);
    FrozenRanks(h, done, frozen);
    FrozenUnfoldsAlike(h, Reach(h, root), done, frozen, At(root), Reach(h, root)[root] + 1, done[root] + 1);
  }
}
