/**
  What the reference walk finds and refuses, said of the paths through the document
  (openapi/ref_walk.py).
*/
module RefPaths {
  import opened Sequences
  import opened ApiGraph
  import opened RefWalk

  /** The values met from `v` on by taking the child each number names; none where the path leaves the document. */
  ghost function Route(h: Heap, v: Visit, path: seq<nat>): seq<Visit>
    decreases |path|
  {
    if path == [] then [v]
    else if !IsContainer(h, v.item) || path[0] >= |Steps(h, v)| then []
    else
      var rest := Route(h, Steps(h, v)[path[0]], path[1..]);
      if rest == [] then [] else [v] + rest
  }

  /** The route ends at a container it is already in. */
  ghost predicate Reenters(h: Heap, route: seq<Visit>) {
    && route != []
    && IsContainer(h, route[|route| - 1].item)
    && exists i :: 0 <= i < |route| - 1 && route[i].item == route[|route| - 1].item
  }

  ghost predicate EndsInside(h: Heap, route: seq<Visit>, inside: set<Id>) {
    && route != []
    && IsContainer(h, route[|route| - 1].item)
    && (route[|route| - 1].item.id in inside || Reenters(h, route))
  }

  lemma {:induction false} EachDone(h: Heap, vs: seq<Visit>, depth: nat, inside: set<Id>, nodes: nat,
                                    i: nat) returns (at: nat)
    requires WalkEach(h, vs, depth, inside, nodes).stop.Done? && i < |vs|
    ensures WalkOne(h, vs[i], depth, inside, at).stop.Done?
    ensures forall r :: r in WalkOne(h, vs[i], depth, inside, at).refs ==>
              r in WalkEach(h, vs, depth, inside, nodes).refs
  {
    if i == 0 {
      at := nodes;
    } else {
      at := EachDone(h, vs[1..], depth, inside, WalkOne(h, vs[0], depth, inside, nodes).nodes, i - 1);
    }
  }

  /** A walk that gets to its end met no container inside itself. */
  lemma {:induction false} DoneNeverReenters(h: Heap, v: Visit, depth: nat, inside: set<Id>, nodes: nat, path: seq<nat>)
    requires WalkOne(h, v, depth, inside, nodes).stop.Done?
    ensures !EndsInside(h, Route(h, v, path), inside)
    decreases |path|
  {
    var route := Route(h, v, path);
    if path == [] || route == [] {
    } else {
      var next := Steps(h, v)[path[0]];
      var at := EachDone(h, Steps(h, v), depth + 1, inside + {v.item.id}, nodes + 1, path[0]);
      DoneNeverReenters(h, next, depth + 1, inside + {v.item.id}, at, path[1..]);
      OneLonger(h, v, Route(h, next, path[1..]), inside);
    }
  }

  /** Taken one container further out, a route re-enters what it did, or that container. */
  lemma OneLonger(h: Heap, v: Visit, rest: seq<Visit>, inside: set<Id>)
    requires IsContainer(h, v.item) && rest != []
    ensures EndsInside(h, [v] + rest, inside) <==> EndsInside(h, rest, inside + {v.item.id})
  {
    var route := [v] + rest;
    var last := rest[|rest| - 1];
    assert route[|route| - 1] == last;
    if i :| 0 <= i < |route| - 1 && route[i].item == last.item {
      assert i > 0 ==> rest[i - 1].item == last.item;
    }
    if i :| 0 <= i < |rest| - 1 && rest[i].item == last.item {
      assert route[i + 1].item == last.item;
    }
    if last.item == v.item {
      assert route[0].item == last.item;
    }
  }

  lemma LastOfLonger(v: Visit, rest: seq<Visit>)
    requires rest != []
    ensures ([v] + rest)[|[v] + rest| - 1] == rest[|rest| - 1]
  {
  }

  /** Going down one step and then along a route. */
  lemma RouteThrough(h: Heap, v: Visit, i: nat, below: seq<nat>)
    requires IsContainer(h, v.item) && i < |Steps(h, v)|
    ensures var rest := Route(h, Steps(h, v)[i], below);
            Route(h, v, [i] + below) == if rest == [] then [] else [v] + rest
  {
    HeadAndTail(i, below);
  }

  /** The route along `path` ends inside itself, at the place named. */
  ghost predicate EndsAt(h: Heap, v: Visit, path: seq<nat>, inside: set<Id>, place: string) {
    var route := Route(h, v, path);
    EndsInside(h, route, inside) && route[|route| - 1].pointer == place
  }

  /** A document is refused as containing itself only where a route does come back to a container it is in. */
  lemma {:induction false} RefusedForReentry(h: Heap, v: Visit, depth: nat, inside: set<Id>,
      nodes: nat) returns (path: seq<nat>)
    requires WalkOne(h, v, depth, inside, nodes).stop.ContainsItself?
    ensures EndsAt(h, v, path, inside, WalkOne(h, v, depth, inside, nodes).stop.at)
    decreases MAX_DEPTH - depth, 0
  {
    if v.item.id in inside {
      path := [];
    } else {
      var i, below := RefusedBelow(h, Steps(h, v), depth + 1, inside + {v.item.id}, nodes + 1);
      InsideThrough(h, v, i, below, inside, WalkOne(h, v, depth, inside, nodes).stop.at);
      path := [i] + below;
    }
  }

  lemma InsideThrough(h: Heap, v: Visit, i: nat, below: seq<nat>, inside: set<Id>, place: string)
    requires IsContainer(h, v.item) && i < |Steps(h, v)|
    requires EndsAt(h, Steps(h, v)[i], below, inside + {v.item.id}, place)
    ensures EndsAt(h, v, [i] + below, inside, place)
  {
    var rest := Route(h, Steps(h, v)[i], below);
    RouteThrough(h, v, i, below);
    OneLonger(h, v, rest, inside);
    LastOfLonger(v, rest);
  }

  /** Where the walk of several stops for one that contains itself. */
  lemma EachStops(h: Heap, vs: seq<Visit>, depth: nat, inside: set<Id>, nodes: nat)
    requires WalkEach(h, vs, depth, inside, nodes).stop.ContainsItself?
    ensures vs != []
    ensures var first := WalkOne(h, vs[0], depth, inside, nodes);
            var stop := if first.stop.Done? then WalkEach(h, vs[1..], depth, inside, first.nodes).stop else first.stop;
            WalkEach(h, vs, depth, inside, nodes).stop == stop
  {
  }

  lemma {:induction false} RefusedBelow(h: Heap, vs: seq<Visit>, depth: nat, inside: set<Id>,
                                        nodes: nat) returns (i: nat, path: seq<nat>)
    requires WalkEach(h, vs, depth, inside, nodes).stop.ContainsItself?
    ensures i < |vs| && EndsAt(h, vs[i], path, inside, WalkEach(h, vs, depth, inside, nodes).stop.at)
    decreases MAX_DEPTH - depth, 1, |vs|
  {
    EachStops(h, vs, depth, inside, nodes);
    var first := WalkOne(h, vs[0], depth, inside, nodes);
    if first.stop.Done? {
      i, path := RefusedBelow(h, vs[1..], depth, inside, first.nodes);
      assert vs[1..][i] == vs[i + 1];
      i := i + 1;
    } else {
      i := 0;
      path := RefusedForReentry(h, vs[0], depth, inside, nodes);
    }
  }

  ghost function Start(document: Item): Visit { Visit(document, "", Object) }

  /** The route along `path` from the root comes back to a container it is in. */
  ghost predicate ComesBack(h: Heap, document: Item, path: seq<nat>) { Reenters(h, Route(h, Start(document), path)) }

  /**
    Within the limits on size and depth, a document is refused as containing itself exactly
    when some route comes back to a container it is in; one used twice side by side is not.
  */
  lemma ContainsItselfExactly(h: Heap, document: Item)
    requires Whole(h, document).stop.Done? || Whole(h, document).stop.ContainsItself?
    ensures Whole(h, document).stop.ContainsItself? <==> exists path :: ComesBack(h, document, path)
  {
    if Whole(h, document).stop.ContainsItself? {
      var path := RefusedForReentry(h, Start(document), 0, {}, 0);
      assert ComesBack(h, document, path);
    } else {
      forall path ensures !ComesBack(h, document, path) {
        DoneNeverReenters(h, Start(document), 0, {}, 0, path);
      }
    }
  }

  // ---------- exactly the documents whose walk gets to its end ----------

  /** The values at most `fuel` steps below `v`, and itself, one that is come to twice counted twice. */
  ghost function Count(h: Heap, v: Visit, fuel: nat): nat
    decreases fuel, 0
  {
    1 + if IsContainer(h, v.item) && fuel > 0 then CountEach(h, Steps(h, v), fuel - 1) else 0
  }

  ghost function CountEach(h: Heap, vs: seq<Visit>, fuel: nat): nat
    decreases fuel, 1, |vs|
  {
    if vs == [] then 0 else Count(h, vs[0], fuel) + CountEach(h, vs[1..], fuel)
  }

  ghost predicate NoneReturns(h: Heap, v: Visit, inside: set<Id>) {
    forall path :: !EndsInside(h, Route(h, v, path), inside)
  }

  /** The route along `path`, which starts at `depth`, ends at a container too deep to enter. */
  ghost predicate GoesTooDeep(h: Heap, v: Visit, path: seq<nat>, depth: nat) {
    var route := Route(h, v, path);
    route != [] && IsContainer(h, route[|route| - 1].item) && depth + |path| >= MAX_DEPTH
  }

  ghost predicate NoneTooDeep(h: Heap, v: Visit, depth: nat) { forall path :: !GoesTooDeep(h, v, path, depth) }

  lemma NoWayOn(h: Heap, v: Visit)
    requires !IsContainer(h, v.item)
    ensures forall inside :: NoneReturns(h, v, inside)
    ensures forall depth :: NoneTooDeep(h, v, depth)
  {
    forall path ensures Route(h, v, path) == if path == [] then [v] else [] {
    }
  }

  lemma ReturnsHereOrBelow(h: Heap, v: Visit, inside: set<Id>)
    requires IsContainer(h, v.item)
    ensures NoneReturns(h, v, inside) <==>
            && v.item.id !in inside
            && forall i :: 0 <= i < |Steps(h, v)| ==> NoneReturns(h, Steps(h, v)[i], inside + {v.item.id})
  {
    if NoneReturns(h, v, inside) {
      assert !EndsInside(h, Route(h, v, []), inside);
      forall i, below | 0 <= i < |Steps(h, v)|
        ensures !EndsInside(h, Route(h, Steps(h, v)[i], below), inside + {v.item.id})
      {
        assert !EndsInside(h, Route(h, v, [i] + below), inside);
        RouteThrough(h, v, i, below);
        if Route(h, Steps(h, v)[i], below) != [] {
          OneLonger(h, v, Route(h, Steps(h, v)[i], below), inside);
        }
      }
    } else {
      var path :| EndsInside(h, Route(h, v, path), inside);
      if path != [] {
        OneLonger(h, v, Route(h, Steps(h, v)[path[0]], path[1..]), inside);
      }
    }
  }

  lemma TooDeepThrough(h: Heap, v: Visit, i: nat, below: seq<nat>, depth: nat)
    requires IsContainer(h, v.item) && i < |Steps(h, v)|
    ensures GoesTooDeep(h, v, [i] + below, depth) <==> GoesTooDeep(h, Steps(h, v)[i], below, depth + 1)
  {
    var rest := Route(h, Steps(h, v)[i], below);
    RouteThrough(h, v, i, below);
    if rest != [] {
      LastOfLonger(v, rest);
    }
  }

  lemma TooDeepHereOrBelow(h: Heap, v: Visit, depth: nat)
    requires IsContainer(h, v.item)
    ensures NoneTooDeep(h, v, depth) <==>
            depth < MAX_DEPTH && forall i :: 0 <= i < |Steps(h, v)| ==> NoneTooDeep(h, Steps(h, v)[i], depth + 1)
  {
    if NoneTooDeep(h, v, depth) {
      assert !GoesTooDeep(h, v, [], depth);
      forall i | 0 <= i < |Steps(h, v)| ensures NoneTooDeep(h, Steps(h, v)[i], depth + 1) {
        var next, deeper := Steps(h, v)[i], depth + 1;
        forall below ensures !GoesTooDeep(h, next, below, deeper) {
          TooDeepThrough(h, v, i, below, depth);
        }
      }
    } else {
      var path :| GoesTooDeep(h, v, path, depth);
      if path != [] {
        assert path == [path[0]] + path[1..] && path[0] < |Steps(h, v)|;
        TooDeepThrough(h, v, path[0], path[1..], depth);
      }
    }
  }

  /** What a walk of one value comes to: all that is below it counts, and none of it returns or is too deep. */
  ghost predicate Passes(h: Heap, v: Visit, depth: nat, inside: set<Id>, nodes: nat)
    requires depth <= MAX_DEPTH
  {
    nodes + Count(h, v, MAX_DEPTH - depth) <= MAX_NODES && NoneReturns(h, v, inside) && NoneTooDeep(h, v, depth)
  }

  ghost predicate EachPasses(h: Heap, vs: seq<Visit>, depth: nat, inside: set<Id>, nodes: nat)
    requires depth <= MAX_DEPTH
  {
    && nodes + CountEach(h, vs, MAX_DEPTH - depth) <= MAX_NODES
    && forall i :: 0 <= i < |vs| ==> NoneReturns(h, vs[i], inside) && NoneTooDeep(h, vs[i], depth)
  }

  lemma {:induction false} OneEndsExactly(h: Heap, v: Visit, depth: nat, inside: set<Id>, nodes: nat)
    requires depth <= MAX_DEPTH && nodes <= MAX_NODES
    ensures WalkOne(h, v, depth, inside, nodes).stop.Done? <==> Passes(h, v, depth, inside, nodes)
    ensures Passes(h, v, depth, inside, nodes) ==>
              WalkOne(h, v, depth, inside, nodes).nodes == nodes + Count(h, v, MAX_DEPTH - depth)
    decreases MAX_DEPTH - depth, 0
  {
    if !IsContainer(h, v.item) {
      NoWayOn(h, v);
    } else {
      ReturnsHereOrBelow(h, v, inside);
      TooDeepHereOrBelow(h, v, depth);
      if nodes < MAX_NODES && v.item.id !in inside && depth < MAX_DEPTH {
        EachEndsExactly(h, Steps(h, v), depth + 1, inside + {v.item.id}, nodes + 1);
      }
    }
  }

  lemma {:induction false} EachEndsExactly(h: Heap, vs: seq<Visit>, depth: nat, inside: set<Id>, nodes: nat)
    requires depth <= MAX_DEPTH && nodes <= MAX_NODES
    ensures WalkEach(h, vs, depth, inside, nodes).stop.Done? <==> EachPasses(h, vs, depth, inside, nodes)
    ensures EachPasses(h, vs, depth, inside, nodes) ==>
              WalkEach(h, vs, depth, inside, nodes).nodes == nodes + CountEach(h, vs, MAX_DEPTH - depth)
    decreases MAX_DEPTH - depth, 1, |vs|
  {
    if vs == [] {
    } else {
      OneEndsExactly(h, vs[0], depth, inside, nodes);
      var first := WalkOne(h, vs[0], depth, inside, nodes);
      if first.stop.Done? {
        EachEndsExactly(h, vs[1..], depth, inside, first.nodes);
        FirstAndRest(h, vs, depth, inside, nodes);
      }
    }
  }

  lemma FirstAndRest(h: Heap, vs: seq<Visit>, depth: nat, inside: set<Id>, nodes: nat)
    requires vs != [] && depth <= MAX_DEPTH && Passes(h, vs[0], depth, inside, nodes)
    ensures EachPasses(h, vs, depth, inside, nodes)
       <==> EachPasses(h, vs[1..], depth, inside, nodes + Count(h, vs[0], MAX_DEPTH - depth))
  {
    if EachPasses(h, vs, depth, inside, nodes) {
      forall i | 0 <= i < |vs[1..]| ensures NoneReturns(h, vs[1..][i], inside) && NoneTooDeep(h, vs[1..][i], depth) {
        assert vs[1..][i] == vs[i + 1];
      }
    }
    if EachPasses(h, vs[1..], depth, inside, nodes + Count(h, vs[0], MAX_DEPTH - depth)) {
      forall i | 0 <= i < |vs| ensures NoneReturns(h, vs[i], inside) && NoneTooDeep(h, vs[i], depth) {
        assert i > 0 ==> vs[1..][i - 1] == vs[i];
      }
    }
  }

  /**
    The walk gets to its end exactly when no route comes back to a container it is in, none ends
    at a container MAX_DEPTH steps down or deeper, and no more than MAX_NODES values are come to.
  */
  lemma WalkEndsExactly(h: Heap, document: Item)
    ensures Whole(h, document).stop.Done? <==>
            && (forall path :: !ComesBack(h, document, path))
            && (forall path :: !GoesTooDeep(h, Start(document), path, 0))
            && Count(h, Start(document), MAX_DEPTH) <= MAX_NODES
  {
    OneEndsExactly(h, Start(document), 0, {}, 0);
    forall path ensures EndsInside(h, Route(h, Start(document), path), {}) <==> ComesBack(h, document, path) {
    }
  }

  // ---------- every reference, and nothing else ----------

  /** Some route from `v` ends at a mapping that is the reference `r`. */
  ghost predicate LeadsTo(h: Heap, v: Visit, path: seq<nat>, r: Ref) {
    var route := Route(h, v, path);
    route != [] && Carries(h, route[|route| - 1], r)
  }

  ghost predicate Carries(h: Heap, v: Visit, r: Ref) { IsContainer(h, v.item) && r in OwnRef(h, v) }

  lemma {:induction false} FoundOnARoute(h: Heap, v: Visit, depth: nat, inside: set<Id>, nodes: nat,
      r: Ref) returns (path: seq<nat>)
    requires r in WalkOne(h, v, depth, inside, nodes).refs
    ensures LeadsTo(h, v, path, r)
    decreases MAX_DEPTH - depth, 0
  {
    if r in OwnRef(h, v) {
      path := [];
    } else {
      var i, below := FoundBelow(h, Steps(h, v), depth + 1, inside + {v.item.id}, nodes + 1, r);
      RouteThrough(h, v, i, below);
      LastOfLonger(v, Route(h, Steps(h, v)[i], below));
      path := [i] + below;
    }
  }

  lemma {:induction false} FoundBelow(h: Heap, vs: seq<Visit>, depth: nat, inside: set<Id>, nodes: nat,
                                      r: Ref) returns (i: nat, path: seq<nat>)
    requires r in WalkEach(h, vs, depth, inside, nodes).refs
    ensures i < |vs| && LeadsTo(h, vs[i], path, r)
    decreases MAX_DEPTH - depth, 1, |vs|
  {
    var first := WalkOne(h, vs[0], depth, inside, nodes);
    if r in first.refs {
      i := 0;
      path := FoundOnARoute(h, vs[0], depth, inside, nodes, r);
    } else {
      i, path := FoundBelow(h, vs[1..], depth, inside, first.nodes, r);
      assert vs[1..][i] == vs[i + 1];
      i := i + 1;
    }
  }

  /** A route that goes on leads there from the child it takes. */
  lemma LeadsOn(h: Heap, v: Visit, path: seq<nat>, r: Ref)
    requires LeadsTo(h, v, path, r) && path != []
    ensures IsContainer(h, v.item) && path[0] < |Steps(h, v)| && LeadsTo(h, Steps(h, v)[path[0]], path[1..], r)
  {
    var rest := Route(h, Steps(h, v)[path[0]], path[1..]);
    LastOfLonger(v, rest);
    assert Carries(h, rest[|rest| - 1], r);
  }

  /** A container whose walk gets to its end: so does the walk below it, and what that finds is found. */
  lemma BelowIsDone(h: Heap, v: Visit, depth: nat, inside: set<Id>, nodes: nat)
    requires WalkOne(h, v, depth, inside, nodes).stop.Done? && IsContainer(h, v.item)
    ensures var below := WalkEach(h, Steps(h, v), depth + 1, inside + {v.item.id}, nodes + 1);
            && below.stop.Done?
            && forall r :: r in below.refs ==> r in WalkOne(h, v, depth, inside, nodes).refs
  {
  }

  lemma {:induction false} RoutesAreFound(h: Heap, v: Visit, depth: nat, inside: set<Id>, nodes: nat, path: seq<nat>,
      r: Ref)
    requires WalkOne(h, v, depth, inside, nodes).stop.Done? && LeadsTo(h, v, path, r)
    ensures r in WalkOne(h, v, depth, inside, nodes).refs
    decreases |path|
  {
    if path == [] {
    } else {
      LeadsOn(h, v, path, r);
      BelowIsDone(h, v, depth, inside, nodes);
      var at := EachDone(h, Steps(h, v), depth + 1, inside + {v.item.id}, nodes + 1, path[0]);
      RoutesAreFound(h, Steps(h, v)[path[0]], depth + 1, inside + {v.item.id}, at, path[1..], r);
    }
  }

  /** A walk that gets to its end found exactly the references some route leads to. */
  lemma FindsExactlyTheReferences(h: Heap, document: Item, r: Ref)
    requires Whole(h, document).stop.Done?
    ensures r in Whole(h, document).refs <==> exists path :: LeadsTo(h, Start(document), path, r)
  {
    if r in Whole(h, document).refs {
      var path := FoundOnARoute(h, Start(document), 0, {}, 0, r);
    }
    if path :| LeadsTo(h, Start(document), path, r) {
      RoutesAreFound(h, Start(document), 0, {}, 0, path, r);
    }
  }
}
