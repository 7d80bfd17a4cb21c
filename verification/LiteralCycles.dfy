/**
  What a document is checked for before it is frozen, and the documents that pass and can
  never be frozen: the reference walk does not look below literal keys, freezing does
  (openapi/document.py, openapi/ref_walk.py, openapi/readonly.py).
*/
module LiteralCycles {
  import opened ApiGraph
  import opened RefWalk
  import opened RefPaths
  import opened RefChains
  import Freezing

  // ---------- the checks ----------

  /** The scalar a missing value is read as. */
  const NULL: Item := Scalar(0)

  datatype Problem =
    | IsSwagger
    | HasNoVersion
    | VersionIsNoText
    | Unsupported(version: string)
    | HasNoInfo
    | HasNoInfoText(key: string)
    | HasNoSection(names: seq<string>)
    | SectionIsNoMapping(name: string)

  predicate IsSuffixChar(c: char) {
    '0' <= c <= '9' || 'A' <= c <= 'Z' || 'a' <= c <= 'z' || c == '.' || c == '-'
  }

  /** What may follow the patch number: nothing, or a suffix after a dash. */
  predicate IsVersionTail(tail: string) {
    tail == "" || (|tail| > 1 && tail[0] == '-' && forall i :: 1 <= i < |tail| ==> IsSuffixChar(tail[i]))
  }

  /** The end of the pattern also matches before one last line feed. */
  function WithoutLineFeed(text: string): string {
    if text != "" && text[|text| - 1] == '\n' then text[..|text| - 1] else text
  }

  /** Version 3.0 or 3.1, with a patch number of the digits `digit` knows. */
  predicate Supported(version: string, digit: char -> bool) {
    && |version| > 4 && "3." <= version && (version[2] == '0' || version[2] == '1') && version[3] == '.'
    && exists n :: 4 < n <= |version| && (forall i :: 4 <= i < n ==> digit(version[i]))
         && IsVersionTail(WithoutLineFeed(version[n..]))
  }

  predicate IsMapping(h: Heap, item: Item) { item.At? && item.id in h && h[item.id].MapOf? }

  predicate IsText(found: Found) { found.Found? && found.item.Text? }

  function InfoProblems(h: Heap, found: Found): seq<Problem> {
    if found.Missing? || !IsMapping(h, found.item) then [HasNoInfo]
    else
      var info := h[found.item.id].entries;
      (if IsText(Lookup(info, "title")) then [] else [HasNoInfoText("title")])
      + (if IsText(Lookup(info, "version")) then [] else [HasNoInfoText("version")])
  }

  function Sections(version: string): seq<string> {
    if "3.0." <= version then ["paths"] else ["paths", "webhooks", "components"]
  }

  function Present(entries: seq<Entry>, names: seq<string>): seq<string> {
    if names == [] then []
    else (if Lookup(entries, names[0]).Found? then [names[0]] else []) + Present(entries, names[1..])
  }

  function NotMappings(h: Heap, entries: seq<Entry>, names: seq<string>): seq<Problem> {
    if names == [] then []
    else
      var found := Lookup(entries, names[0]);
      (if found.Found? && IsMapping(h, found.item) then [] else [SectionIsNoMapping(names[0])])
        + NotMappings(h, entries, names[1..])
  }

  function SectionProblems(h: Heap, entries: seq<Entry>, names: seq<string>): seq<Problem> {
    var present := Present(entries, names);
    (if present == [] then [HasNoSection(names)] else []) + NotMappings(h, entries, present)
  }

  function VersionProblems(h: Heap, entries: seq<Entry>, digit: char -> bool): seq<Problem> {
    if Lookup(entries, "swagger").Found? then [IsSwagger]
    else
      match Lookup(entries, "openapi")
      case Missing => [HasNoVersion]
      case Found(Text(version)) =>
        if !Supported(version, digit) then [Unsupported(version)]
        else InfoProblems(h, Lookup(entries, "info")) + SectionProblems(h, entries, Sections(version))
      case Found(item) => if item == NULL then [HasNoVersion] else [VersionIsNoText]
  }

  /** A mapping with a title and a version, both texts. */
  ghost predicate IsInfo(h: Heap, found: Found) {
    && found.Found? && IsMapping(h, found.item)
    && var info := h[found.item.id].entries;
       IsText(Lookup(info, "title")) && IsText(Lookup(info, "version"))
  }

  /** A section a document of this version may have: version 3.1 knows two more than `paths`. */
  predicate IsSection(version: string, name: string) {
    name == "paths" || (!("3.0." <= version) && (name == "webhooks" || name == "components"))
  }

  /** No Swagger, of a supported version, with its info, and with sections that are mappings, one at least. */
  ghost predicate IsOpenApi(h: Heap, entries: seq<Entry>, version: string, digit: char -> bool) {
    && Lookup(entries, "swagger").Missing?
    && Lookup(entries, "openapi") == Found(Text(version)) && Supported(version, digit)
    && IsInfo(h, Lookup(entries, "info"))
    && (exists name :: IsSection(version, name) && Lookup(entries, name).Found?)
    && forall name :: IsSection(version, name) && Lookup(entries, name).Found? ==>
         IsMapping(h, Lookup(entries, name).item)
  }

  lemma {:induction false} PresentAre(entries: seq<Entry>, names: seq<string>, name: string)
    ensures name in Present(entries, names) <==> name in names && Lookup(entries, name).Found?
  {
    if names == [] {
    } else {
      PresentAre(entries, names[1..], name);
      assert names == [names[0]] + names[1..];
    }
  }

  lemma {:induction false} AllAreMappings(h: Heap, entries: seq<Entry>, names: seq<string>)
    ensures NotMappings(h, entries, names) == [] <==>
            forall name :: name in names ==> Lookup(entries, name).Found? && IsMapping(h, Lookup(entries, name).item)
  {
    if names == [] {
    } else {
      AllAreMappings(h, entries, names[1..]);
      assert forall name :: name in names <==> name == names[0] || name in names[1..];
      var found := Lookup(entries, names[0]);
      if found.Found? && IsMapping(h, found.item) {
        assert NotMappings(h, entries, names) == [] + NotMappings(h, entries, names[1..]);
      } else {
        assert NotMappings(h, entries, names) != [] && names[0] in names;
      }
    }
  }

  lemma SectionsAreIn(h: Heap, entries: seq<Entry>, version: string)
    ensures SectionProblems(h, entries, Sections(version)) == [] <==>
            && (exists name :: IsSection(version, name) && Lookup(entries, name).Found?)
            && forall name :: IsSection(version, name) && Lookup(entries, name).Found? ==>
                 IsMapping(h, Lookup(entries, name).item)
  {
    var present := Present(entries, Sections(version));
    forall name ensures name in present <==> IsSection(version, name) && Lookup(entries, name).Found? {
      PresentAre(entries, Sections(version), name);
    }
    AllAreMappings(h, entries, present);
    assert present != [] <==> exists name :: name in present by {
      if present != [] { assert present[0] in present; }
    }
  }

  lemma InfoIsIn(h: Heap, found: Found)
    ensures InfoProblems(h, found) == [] <==> IsInfo(h, found)
  {
  }

  lemma VersionIsIn(h: Heap, entries: seq<Entry>, version: string, digit: char -> bool)
    requires Lookup(entries, "openapi") == Found(Text(version))
    ensures VersionProblems(h, entries, digit) == [] <==> IsOpenApi(h, entries, version, digit)
  {
    InfoIsIn(h, Lookup(entries, "info"));
    SectionsAreIn(h, entries, version);
  }

  /** There is nothing to report of the version and the sections exactly where the document is as it should be. */
  lemma NoVersionProblemsExactly(h: Heap, entries: seq<Entry>, digit: char -> bool)
    ensures VersionProblems(h, entries, digit) == [] <==> exists version :: IsOpenApi(h, entries, version, digit)
  {
    match Lookup(entries, "openapi")
    case Found(Text(version)) => VersionIsIn(h, entries, version, digit);
    case _ =>
  }

  /** The document passes every check, so it goes on to be frozen. */
  ghost predicate Accepted(d: Doc, digit: char -> bool) {
    && IsMapping(d.heap, d.root)
    && VersionProblems(d.heap, d.heap[d.root.id].entries, digit) == []
    && ReportOf(d) == Reported([], 0)
  }

  // ---------- every way back of an accepted document ----------

  /** The route along `steps` is at the containers of `path`, up to the one at `i`. */
  ghost predicate Visits(h: Heap, v: Visit, steps: seq<nat>, path: seq<Id>, i: nat) {
    var route := Route(h, v, steps);
    i < |path| && |route| == i + 1 && forall j :: 0 <= j <= i ==> route[j].item == At(path[j])
  }

  /** The walk comes along `path` as far as `i`, and does not go on: the next container is under a literal key. */
  ghost predicate LeftAt(h: Heap, v: Visit, steps: seq<nat>, path: seq<Id>, i: nat, e: Entry) {
    && Visits(h, v, steps, path, i) && i + 1 < |path| && path[i] in h
    && h[path[i]].MapOf? && e in h[path[i]].entries && e.value == At(path[i + 1])
    && var role := Route(h, v, steps)[i].role;
       !KeyedByName(role) && IsLiteral(h, e.key, e.value, role)
  }

  /** A child of a container is walked, or under a literal key. */
  lemma WalkedOrLiteral(h: Heap, v: Visit, child: Id) returns (i: nat, e: Entry)
    requires IsContainer(h, v.item) && Freezing.HasChild(h, v.item.id, child)
    ensures
      || (i < |Steps(h, v)| && Steps(h, v)[i].item == At(child))
      || (&& h[v.item.id].MapOf? && e in h[v.item.id].entries && e.value == At(child)
          && !KeyedByName(v.role) && IsLiteral(h, e.key, e.value, v.role))
  {
    i, e := 0, Entry("", NULL);
    match h[v.item.id]
    case ListOf(items) =>
      i :| 0 <= i < |items| && items[i] == At(child);
      ListStepsSpec(items, v.pointer, 0, i);
    case MapOf(entries) =>
      var k :| 0 <= k < |Values(entries)| && Values(entries)[k] == At(child);
      e := entries[k];
      if Walked(h, e, v.role) {
        var s := MapStep(e, v.pointer, v.role);
        MapStepsSpec(h, entries, v.pointer, v.role, s);
        i :| 0 <= i < |Steps(h, v)| && Steps(h, v)[i] == s;
      }
  }

  lemma VisitsThrough(h: Heap, v: Visit, k: nat, steps: seq<nat>, path: seq<Id>, i: nat)
    requires IsContainer(h, v.item) && path != [] && v.item == At(path[0]) && k < |Steps(h, v)|
    requires Visits(h, Steps(h, v)[k], steps, path[1..], i)
    ensures Visits(h, v, [k] + steps, path, i + 1)
    ensures Route(h, v, [k] + steps)[i + 1] == Route(h, Steps(h, v)[k], steps)[i]
  {
    RouteThrough(h, v, k, steps);
    OneFurther(v, Route(h, Steps(h, v)[k], steps), path, i);
  }

  lemma OneFurther(v: Visit, rest: seq<Visit>, path: seq<Id>, i: nat)
    requires path != [] && v.item == At(path[0]) && i < |path[1..]| && |rest| == i + 1
    requires forall j :: 0 <= j <= i ==> rest[j].item == At(path[1..][j])
    ensures forall j :: 0 <= j <= i + 1 ==> ([v] + rest)[j].item == At(path[j])
  {
    forall j | 0 <= j <= i + 1 ensures ([v] + rest)[j].item == At(path[j]) {
      if j > 0 {
        assert ([v] + rest)[j] == rest[j - 1] && path[1..][j - 1] == path[j];
      }
    }
  }

  /** A path is one the walk takes to its end, or it leaves the walk under a literal key. */
  lemma {:induction false} TakenOrLeft(h: Heap, v: Visit, path: seq<Id>) returns (steps: seq<nat>, i: nat, e: Entry)
    requires Freezing.Closed(h) && Freezing.IsPath(h, path) && v.item == At(path[0]) && path[0] in h
    ensures (i == |path| - 1 && Visits(h, v, steps, path, i)) || LeftAt(h, v, steps, path, i, e)
    decreases |path|
  {
    if |path| == 1 {
      steps, i, e := [], 0, Entry("", NULL);
    } else {
      assert Freezing.HasChild(h, path[0], path[1]);
      var k, found := WalkedOrLiteral(h, v, path[1]);
      if k < |Steps(h, v)| && Steps(h, v)[k].item == At(path[1]) {
        PathGoesOn(h, path);
        var below, j, left := TakenOrLeft(h, Steps(h, v)[k], path[1..]);
        steps, i, e := [k] + below, j + 1, left;
        VisitsThrough(h, v, k, below, path, j);
        assert path[1..][j] == path[j + 1] && (j + 1 < |path| - 1 ==> path[1..][j + 1] == path[j + 2]);
      } else {
        steps, i, e := [], 0, found;
        assert LeftAt(h, v, steps, path, i, e);
      }
    }
  }

  lemma PathGoesOn(h: Heap, path: seq<Id>)
    requires Freezing.IsPath(h, path) && |path| > 1
    ensures Freezing.IsPath(h, path[1..])
  {
    forall i | 0 <= i < |path[1..]| - 1 ensures Freezing.HasChild(h, path[1..][i], path[1..][i + 1]) {
      assert Freezing.HasChild(h, path[i + 1], path[i + 1 + 1]);
    }
  }

  /** A route along a path that comes back ends at a container it is in. */
  lemma ReturnReenters(h: Heap, v: Visit, path: seq<Id>, steps: seq<nat>, i: nat)
    requires i < |path| - 1 && Visits(h, v, steps, path, |path| - 1) && path[i] == path[|path| - 1] && path[i] in h
    ensures EndsInside(h, Route(h, v, steps), {})
  {
    var route := Route(h, v, steps);
    assert route[|route| - 1].item == At(path[|path| - 1]) && route[i].item == At(path[i]);
    assert Reenters(h, route);
  }

  lemma TakenWayBackReenters(h: Heap, v: Visit, root: Id, path: seq<Id>, steps: seq<nat>)
    requires Freezing.Closed(h) && Freezing.WayBack(h, root, path) && Visits(h, v, steps, path, |path| - 1)
    ensures EndsInside(h, Route(h, v, steps), {})
  {
    var i :| 0 <= i < |path| - 1 && path[i] == path[|path| - 1];
    assert Freezing.HasChild(h, path[i], path[i + 1]);
    ReturnReenters(h, v, path, steps, i);
  }

  /** A walk that got to its end took no way back. */
  lemma WayBackIsNotTaken(h: Heap, root: Id, path: seq<Id>, steps: seq<nat>)
    requires Freezing.Closed(h) && Freezing.WayBack(h, root, path) && Whole(h, At(root)).stop.Done?
    ensures !Visits(h, Start(At(root)), steps, path, |path| - 1)
  {
    DoneNeverReenters(h, Start(At(root)), 0, {}, 0, steps);
    if Visits(h, Start(At(root)), steps, path, |path| - 1) {
      TakenWayBackReenters(h, Start(At(root)), root, path, steps);
    }
  }

  ghost predicate LeavesTheWalk(h: Heap, root: Id, path: seq<Id>) {
    exists steps: seq<nat>, i: nat, e :: LeftAt(h, Start(At(root)), steps, path, i, e)
  }

  /**
    Freezing an accepted document never ends exactly where some container leads back to
    itself; and every way back goes through an entry under a literal key, where the checks
    do not look.
  */
  lemma AcceptedNeverFreezesExactly(d: Doc, digit: char -> bool)
    requires Freezing.Closed(d.heap) && Accepted(d, digit)
    ensures !Freezing.Halts(d.heap, d.root.id) <==> exists path :: Freezing.WayBack(d.heap, d.root.id, path)
    ensures forall path :: Freezing.WayBack(d.heap, d.root.id, path) ==> LeavesTheWalk(d.heap, d.root.id, path)
  {
    var h, root := d.heap, d.root.id;
    Freezing.HaltsExactlyOnAcyclic(h, root);
    NothingReportedExactly(d);
    forall path | Freezing.WayBack(h, root, path) ensures LeavesTheWalk(h, root, path) {
      var steps, i, e := TakenOrLeft(h, Start(At(root)), path);
      WayBackIsNotTaken(h, root, path, steps);
      assert LeftAt(h, Start(At(root)), steps, path, i, e);
    }
  }

  /** An entry of the root, under whatever key, from which containers lead back to the root: freezing never ends. */
  lemma EntryLeadingBackNeverFreezes(h: Heap, root: Id, e: Entry, path: seq<Id>)
    requires Freezing.Closed(h) && root in h && h[root].MapOf? && e in h[root].entries
    requires Freezing.IsPath(h, path) && e.value == At(path[0]) && path[|path| - 1] == root
    ensures !Freezing.Halts(h, root)
  {
    var k :| 0 <= k < |h[root].entries| && h[root].entries[k] == e;
    assert Values(h[root].entries)[k] == At(path[0]);
    assert Freezing.HasChild(h, root, path[0]);
    Freezing.PathsJoin(h, [root], path);
    assert Freezing.WayBack(h, root, [root] + path) by {
      assert ([root] + path)[0] == root;
    }
    Freezing.HaltsExactlyOnAcyclic(h, root);
  }

  // ---------- one such document ----------

  const VERSION: string := "3.0.3"
  const INFO: seq<Entry> := [Entry("title", Text("Sample")), Entry("version", Text("1"))]

  /** The entries of a document whose sample data under `key` is the document itself. */
  function SampleEntries(key: string): seq<Entry> {
    [Entry("openapi", Text(VERSION)), Entry("info", At(1)), Entry("paths", At(2)), Entry(key, At(0))]
  }

  ghost function Sample(key: string): Heap { map[0 := MapOf(SampleEntries(key)), 1 := MapOf(INFO), 2 := MapOf([])] }

  lemma LookupSkips(e: Entry, rest: seq<Entry>, key: string)
    ensures Lookup([e] + rest, key) == if e.key == key then Found(e.value) else Lookup(rest, key)
  {
    assert ([e] + rest)[1..] == rest;
  }

  /** The key of the sample data is none of the others. */
  lemma SampleKey(key: string)
    requires key in LITERAL_KEYS
    ensures |key| > 3 && key[0] in {'e', 'd', 'c'}
  {
  }

  lemma SampleLookup(key: string, wanted: string)
    requires |key| > 3 && key[0] in {'e', 'd', 'c'} && |wanted| > 3 && wanted[0] !in {'e', 'd', 'c'}
    ensures Lookup(SampleEntries(key), wanted)
         == if wanted == "openapi" then Found(Text(VERSION))
            else if wanted == "info" then Found(At(1))
            else if wanted == "paths" then Found(At(2))
            else Missing
  {
    var entries := SampleEntries(key);
    assert entries == [entries[0]] + ([entries[1]] + ([entries[2]] + ([entries[3]] + [])));
    LookupSkips(entries[0], [entries[1]] + ([entries[2]] + ([entries[3]] + [])), wanted);
    LookupSkips(entries[1], [entries[2]] + ([entries[3]] + []), wanted);
    LookupSkips(entries[2], [entries[3]] + [], wanted);
    LookupSkips(entries[3], [], wanted);
  }

  lemma InfoLookup(wanted: string)
    ensures Lookup(INFO, wanted)
         == if wanted == "title" then Found(Text("Sample"))
            else if wanted == "version" then Found(Text("1"))
            else Missing
  {
    assert INFO == [INFO[0]] + ([INFO[1]] + []);
    LookupSkips(INFO[0], [INFO[1]] + [], wanted);
    LookupSkips(INFO[1], [], wanted);
  }

  lemma VersionIsSupported(digit: char -> bool)
    requires digit('3')
    ensures Supported(VERSION, digit) && Sections(VERSION) == ["paths"]
  {
    assert VERSION[5..] == "" && WithoutLineFeed(VERSION[5..]) == "";
    assert IsVersionTail(WithoutLineFeed(VERSION[5..]));
    assert forall i :: 4 <= i < 5 ==> digit(VERSION[i]);
    assert VERSION[..2] == "3." && VERSION[..4] == "3.0.";
  }

  lemma SampleSections(key: string)
    requires |key| > 3 && key[0] in {'e', 'd', 'c'}
    ensures SectionProblems(Sample(key), SampleEntries(key), ["paths"]) == []
  {
    var entries := SampleEntries(key);
    SampleLookup(key, "paths");
    assert ["paths"][1..] == [] && Present(entries, []) == [];
    assert Present(entries, ["paths"]) == ["paths"];
    assert NotMappings(Sample(key), entries, []) == [];
    assert NotMappings(Sample(key), entries, ["paths"]) == [];
  }

  lemma SampleHasItsVersion(key: string, digit: char -> bool)
    requires |key| > 3 && key[0] in {'e', 'd', 'c'} && digit('3')
    ensures VersionProblems(Sample(key), SampleEntries(key), digit) == []
  {
    VersionIsSupported(digit);
    SampleLookup(key, "swagger");
    SampleLookup(key, "openapi");
    SampleLookup(key, "info");
    InfoLookup("title");
    InfoLookup("version");
    assert InfoProblems(Sample(key), Found(At(1))) == [];
    SampleSections(key);
  }

  lemma MapStepsFrom(h: Heap, e: Entry, rest: seq<Entry>, pointer: string, role: Role)
    ensures MapSteps(h, [e] + rest, pointer, role)
         == (if Walked(h, e, role) then [MapStep(e, pointer, role)] else []) + MapSteps(h, rest, pointer, role)
  {
    assert ([e] + rest)[1..] == rest;
  }

  lemma NotLiteral(h: Heap, e: Entry, role: Role)
    requires |e.key| > 1 && e.key[0] !in {'e', 'd', 'c', 'x'} && (e.key[0] != 'v' || e.key[1] != 'a')
    ensures Walked(h, e, role)
  {
  }

  lemma EachOne(h: Heap, v: Visit, rest: seq<Visit>, depth: nat, inside: set<Id>, nodes: nat, m: nat, n: nat)
    requires WalkOne(h, v, depth, inside, nodes) == Walk([], m, Done)
        && WalkEach(h, rest, depth, inside, m) == Walk([], n, Done)
    ensures WalkEach(h, [v] + rest, depth, inside, nodes) == Walk([], n, Done)
  {
    assert ([v] + rest)[1..] == rest;
  }

  lemma NothingLeft(h: Heap, depth: nat, inside: set<Id>, nodes: nat)
    ensures WalkEach(h, [], depth, inside, nodes) == Walk([], nodes, Done)
  {
  }

  lemma ContainerIsWalked(h: Heap, v: Visit, depth: nat, inside: set<Id>, nodes: nat, n: nat)
    requires IsContainer(h, v.item) && v.item.id !in inside && depth < MAX_DEPTH && nodes < MAX_NODES
        && OwnRef(h, v) == []
    requires WalkEach(h, Steps(h, v), depth + 1, inside + {v.item.id}, nodes + 1) == Walk([], n, Done)
    ensures WalkOne(h, v, depth, inside, nodes) == Walk([], n, Done)
  {
  }

  lemma TextIsWalked(h: Heap, v: Visit, depth: nat, inside: set<Id>, nodes: nat)
    requires v.item.Text? && nodes < MAX_NODES
    ensures WalkOne(h, v, depth, inside, nodes) == Walk([], nodes + 1, Done)
  {
  }

  lemma TwoSteps(h: Heap, a: Entry, b: Entry, pointer: string, role: Role)
    requires Walked(h, a, role) && Walked(h, b, role)
    ensures MapSteps(h, [a] + ([b] + []), pointer, role)
        == [MapStep(a, pointer, role)] + ([MapStep(b, pointer, role)] + [])
  {
    MapStepsFrom(h, a, [b] + [], pointer, role);
    MapStepsFrom(h, b, [], pointer, role);
  }

  lemma InfoSteps(key: string, v: Visit)
    requires v.item == At(1)
    ensures Steps(Sample(key), v)
        == [MapStep(INFO[0], v.pointer, v.role)] + ([MapStep(INFO[1], v.pointer, v.role)] + [])
  {
    var h := Sample(key);
    assert INFO == [INFO[0]] + ([INFO[1]] + []);
    NotLiteral(h, INFO[0], v.role);
    NotLiteral(h, INFO[1], v.role);
    TwoSteps(h, INFO[0], INFO[1], v.pointer, v.role);
  }

  lemma InfoIsNoRef(key: string, v: Visit)
    requires v.item == At(1)
    ensures OwnRef(Sample(key), v) == []
  {
    InfoLookup(REF);
  }

  lemma InfoIsWalked(key: string, v: Visit, inside: set<Id>, nodes: nat)
    requires v.item == At(1) && 1 !in inside && nodes < 100
    ensures WalkOne(Sample(key), v, 1, inside, nodes) == Walk([], nodes + 3, Done)
  {
    var h, within := Sample(key), inside + {1};
    var title, version := MapStep(INFO[0], v.pointer, v.role), MapStep(INFO[1], v.pointer, v.role);
    InfoSteps(key, v);
    InfoIsNoRef(key, v);
    TextIsWalked(h, title, 2, within, nodes + 1);
    TextIsWalked(h, version, 2, within, nodes + 2);
    NothingLeft(h, 2, within, nodes + 3);
    EachOne(h, version, [], 2, within, nodes + 2, nodes + 3, nodes + 3);
    EachOne(h, title, [version] + [], 2, within, nodes + 1, nodes + 2, nodes + 3);
    ContainerIsWalked(h, v, 1, inside, nodes, nodes + 3);
  }

  lemma NoPathsAreWalked(key: string, v: Visit, inside: set<Id>, nodes: nat)
    requires v.item == At(2) && 2 !in inside && nodes < 100
    ensures WalkOne(Sample(key), v, 1, inside, nodes) == Walk([], nodes + 1, Done)
  {
    NothingLeft(Sample(key), 2, inside + {2}, nodes + 1);
    assert Steps(Sample(key), v) == [] && OwnRef(Sample(key), v) == [];
    ContainerIsWalked(Sample(key), v, 1, inside, nodes, nodes + 1);
  }

  /** Three entries that are walked, and one that is not. */
  lemma ThreeOfFour(h: Heap, a: Entry, b: Entry, c: Entry, e: Entry, pointer: string, role: Role)
    requires Walked(h, a, role) && Walked(h, b, role) && Walked(h, c, role) && !Walked(h, e, role)
    ensures MapSteps(h, [a] + ([b] + ([c] + ([e] + []))), pointer, role)
         == [MapStep(a, pointer, role)] + ([MapStep(b, pointer, role)] + ([MapStep(c, pointer, role)] + []))
  {
    MapStepsFrom(h, a, [b] + ([c] + ([e] + [])), pointer, role);
    MapStepsFrom(h, b, [c] + ([e] + []), pointer, role);
    MapStepsFrom(h, c, [e] + [], pointer, role);
    MapStepsFrom(h, e, [], pointer, role);
  }

  /** Of the root, all but the sample data is walked. */
  lemma SampleSteps(key: string)
    requires key in LITERAL_KEYS
    ensures var entries, v := SampleEntries(key), Start(At(0));
            Steps(Sample(key), v)
            == [MapStep(entries[0], "", Object)]
               + ([MapStep(entries[1], "", Object)] + ([MapStep(entries[2], "", Object)] + []))
  {
    var h, entries := Sample(key), SampleEntries(key);
    assert entries == [entries[0]] + ([entries[1]] + ([entries[2]] + ([entries[3]] + [])));
    NotLiteral(h, entries[0], Object);
    NotLiteral(h, entries[1], Object);
    NotLiteral(h, entries[2], Object);
    ThreeOfFour(h, entries[0], entries[1], entries[2], entries[3], "", Object);
  }

  /** A container with three values, each walked to its end. */
  lemma ThreeWalked(h: Heap, v: Visit, a: Visit, b: Visit, c: Visit, la: nat, lb: nat, lc: nat)
    requires IsContainer(h, v.item) && OwnRef(h, v) == [] && Steps(h, v) == [a] + ([b] + ([c] + []))
    requires WalkOne(h, a, 1, {v.item.id}, 1) == Walk([], la, Done)
    requires WalkOne(h, b, 1, {v.item.id}, la) == Walk([], lb, Done)
    requires WalkOne(h, c, 1, {v.item.id}, lb) == Walk([], lc, Done)
    ensures WalkOne(h, v, 0, {}, 0) == Walk([], lc, Done)
  {
    var inside := {v.item.id};
    NothingLeft(h, 1, inside, lc);
    EachOne(h, c, [], 1, inside, lb, lc, lc);
    EachOne(h, b, [c] + [], 1, inside, la, lb, lc);
    EachOne(h, a, [b] + ([c] + []), 1, inside, 1, la, lc);
    assert {} + inside == inside;
    ContainerIsWalked(h, v, 0, {}, 0, lc);
  }

  lemma SampleIsNoRef(key: string)
    requires key in LITERAL_KEYS
    ensures OwnRef(Sample(key), Start(At(0))) == []
  {
    SampleKey(key);
    SampleLookup(key, REF);
  }

  lemma SampleIsWalked(key: string)
    requires key in LITERAL_KEYS
    ensures Whole(Sample(key), At(0)) == Walk([], 6, Done)
  {
    var h, entries := Sample(key), SampleEntries(key);
    var a, b, c := MapStep(entries[0], "", Object), MapStep(entries[1], "", Object), MapStep(entries[2], "", Object);
    SampleSteps(key);
    SampleIsNoRef(key);
    TextIsWalked(h, a, 1, {0}, 1);
    InfoIsWalked(key, b, {0}, 2);
    NoPathsAreWalked(key, c, {0}, 5);
    ThreeWalked(h, Start(At(0)), a, b, c, 2, 5, 6);
  }

  /** It passes every check, and freezing it never ends. */
  lemma SampleIsAcceptedButNeverFreezes(key: string, unquote: string -> string, digit: char -> bool)
    requires key in LITERAL_KEYS && digit('3')
    ensures Accepted(Doc(Sample(key), At(0), unquote), digit)
    ensures Freezing.Closed(Sample(key)) && !Freezing.Halts(Sample(key), 0)
  {
    SampleKey(key);
    SampleHasItsVersion(key, digit);
    SampleIsWalked(key);
    assert Findings(Doc(Sample(key), At(0), unquote), []) == [];
    SampleIsClosed(key);
    EntryLeadingBackNeverFreezes(Sample(key), 0, SampleEntries(key)[3], [0]);
  }

  lemma SampleIsClosed(key: string)
    ensures Freezing.Closed(Sample(key))
  {
    forall parent, child | Freezing.HasChild(Sample(key), parent, child) ensures child in Sample(key) {
      var entries := Sample(key)[parent].entries;
      var i :| 0 <= i < |entries| && Values(entries)[i] == At(child);
      assert entries[i].value == At(child);
    }
  }
}
