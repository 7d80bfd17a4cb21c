/**
  What a pointer finds: the resolver, the pointers the walk writes, and exactly which keys
  are found again by their own pointer (openapi/ref_walk.py).
*/
module RefPointers {
  import opened Sequences
  import opened Wrappers
  import opened ApiGraph
  import opened Pointers
  import opened RefWalk
  import opened RefPaths

  // ---------- resolving a pointer ----------

  /** The value under a key of a mapping, or at an index of a list. */
  function Descend(h: Heap, item: Item, key: string): Found {
    if !IsContainer(h, item) then Missing
    else
      match h[item.id]
      case MapOf(entries) => Lookup(entries, key)
      case ListOf(items) => if AllDigits(key) && Parsed(key) < |items| then Found(items[Parsed(key)]) else Missing
  }

  ghost function DescendAll(h: Heap, item: Item, keys: seq<string>): Found
    decreases |keys|
  {
    if keys == [] then Found(item)
    else
      match Descend(h, item, keys[0])
      case Found(next) => DescendAll(h, next, keys[1..])
      case Missing => Missing
  }

  ghost function Unescaped(tokens: seq<string>): (keys: seq<string>)
    ensures |keys| == |tokens|
    ensures forall i :: 0 <= i < |keys| ==> keys[i] == Unescape(tokens[i])
  {
    if tokens == [] then [] else [Unescape(tokens[0])] + Unescaped(tokens[1..])
  }

  /** What an internal reference resolves to: `#` and a pointer, percent-decoded by `unquote`. */
  ghost function Resolved(h: Heap, document: Item, ref: string, unquote: string -> string): Found
    requires ref != ""
  {
    var pointer := unquote(ref[1..]);
    if pointer == "" then Found(document)
    else if pointer[0] != '/' then Missing
    else DescendAll(h, document, Unescaped(Split(pointer[1..], '/')))
  }

  method Resolve(h: Heap, document: Item, ref: string, unquote: string -> string) returns (found: Found)
    requires ref != ""
    ensures found == Resolved(h, document, ref, unquote)
  {
    var pointer := unquote(ref[1..]);
    if pointer == "" {
      return Found(document);
    }
    if pointer[0] != '/' {
      return Missing;
    }
    var tokens := Split(pointer[1..], '/');
    ghost var keys := Unescaped(tokens);
    var node := document;
    for i := 0 to |tokens|
      invariant DescendAll(h, document, keys) == DescendAll(h, node, keys[i..])
    {
      var next := Descend(h, node, Unescape(tokens[i]));
      if next.Missing? {
        return Missing;
      }
      node := next.item;
    }
    return Found(node);
  }

  // ---------- the pointer leads back ----------

  /** The key that leads from a container to one of its values. */
  lemma StepLeadsBack(h: Heap, v: Visit, i: nat) returns (key: string)
    requires WellFormed(h) && IsContainer(h, v.item) && i < |Steps(h, v)|
    ensures Steps(h, v)[i].pointer == v.pointer + "/" + Escape(key)
    ensures Descend(h, v.item, key) == Found(Steps(h, v)[i].item)
  {
    match h[v.item.id]
    case ListOf(items) =>
      key := Decimal(i);
      ListStepsSpec(items, v.pointer, 0, i);
      DecimalRoundTrip(i);
      DecimalIsItsOwnToken(i);
    case MapOf(entries) =>
      var s := Steps(h, v)[i];
      assert s in Steps(h, v);
      MapStepsSpec(h, entries, v.pointer, v.role, s);
      var j :| 0 <= j < |entries| && Walked(h, entries[j], v.role) && s == MapStep(entries[j], v.pointer, v.role);
      key := entries[j].key;
      LookupFinds(entries, j);
  }

  lemma PointerGrows(pointer: string, key: string, below: seq<string>)
    ensures pointer + PointerOf([key] + below) == pointer + "/" + Escape(key) + PointerOf(below)
  {
    assert ([key] + below)[1..] == below;
  }

  lemma {:induction false} RouteLeadsBack(h: Heap, v: Visit, path: seq<nat>) returns (keys: seq<string>)
    requires WellFormed(h) && Route(h, v, path) != []
    ensures var route := Route(h, v, path);
            route[|route| - 1].pointer == v.pointer + PointerOf(keys)
              && DescendAll(h, v.item, keys) == Found(route[|route| - 1].item)
    decreases |path|
  {
    if path == [] {
      keys := [];
      assert v.pointer + PointerOf([]) == v.pointer;
    } else {
      var next := Steps(h, v)[path[0]];
      var key := StepLeadsBack(h, v, path[0]);
      var below := RouteLeadsBack(h, next, path[1..]);
      keys := [key] + below;
      assert keys[1..] == below;
      PointerGrows(v.pointer, key, below);
    }
  }

  lemma {:induction false} UnescapedEscaped(keys: seq<string>)
    ensures Unescaped(Escaped(keys)) == keys
  {
    if keys == [] {
    } else {
      EscapeRoundTrip(keys[0]);
      UnescapedEscaped(keys[1..]);
    }
  }

  /** The keys the resolver follows for the pointer written for `keys`; None where it follows none. */
  ghost function Followed(keys: seq<string>, unquote: string -> string): Option<seq<string>> {
    var pointer := unquote(PointerOf(keys));
    if pointer == "" then Some([])
    else if pointer[0] != '/' then None
    else Some(Unescaped(Split(pointer[1..], '/')))
  }

  lemma FollowedResolves(h: Heap, document: Item, keys: seq<string>, unquote: string -> string)
    ensures Resolved(h, document, "#" + PointerOf(keys), unquote)
         == match Followed(keys, unquote) case None => Missing case Some(others) => DescendAll(h, document, others)
  {
    assert ("#" + PointerOf(keys))[1..] == PointerOf(keys);
  }

  /** A pointer that decoding leaves alone is followed along the keys it was written for. */
  lemma FollowsItsKeys(keys: seq<string>, unquote: string -> string)
    requires unquote(PointerOf(keys)) == PointerOf(keys)
    ensures Followed(keys, unquote) == Some(keys)
  {
    if keys == [] {
    } else {
      SplitPointer(keys);
      UnescapedEscaped(keys);
      assert Followed(keys, unquote).Some? && Followed(keys, unquote).value == keys;
    }
  }

  lemma PointerResolves(h: Heap, document: Item, keys: seq<string>, unquote: string -> string)
    requires unquote(PointerOf(keys)) == PointerOf(keys)
    ensures Resolved(h, document, "#" + PointerOf(keys), unquote) == DescendAll(h, document, keys)
  {
    FollowedResolves(h, document, keys, unquote);
    FollowsItsKeys(keys, unquote);
  }

  // ---------- exactly the keys whose pointer leads back ----------

  /** A document in which `keys`, and no other keys, lead from the first node to the last. */
  ghost function Chain(keys: seq<string>): Heap {
    map i: nat | i <= |keys| :: if i < |keys| then MapOf([Entry(keys[i], At(i + 1))]) else MapOf([])
  }

  lemma ChainIsWellFormed(keys: seq<string>)
    ensures WellFormed(Chain(keys))
  {
    forall i: nat | i < |keys| ensures Values([Entry(keys[i], At(i + 1))]) == [At(i + 1)] {
      assert [Entry(keys[i], At(i + 1))][1..] == [];
    }
  }

  lemma ChainDescends(keys: seq<string>, i: nat, key: string)
    requires i <= |keys|
    ensures Descend(Chain(keys), At(i), key) == if i < |keys| && key == keys[i] then Found(At(i + 1)) else Missing
  {
    if i < |keys| {
      var entries := [Entry(keys[i], At(i + 1))];
      assert Chain(keys)[i] == MapOf(entries) && entries[1..] == [];
      assert Lookup(entries[1..], key) == Missing;
    } else {
      assert Chain(keys)[i] == MapOf([]);
    }
  }

  lemma {:induction false} ChainLeadsExactly(keys: seq<string>, i: nat, others: seq<string>)
    requires i <= |keys|
    ensures DescendAll(Chain(keys), At(i), others) == Found(At(|keys|)) <==> others == keys[i..]
    decreases |others|
  {
    if others == [] {
      assert i < |keys| ==> |keys[i..]| > 0;
    } else {
      ChainDescends(keys, i, others[0]);
      if i < |keys| && others[0] == keys[i] {
        ChainLeadsExactly(keys, i + 1, others[1..]);
        HeadAndTail(others[0], others[1..]);
        assert keys[i..] == [keys[i]] + keys[i + 1..] && others == [others[0]] + others[1..];
      } else {
        assert i < |keys| ==> keys[i..][0] == keys[i];
      }
    }
  }

  /**
    In every document the pointer written for `keys` finds the value `keys` lead to, exactly
    when decoding and splitting it gives these keys again.
  */
  lemma PointerFindsExactly(keys: seq<string>, unquote: string -> string)
    ensures (forall h, document :: WellFormed(h) && DescendAll(h, document, keys).Found? ==>
               Resolved(h, document, "#" + PointerOf(keys), unquote) == DescendAll(h, document, keys))
       <==> Followed(keys, unquote) == Some(keys)
  {
    if Followed(keys, unquote) == Some(keys) {
      forall h, document | WellFormed(h) && DescendAll(h, document, keys).Found?
        ensures Resolved(h, document, "#" + PointerOf(keys), unquote) == DescendAll(h, document, keys)
      {
        FollowedResolves(h, document, keys, unquote);
      }
    } else {
      ChainIsWellFormed(keys);
      KeysAreLost(keys, unquote);
    }
  }

  /** The document in which they are lost. */
  lemma KeysAreLost(keys: seq<string>, unquote: string -> string)
    requires Followed(keys, unquote) != Some(keys)
    ensures DescendAll(Chain(keys), At(0), keys) == Found(At(|keys|))
    ensures Resolved(Chain(keys), At(0), "#" + PointerOf(keys), unquote) != Found(At(|keys|))
  {
    assert keys[0..] == keys;
    ChainLeadsExactly(keys, 0, keys);
    FollowedResolves(Chain(keys), At(0), keys, unquote);
    if Followed(keys, unquote).Some? {
      ChainLeadsExactly(keys, 0, Followed(keys, unquote).value);
    }
  }

  lemma OwnRefPointer(h: Heap, v: Visit, r: Ref)
    requires IsContainer(h, v.item) && r in OwnRef(h, v)
    ensures r.pointer == v.pointer
  {
  }

  lemma RouteEndsAt(h: Heap, v: Visit, path: seq<nat>, r: Ref)
    requires LeadsTo(h, v, path, r)
    ensures var route := Route(h, v, path); route != [] && route[|route| - 1].pointer == r.pointer
  {
    var route := Route(h, v, path);
    OwnRefPointer(h, route[|route| - 1], r);
  }

  /** The pointer a route was given, taken as a reference, leads to the very value the route ends at. */
  lemma PointerRoundTrip(h: Heap, document: Item, path: seq<nat>, r: Ref, unquote: string -> string)
    requires WellFormed(h) && LeadsTo(h, Start(document), path, r)
    requires unquote(r.pointer) == r.pointer
    ensures var route := Route(h, Start(document), path);
            Resolved(h, document, "#" + r.pointer, unquote) == Found(route[|route| - 1].item)
  {
    RouteEndsAt(h, Start(document), path, r);
    var keys := RouteLeadsBack(h, Start(document), path);
    assert r.pointer == PointerOf(keys);
    PointerResolves(h, document, keys, unquote);
  }

  /** Every pointer the walk yields finds a mapping that holds the reference it was yielded with. */
  lemma YieldedPointerFindsItsReference(h: Heap, document: Item, r: Ref, unquote: string -> string)
    requires WellFormed(h) && r in Whole(h, document).refs
    requires '%' !in r.pointer && forall s :: '%' !in s ==> unquote(s) == s
    ensures var found := Resolved(h, document, "#" + r.pointer, unquote);
            && found.Found? && IsContainer(h, found.item) && h[found.item.id].MapOf?
            && Lookup(h[found.item.id].entries, REF) == Found(Text(r.target))
  {
    var path := FoundOnARoute(h, Start(document), 0, {}, 0, r);
    PointerRoundTrip(h, document, path, r, unquote);
  }

  lemma OnePointer(key: string)
    requires Escape(key) == key
    ensures PointerOf([key]) == "/" + key
  {
    assert [key][1..] == [] && "/" + Escape(key) + PointerOf([]) == "/" + key;
  }

  lemma TwoTokens(a: string, b: string)
    requires '/' !in a && '~' !in a && '/' !in b && '~' !in b
    ensures Unescaped(Split(a + "/" + b, '/')) == [a, b]
  {
    PlainTextIsItsOwnToken(a);
    PlainTextIsItsOwnToken(b);
    EscapeRoundTrip(a);
    EscapeRoundTrip(b);
    SplitOne(b, "");
    SplitOne(a, b);
    assert [a] + [b] == [a, b] && [a, b][1..] == [b] && [b][1..] == [];
  }

  /** A key that decodes to two, as `a%2Fb` to `a/b`: its pointer is followed along both, and the value is lost. */
  lemma PercentKeyIsLost(key: string, a: string, b: string, unquote: string -> string)
    requires '/' !in key && '~' !in key && '/' !in a && '~' !in a && '/' !in b && '~' !in b
    requires unquote("/" + key) == "/" + (a + "/" + b)
    ensures Followed([key], unquote) == Some([a, b])
    ensures DescendAll(Chain([key]), At(0), [key]) == Found(At(1))
    ensures Resolved(Chain([key]), At(0), "#" + PointerOf([key]), unquote) != Found(At(1))
  {
    PlainTextIsItsOwnToken(key);
    OnePointer(key);
    TwoTokens(a, b);
    assert ("/" + (a + "/" + b))[1..] == a + "/" + b;
    assert |[a, b]| != |[key]|;
    KeysAreLost([key], unquote);
  }
}
