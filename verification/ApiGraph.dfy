/**
  A parsed API document as a graph: mappings and lists are known by identity, so that two
  places may hold one of them, and one may hold itself.
*/
module ApiGraph {

  type Id = nat

  /** A value: a text, another scalar, or the container with an identity. */
  datatype Item = Text(text: string) | Scalar(kind: int) | At(id: Id)

  datatype Entry = Entry(key: string, value: Item)

  datatype Container = ListOf(items: seq<Item>) | MapOf(entries: seq<Entry>)

  type Heap = map<Id, Container>

  function Values(entries: seq<Entry>): (values: seq<Item>)
    ensures |values| == |entries|
    ensures forall i :: 0 <= i < |entries| ==> values[i] == entries[i].value
  {
    if entries == [] then [] else [entries[0].value] + Values(entries[1..])
  }

  function Children(c: Container): seq<Item> {
    match c
    case ListOf(items) => items
    case MapOf(entries) => Values(entries)
  }

  predicate UniqueKeys(entries: seq<Entry>) {
    forall i, j :: 0 <= i < j < |entries| ==> entries[i].key != entries[j].key
  }

  predicate Known(h: Heap, item: Item) { item.At? ==> item.id in h }

  /** Every container named is there, and no mapping has a key twice. */
  predicate WellFormed(h: Heap) {
    forall id :: id in h ==>
      && (forall item :: item in Children(h[id]) ==> Known(h, item))
      && (h[id].MapOf? ==> UniqueKeys(h[id].entries))
  }

  datatype Found = Found(item: Item) | Missing

  function Lookup(entries: seq<Entry>, key: string): Found {
    if entries == [] then Missing
    else if entries[0].key == key then Found(entries[0].value)
    else Lookup(entries[1..], key)
  }

  lemma {:induction false} LookupFinds(entries: seq<Entry>, i: nat)
    requires UniqueKeys(entries) && i < |entries|
    ensures Lookup(entries, entries[i].key) == Found(entries[i].value)
  {
    if i == 0 {
    } else {
      assert entries[0].key != entries[i].key;
      LookupFinds(entries[1..], i - 1);
    }
  }
}
