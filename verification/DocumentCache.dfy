/**
  The cache of loaded API documents: by path and digest, least recently used first, bounded
  in number and in bytes of source (openapi/document.py).
*/
module DocumentCache {
  import opened Sequences

  /** Largest API file, in bytes. */
  const MAX_API_FILE_BYTES: nat := 5 * 1024 * 1024
  /** The two bounds of the cache, on its slots and on the sum of their sizes. */
  const CACHE_SIZE: nat := 16
  const CACHE_BYTES: nat := 16 * 1024 * 1024

  type Path = string
  type Bytes = seq<bv8>
  type MediaType = string

  /** A loaded file: the size of its source and its checked, frozen content. */
  datatype Document = Document(size: nat, content: int)

  datatype Outcome = Loaded(document: Document) | Unreadable | TooLarge | Invalid(problems: seq<string>)

  /** What reading a path gives: nothing, or its bytes. */
  datatype Source = NoFile | Data(bytes: Bytes)

  /** The digest of a file, and what checking its bytes as a media type gives. */
  datatype Reading = Reading(digest: Bytes -> string, checked: (Bytes, MediaType) -> Outcome)

  /** A file that checks is loaded with the size of its bytes. */
  ghost predicate Sizes(r: Reading) {
    forall data, media :: r.checked(data, media).Loaded? ==> r.checked(data, media).document.size == |data|
  }

  /** The digest tells two files apart. */
  ghost predicate ToldApart(digest: Bytes -> string, a: Bytes, b: Bytes) { digest(a) == digest(b) ==> a == b }

  datatype Key = Key(path: Path, digest: string)

  datatype Slot = Slot(key: Key, document: Document)

  // ---------- the table ----------

  function Total(slots: seq<Slot>): nat {
    if slots == [] then 0 else slots[0].document.size + Total(slots[1..])
  }

  lemma {:induction false} TotalOneMore(slots: seq<Slot>, last: Slot)
    ensures Total(slots + [last]) == Total(slots) + last.document.size
  {
    if slots == [] {
    } else {
      assert (slots + [last])[1..] == slots[1..] + [last];
      TotalOneMore(slots[1..], last);
    }
  }

  predicate Fits(slots: seq<Slot>) { |slots| <= CACHE_SIZE && Total(slots) <= CACHE_BYTES }

  predicate Unique(slots: seq<Slot>) {
    forall i, j :: 0 <= i < j < |slots| ==> slots[i].key != slots[j].key
  }

  function Position(slots: seq<Slot>, key: Key): (i: nat)
    ensures i <= |slots|
    ensures i < |slots| ==> slots[i].key == key
    ensures i == |slots| ==> forall j :: 0 <= j < |slots| ==> slots[j].key != key
  {
    if slots == [] || slots[0].key == key then 0 else 1 + Position(slots[1..], key)
  }

  /** The table with the slot at `i` used last. */
  function Used(slots: seq<Slot>, i: nat): (used: seq<Slot>)
    requires i < |slots|
    ensures |used| == |slots| && used[|used| - 1] == slots[i]
    ensures forall s :: s in used <==> s in slots
    ensures Unique(slots) ==> Unique(used)
  {
    slots[..i] + slots[i + 1..] + [slots[i]]
  }

  lemma {:induction false} UsedKeepsTotal(slots: seq<Slot>, i: nat)
    requires i < |slots|
    ensures Total(Used(slots, i)) == Total(slots)
  {
    TotalOneMore(slots[..i] + slots[i + 1..], slots[i]);
    if i == 0 {
      assert slots[..0] + slots[1..] == slots[1..];
    } else {
      UsedKeepsTotal(slots[1..], i - 1);
      TotalOneMore(slots[1..][..i - 1] + slots[1..][i..], slots[i]);
      assert (slots[..i] + slots[i + 1..])[1..] == slots[1..][..i - 1] + slots[1..][i..];
    }
  }

  /** The newest slots that fit, and always the newest. */
  function Trimmed(slots: seq<Slot>): seq<Slot>
    decreases |slots|
  {
    if |slots| > 1 && !Fits(slots) then Trimmed(slots[1..]) else slots
  }

  /** Of the slots, as many of the newest are kept as fit, and always one. */
  lemma {:induction false} TrimmedSpec(slots: seq<Slot>) returns (n: nat)
    requires slots != []
    ensures n < |slots| && Trimmed(slots) == slots[n..]
    ensures |slots[n..]| > 1 ==> Fits(slots[n..])
    ensures n > 0 ==> !Fits(slots[n - 1..])
    decreases |slots|
  {
    if |slots| > 1 && !Fits(slots) {
      var m := TrimmedSpec(slots[1..]);
      DropDrop(slots, 1, m);
      if m > 0 {
        DropDrop(slots, 1, m - 1);
      }
      assert slots[0..] == slots;
      n := m + 1;
    } else {
      assert slots[0..] == slots;
      n := 0;
    }
  }

  // ---------- one load ----------

  predicate Refused(source: Source) {
    source.NoFile? || |source.bytes| > MAX_API_FILE_BYTES
  }

  /** What loading without a cache gives. */
  function Uncached(r: Reading, source: Source, media: MediaType): Outcome {
    if source.NoFile? then Unreadable
    else if |source.bytes| > MAX_API_FILE_BYTES then TooLarge
    else r.checked(source.bytes, media)
  }

  function AfterLoad(slots: seq<Slot>, r: Reading, path: Path, source: Source, media: MediaType): seq<Slot> {
    if Refused(source) then slots
    else
      var key := Key(path, r.digest(source.bytes));
      var i := Position(slots, key);
      if i < |slots| then Used(slots, i)
      else
        var outcome := r.checked(source.bytes, media);
        if outcome.Loaded? then Trimmed(slots + [Slot(key, outcome.document)]) else slots
  }

  function LoadResult(slots: seq<Slot>, r: Reading, path: Path, source: Source, media: MediaType): Outcome {
    if Refused(source) then Uncached(r, source, media)
    else
      var i := Position(slots, Key(path, r.digest(source.bytes)));
      if i < |slots| then Loaded(slots[i].document) else r.checked(source.bytes, media)
  }

  /** The bounds, and that no document is larger than a file may be. */
  ghost predicate Bounded(slots: seq<Slot>) {
    && Unique(slots) && Fits(slots)
    && forall s :: s in slots ==> s.document.size <= MAX_API_FILE_BYTES
  }

  /** After every load the bounds hold, and the document just loaded is there, as the newest. */
  lemma LoadKeepsBounds(slots: seq<Slot>, r: Reading, path: Path, source: Source, media: MediaType)
    requires Bounded(slots) && Sizes(r)
    ensures Bounded(AfterLoad(slots, r, path, source, media))
    ensures var after, result := AfterLoad(slots, r, path, source, media), LoadResult(slots, r, path, source, media);
            if result.Loaded? then
              after != [] && after[|after| - 1] == Slot(Key(path, r.digest(source.bytes)), result.document)
            else after == slots
  {
    if !Refused(source) {
      var key := Key(path, r.digest(source.bytes));
      var i := Position(slots, key);
      if i < |slots| {
        UsedKeepsTotal(slots, i);
      } else if r.checked(source.bytes, media).Loaded? {
        TrimKeepsBounds(slots, Slot(key, r.checked(source.bytes, media).document));
      }
    }
  }

  /** Dropping the oldest slots leaves the others as they were. */
  lemma TailKeepsSlots(all: seq<Slot>, n: nat)
    requires n < |all|
    ensures Unique(all) ==> Unique(all[n..])
    ensures forall s :: s in all[n..] ==> s in all
    ensures all[n..][|all| - n - 1] == all[|all| - 1]
  {
  }

  lemma TrimKeepsBounds(slots: seq<Slot>, last: Slot)
    requires Bounded(slots) && Position(slots, last.key) == |slots| && last.document.size <= MAX_API_FILE_BYTES
    ensures var kept := Trimmed(slots + [last]);
            Bounded(kept) && kept != [] && kept[|kept| - 1] == last
  {
    var all := slots + [last];
    var n := TrimmedSpec(all);
    AppendedIsUnique(slots, last);
    TailKeepsSlots(all, n);
    if n == |slots| {
      assert all[n..] == [last];
      TotalOneMore([], last);
    }
  }

  lemma AppendedIsUnique(slots: seq<Slot>, last: Slot)
    requires Unique(slots) && Position(slots, last.key) == |slots|
    ensures Unique(slots + [last])
  {
  }

  // ---------- every history ----------

  datatype Call = Call(path: Path, source: Source, media: MediaType)

  function AfterCalls(r: Reading, calls: seq<Call>): seq<Slot> {
    if calls == [] then []
    else
      var last := calls[|calls| - 1];
      AfterLoad(AfterCalls(r, calls[..|calls| - 1]), r, last.path, last.source, last.media)
  }

  /** The call reads the file that this key is of. */
  predicate AsksFor(r: Reading, call: Call, key: Key) {
    !Refused(call.source) && Key(call.path, r.digest(call.source.bytes)) == key
  }

  /** How many calls there were up to the last that asked for the key, 0 where none did. */
  function LastAsked(r: Reading, calls: seq<Call>, key: Key): nat {
    if calls == [] then 0
    else if AsksFor(r, calls[|calls| - 1], key) then |calls|
    else LastAsked(r, calls[..|calls| - 1], key)
  }

  lemma {:induction false} AskedAmongThem(r: Reading, calls: seq<Call>, key: Key)
    ensures LastAsked(r, calls, key) <= |calls|
  {
    if calls == [] {
    } else {
      AskedAmongThem(r, calls[..|calls| - 1], key);
    }
  }

  /** The slots stand in the order in which they were last asked for. */
  ghost predicate InOrderOfUse(r: Reading, calls: seq<Call>, slots: seq<Slot>) {
    forall i, j :: 0 <= i < j < |slots| ==> LastAsked(r, calls, slots[i].key) < LastAsked(r, calls, slots[j].key)
  }

  /** A call asks for none of these slots: their order stays. */
  lemma OthersStayInOrder(r: Reading, calls: seq<Call>, slots: seq<Slot>)
    requires calls != [] && InOrderOfUse(r, calls[..|calls| - 1], slots)
    requires forall i :: 0 <= i < |slots| ==> !AsksFor(r, calls[|calls| - 1], slots[i].key)
    ensures InOrderOfUse(r, calls, slots)
  {
  }

  /** The slot asked for goes behind the others. */
  lemma AskedGoesLast(r: Reading, calls: seq<Call>, others: seq<Slot>, last: Slot)
    requires calls != [] && InOrderOfUse(r, calls[..|calls| - 1], others)
    requires forall i :: 0 <= i < |others| ==> !AsksFor(r, calls[|calls| - 1], others[i].key)
    requires AsksFor(r, calls[|calls| - 1], last.key)
    ensures InOrderOfUse(r, calls, others + [last])
  {
    OthersStayInOrder(r, calls, others);
    forall i | 0 <= i < |others| ensures LastAsked(r, calls, others[i].key) < |calls| {
      AskedAmongThem(r, calls[..|calls| - 1], others[i].key);
    }
  }

  lemma OrderWithout(r: Reading, calls: seq<Call>, slots: seq<Slot>, i: nat)
    requires i < |slots| && InOrderOfUse(r, calls, slots)
    ensures InOrderOfUse(r, calls, slots[..i] + slots[i + 1..])
  {
  }

  lemma OrderOfTail(r: Reading, calls: seq<Call>, slots: seq<Slot>, n: nat)
    requires n <= |slots| && InOrderOfUse(r, calls, slots)
    ensures InOrderOfUse(r, calls, slots[n..])
  {
  }

  /**
    Over every history the slots stand in the order in which they were last asked for, so what goes
    first when the cache is full is what was not asked for the longest.
  */
  lemma {:induction false} LeastRecentlyUsedFirst(r: Reading, calls: seq<Call>)
    ensures Unique(AfterCalls(r, calls)) && InOrderOfUse(r, calls, AfterCalls(r, calls))
  {
    if calls == [] {
    } else {
      var before, last := AfterCalls(r, calls[..|calls| - 1]), calls[|calls| - 1];
      LeastRecentlyUsedFirst(r, calls[..|calls| - 1]);
      LoadKeepsOrder(r, calls, before);
    }
  }

  lemma LoadKeepsOrder(r: Reading, calls: seq<Call>, before: seq<Slot>)
    requires calls != [] && Unique(before) && InOrderOfUse(r, calls[..|calls| - 1], before)
    ensures var last := calls[|calls| - 1];
            var after := AfterLoad(before, r, last.path, last.source, last.media);
            Unique(after) && InOrderOfUse(r, calls, after)
  {
    var call := calls[|calls| - 1];
    if Refused(call.source) {
      OthersStayInOrder(r, calls, before);
    } else {
      var key := Key(call.path, r.digest(call.source.bytes));
      var i := Position(before, key);
      var outcome := r.checked(call.source.bytes, call.media);
      if i < |before| {
        OrderWithout(r, calls[..|calls| - 1], before, i);
        AskedGoesLast(r, calls, before[..i] + before[i + 1..], before[i]);
      } else if outcome.Loaded? {
        var slot := Slot(key, outcome.document);
        AskedGoesLast(r, calls, before, slot);
        AppendedIsUnique(before, slot);
        var n := TrimmedSpec(before + [slot]);
        OrderOfTail(r, calls, before + [slot], n);
        TailKeepsSlots(before + [slot], n);
      } else {
        OthersStayInOrder(r, calls, before);
      }
    }
  }

  /** Each slot holds what checking some bytes of its digest, as its path's type, gave. */
  ghost predicate Faithful(slots: seq<Slot>, r: Reading, mediaOf: Path -> MediaType) {
    forall s :: s in slots ==> IsFaithful(s, r, mediaOf)
  }

  ghost predicate IsFaithful(s: Slot, r: Reading, mediaOf: Path -> MediaType) {
    exists data :: r.digest(data) == s.key.digest && r.checked(data, mediaOf(s.key.path)) == Loaded(s.document)
  }

  lemma LoadKeepsFaith(slots: seq<Slot>, r: Reading, path: Path, source: Source, mediaOf: Path -> MediaType)
    requires Faithful(slots, r, mediaOf)
    ensures Faithful(AfterLoad(slots, r, path, source, mediaOf(path)), r, mediaOf)
  {
    var after := AfterLoad(slots, r, path, source, mediaOf(path));
    if !Refused(source) && r.checked(source.bytes, mediaOf(path)).Loaded? {
      var s := Slot(Key(path, r.digest(source.bytes)), r.checked(source.bytes, mediaOf(path)).document);
      assert IsFaithful(s, r, mediaOf);
      var n := TrimmedSpec(slots + [s]);
      TailKeepsSlots(slots + [s], n);
      forall x | x in after ensures IsFaithful(x, r, mediaOf) {
        assert x in slots || x == s;
      }
    }
  }

  lemma {:induction false} HistoryIsFaithful(r: Reading, calls: seq<Call>, mediaOf: Path -> MediaType)
    requires Sizes(r) && forall c :: c in calls ==> c.media == mediaOf(c.path)
    ensures Bounded(AfterCalls(r, calls)) && Faithful(AfterCalls(r, calls), r, mediaOf)
  {
    if calls == [] {
    } else {
      var front, last := calls[..|calls| - 1], calls[|calls| - 1];
      assert last in calls && forall c :: c in front ==> c in calls;
      HistoryIsFaithful(r, front, mediaOf);
      var slots := AfterCalls(r, front);
      LoadKeepsBounds(slots, r, last.path, last.source, last.media);
      LoadKeepsFaith(slots, r, last.path, last.source, mediaOf);
    }
  }

  /** The key leaves the media type out: right after a load, another type of the same file gets the same document. */
  lemma MediaTypeIsNotAsked(r: Reading, calls: seq<Call>, path: Path, source: Source, media: MediaType,
                            other: MediaType)
    requires Sizes(r) && Bounded(AfterCalls(r, calls))
    ensures var first := LoadResult(AfterCalls(r, calls), r, path, source, media);
            first.Loaded? ==>
              LoadResult(AfterCalls(r, calls + [Call(path, source, media)]), r, path, source, other) == first
  {
    var slots := AfterCalls(r, calls);
    LoadKeepsBounds(slots, r, path, source, media);
    assert (calls + [Call(path, source, media)])[..|calls|] == calls;
    var after := AfterLoad(slots, r, path, source, media);
    if LoadResult(slots, r, path, source, media).Loaded? {
      var i := Position(after, Key(path, r.digest(source.bytes)));
      assert after[|after| - 1].key == Key(path, r.digest(source.bytes));
      assert i == |after| - 1;
    }
  }

  // ---------- exactly when a load differs from one without a cache ----------

  predicate Held(slots: seq<Slot>, key: Key) { Position(slots, key) < |slots| }

  function HeldAs(slots: seq<Slot>, key: Key): Document
    requires Held(slots, key)
  {
    slots[Position(slots, key)].document
  }

  predicate Reads(r: Reading, c: Call, key: Key) {
    !Refused(c.source) && key == Key(c.path, r.digest(c.source.bytes))
  }

  /** The document there now was put there by call `i`: it was not there before, and has been ever since. */
  ghost predicate InSince(r: Reading, calls: seq<Call>, key: Key, i: nat) {
    && i < |calls| && Reads(r, calls[i], key)
    && !Held(AfterCalls(r, calls[..i]), key)
    && forall k :: i < k <= |calls| ==> Held(AfterCalls(r, calls[..k]), key)
  }

  lemma SlotIsHeld(slots: seq<Slot>, s: Slot)
    requires Unique(slots) && s in slots
    ensures Held(slots, s.key) && HeldAs(slots, s.key) == s.document
  {
    var i :| 0 <= i < |slots| && slots[i] == s;
    assert slots[Position(slots, s.key)].key == s.key;
  }

  /** A load leaves only slots that were there, and the one for the file it read. */
  lemma SlotsAfterLoad(slots: seq<Slot>, r: Reading, c: Call, s: Slot)
    requires s in AfterLoad(slots, r, c.path, c.source, c.media) && s !in slots
    ensures Reads(r, c, s.key) && !Held(slots, s.key) && r.checked(c.source.bytes, c.media) == Loaded(s.document)
  {
    var key := Key(c.path, r.digest(c.source.bytes));
    if !Held(slots, key) && r.checked(c.source.bytes, c.media).Loaded? {
      var last := Slot(key, r.checked(c.source.bytes, c.media).document);
      var n := TrimmedSpec(slots + [last]);
      TailKeepsSlots(slots + [last], n);
    }
  }

  /** A document held before and after a load is the same; one held only after it is what the load read. */
  lemma LoadKeepsDocument(slots: seq<Slot>, r: Reading, c: Call, key: Key)
    requires Bounded(slots) && Sizes(r) && Held(AfterLoad(slots, r, c.path, c.source, c.media), key)
    ensures var after := AfterLoad(slots, r, c.path, c.source, c.media);
            if Held(slots, key) then HeldAs(after, key) == HeldAs(slots, key)
            else Reads(r, c, key) && r.checked(c.source.bytes, c.media) == Loaded(HeldAs(after, key))
  {
    var after := AfterLoad(slots, r, c.path, c.source, c.media);
    var s := after[Position(after, key)];
    if s in slots {
      SlotIsHeld(slots, s);
    } else {
      SlotsAfterLoad(slots, r, c, s);
    }
  }

  lemma {:induction false} HistoryIsBounded(r: Reading, calls: seq<Call>)
    requires Sizes(r)
    ensures Bounded(AfterCalls(r, calls))
  {
    if calls == [] {
    } else {
      var front, last := calls[..|calls| - 1], calls[|calls| - 1];
      HistoryIsBounded(r, front);
      LoadKeepsBounds(AfterCalls(r, front), r, last.path, last.source, last.media);
    }
  }

  lemma SinceOneMore(r: Reading, calls: seq<Call>, key: Key, i: nat)
    requires calls != [] && InSince(r, calls[..|calls| - 1], key, i) && Held(AfterCalls(r, calls), key)
    ensures InSince(r, calls, key, i) && calls[i] == calls[..|calls| - 1][i]
  {
    var front := calls[..|calls| - 1];
    assert front[..i] == calls[..i] && calls[..|calls|] == calls;
    forall k | i < k <= |calls| ensures Held(AfterCalls(r, calls[..k]), key) {
      if k < |calls| {
        assert front[..k] == calls[..k];
      }
    }
  }

  /** What is held was put there by some call, and is what that call's bytes gave. */
  lemma {:induction false} HeldSince(r: Reading, calls: seq<Call>, key: Key) returns (i: nat)
    requires Sizes(r) && Held(AfterCalls(r, calls), key)
    ensures InSince(r, calls, key, i)
    ensures r.checked(calls[i].source.bytes, calls[i].media) == Loaded(HeldAs(AfterCalls(r, calls), key))
  {
    var front, last := calls[..|calls| - 1], calls[|calls| - 1];
    HistoryIsBounded(r, front);
    LoadKeepsDocument(AfterCalls(r, front), r, last, key);
    if Held(AfterCalls(r, front), key) {
      i := HeldSince(r, front, key);
      SinceOneMore(r, calls, key, i);
    } else {
      i := |front|;
      assert calls[..|calls|] == calls;
    }
  }

  lemma SinceOnce(r: Reading, calls: seq<Call>, key: Key, i: nat, j: nat)
    requires InSince(r, calls, key, i) && InSince(r, calls, key, j)
    ensures i == j
  {
  }

  /** The call that put the file there checked it to something else than this load would. */
  ghost predicate PutInAs(r: Reading, calls: seq<Call>, key: Key, i: nat, wanted: Outcome) {
    InSince(r, calls, key, i) && r.checked(calls[i].source.bytes, calls[i].media) != wanted
  }

  /**
    Over every history a load differs from one without the cache exactly when the file is
    there since a call whose reading of it gave something else.
  */
  lemma CachedDiffersExactly(r: Reading, calls: seq<Call>, path: Path, source: Source, media: MediaType)
    requires Sizes(r)
    ensures LoadResult(AfterCalls(r, calls), r, path, source, media) != Uncached(r, source, media)
       <==> && !Refused(source)
            && exists i :: PutInAs(r, calls, Key(path, r.digest(source.bytes)), i, r.checked(source.bytes, media))
  {
    if !Refused(source) {
      var key, wanted := Key(path, r.digest(source.bytes)), r.checked(source.bytes, media);
      if Held(AfterCalls(r, calls), key) {
        var i := HeldSince(r, calls, key);
        assert PutInAs(r, calls, key, i, wanted) <==> Loaded(HeldAs(AfterCalls(r, calls), key)) != wanted;
        forall j | InSince(r, calls, key, j) ensures j == i {
          SinceOnce(r, calls, key, i, j);
        }
      } else {
        assert calls[..|calls|] == calls;
        forall j ensures !InSince(r, calls, key, j) {
        }
      }
    }
  }

  /** Where the digest tells the two files apart, that call read the same file as another media type. */
  lemma OnlyAnotherTypeDiffers(r: Reading, calls: seq<Call>, path: Path, source: Source, media: MediaType, i: nat)
    requires !Refused(source)
    requires PutInAs(r, calls, Key(path, r.digest(source.bytes)), i, r.checked(source.bytes, media))
    requires ToldApart(r.digest, calls[i].source.bytes, source.bytes)
    ensures calls[i].path == path && calls[i].source == source && calls[i].media != media
  {
    assert calls[i].source.bytes == source.bytes;
  }

  /** The call read the same path, and the digest does not mistake its file for this one. */
  ghost predicate NotMistaken(r: Reading, c: Call, path: Path, source: Source) {
    c.path == path && !Refused(c.source) && !Refused(source) ==> ToldApart(r.digest, c.source.bytes, source.bytes)
  }

  /**
    Where each path is read as one media type, and no other file of this path has this one's
    digest, the cache gives what loading afresh would.
  */
  lemma CachedLoadIsUncached(r: Reading, calls: seq<Call>, mediaOf: Path -> MediaType, path: Path, source: Source)
    requires Sizes(r) && forall c :: c in calls ==> c.media == mediaOf(c.path) && NotMistaken(r, c, path, source)
    ensures LoadResult(AfterCalls(r, calls), r, path, source, mediaOf(path)) == Uncached(r, source, mediaOf(path))
  {
    CachedDiffersExactly(r, calls, path, source, mediaOf(path));
    if !Refused(source) {
      var key, wanted := Key(path, r.digest(source.bytes)), r.checked(source.bytes, mediaOf(path));
      forall i: nat ensures !PutInAs(r, calls, key, i, wanted) {
        if PutInAs(r, calls, key, i, wanted) {
          assert calls[i] in calls;
          OnlyAnotherTypeDiffers(r, calls, path, source, mediaOf(path), i);
        }
      }
    }
  }

  // ---------- the cache as the program keeps it ----------

  class Cache {
    const reading: Reading
    var slots: seq<Slot>
    var cachedBytes: int

    /** The byte counter is the sum of the sizes held. */
    ghost predicate Valid()
      reads this
    {
      Sizes(reading) && Bounded(slots) && cachedBytes == Total(slots)
    }

    constructor (reading: Reading)
      requires Sizes(reading)
      ensures Valid() && slots == [] && this.reading == reading
    {
      this.reading := reading;
      slots, cachedBytes := [], 0;
    }

    method Load(path: Path, source: Source, media: MediaType) returns (outcome: Outcome)
      requires Valid()
      modifies this
      ensures Valid()
      ensures slots == AfterLoad(old(slots), reading, path, source, media)
      ensures outcome == LoadResult(old(slots), reading, path, source, media)
    {
      LoadKeepsBounds(slots, reading, path, source, media);
      if source.NoFile? {
        return Unreadable;
      }
      if |source.bytes| > MAX_API_FILE_BYTES {
        return TooLarge;
      }
      var key := Key(path, reading.digest(source.bytes));
      var i := Position(slots, key);
      if i < |slots| {
        UsedKeepsTotal(slots, i);
        outcome := Loaded(slots[i].document);
        slots := Used(slots, i);
        return;
      }
      outcome := reading.checked(source.bytes, media);
      if outcome.Loaded? {
        Remember(key, outcome.document);
      }
    }

    /** A document another load has put there meanwhile stays, and where it was. */
    method Remember(key: Key, document: Document)
      requires cachedBytes == Total(slots)
      modifies this`slots, this`cachedBytes
      ensures cachedBytes == Total(slots)
      ensures slots == if Position(old(slots), key) < |old(slots)| then old(slots)
                       else Trimmed(old(slots) + [Slot(key, document)])
    {
      if Position(slots, key) < |slots| {
        return;
      }
      TotalOneMore(slots, Slot(key, document));
      slots := slots + [Slot(key, document)];
      cachedBytes := cachedBytes + document.size;
      while |slots| > 1 && (|slots| > CACHE_SIZE || cachedBytes > CACHE_BYTES)
        invariant cachedBytes == Total(slots)
        invariant Trimmed(slots) == Trimmed(old(slots) + [Slot(key, document)])
        decreases |slots|
      {
        cachedBytes := cachedBytes - slots[0].document.size;
        slots := slots[1..];
      }
    }

    method Forget()
      requires Valid()
      modifies this
      ensures Valid() && slots == []
    {
      slots, cachedBytes := [], 0;
    }
  }
}
