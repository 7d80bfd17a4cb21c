/**
  What a sealed package's checksum refuses: changed contents, changed manifests, changed
  names, and where names can be mistaken for one another (compiler/package_digest.py).
*/
module PackageChanges {
  import opened Sequences
  import opened PackageDigest

  // ---------- what the checksum tells apart ----------

  /** Hashing tells `a` from `b`. */
  ghost predicate ToldApart(tools: Tools, a: Bytes, b: Bytes) {
    tools.digest(a) == tools.digest(b) ==> a == b
  }

  /** Two checksums are the same exactly when what was hashed is. */
  lemma ChecksumsTell(tools: Tools, x: Bytes, y: Bytes)
    requires Sound(tools) && ToldApart(tools, x, y)
    ensures ALGORITHM + ":" + Hex(tools.digest(x)) == ALGORITHM + ":" + Hex(tools.digest(y)) <==> x == y
  {
    var front := ALGORITHM + ":";
    if front + Hex(tools.digest(x)) == front + Hex(tools.digest(y)) {
      JoinedTail(front, Hex(tools.digest(x)));
      JoinedTail(front, Hex(tools.digest(y)));
      HexIsInjective(tools.digest(x), tools.digest(y));
    }
  }

  lemma JoinedTail<T>(a: seq<T>, b: seq<T>)
    ensures (a + b)[|a|..] == b
  {
  }

  /** Two packages have one checksum exactly when what is hashed for them is the same. */
  lemma ChecksumsEqualExactly(tools: Tools, a: Entries, b: Entries, manifest: Bytes)
    requires Sound(tools) && ToldApart(tools, Hashed(tools, a, manifest), Hashed(tools, b, manifest))
    ensures Checksum(tools, a, manifest) == Checksum(tools, b, manifest) <==>
            Stream(tools, a, Covered(a)) == Stream(tools, b, Covered(b))
  {
    ChecksumsTell(tools, Hashed(tools, a, manifest), Hashed(tools, b, manifest));
    JoinedTail(manifest, Stream(tools, a, Covered(a)));
    JoinedTail(manifest, Stream(tools, b, Covered(b)));
  }

  ghost predicate SameWidths(tools: Tools, a: seq<string>, b: seq<string>) {
    |a| == |b| && forall i :: 0 <= i < |a| ==> |tools.encode(a[i])| == |tools.encode(b[i])|
  }

  ghost predicate SameParts(tools: Tools, a: Entries, b: Entries, names: seq<string>, others: seq<string>)
    requires |names| == |others|
    requires forall i :: 0 <= i < |names| ==> names[i] in a && others[i] in b
  {
    forall i :: 0 <= i < |names| ==>
      tools.encode(names[i]) == tools.encode(others[i]) && tools.digest(a[names[i]]) == tools.digest(b[others[i]])
  }

  lemma {:induction false} StreamLength(tools: Tools, a: Entries, b: Entries, names: seq<string>, others: seq<string>)
    requires Sound(tools) && SameWidths(tools, names, others)
    requires forall i :: 0 <= i < |names| ==> names[i] in a && others[i] in b
    ensures |Stream(tools, a, names)| == |Stream(tools, b, others)|
  {
    if names == [] {
    } else {
      StreamLength(tools, a, b, names[..|names| - 1], others[..|names| - 1]);
    }
  }

  lemma ThreeParts(a: Bytes, b: Bytes, c: Bytes, x: Bytes, y: Bytes, z: Bytes)
    requires |a| == |x| && |b| == |y| && |c| == |z|
    ensures a + b + c == x + y + z <==> a == x && b == y && c == z
  {
    if a + b + c == x + y + z {
      assert a == (a + b + c)[..|a|] && x == (x + y + z)[..|a|];
      assert b == (a + b + c)[|a|..|a| + |b|] && y == (x + y + z)[|a|..|a| + |b|];
      assert c == (a + b + c)[|a| + |b|..] && z == (x + y + z)[|a| + |b|..];
    }
  }

  /** Where the names take the same room, what is hashed is the same exactly when every part is. */
  lemma {:induction false} StreamsEqualExactly(tools: Tools, a: Entries, b: Entries, names: seq<string>,
      others: seq<string>)
    requires Sound(tools) && SameWidths(tools, names, others)
    requires forall i :: 0 <= i < |names| ==> names[i] in a && others[i] in b
    ensures Stream(tools, a, names) == Stream(tools, b, others) <==> SameParts(tools, a, b, names, others)
  {
    if names == [] {
    } else {
      var n := |names| - 1;
      StreamsEqualExactly(tools, a, b, names[..n], others[..n]);
      StreamLength(tools, a, b, names[..n], others[..n]);
      ThreeParts(Stream(tools, a, names[..n]), tools.encode(names[n]), tools.digest(a[names[n]]),
                 Stream(tools, b, others[..n]), tools.encode(others[n]), tools.digest(b[others[n]]));
      assert SameParts(tools, a, b, names, others) <==>
        (&& SameParts(tools, a, b, names[..n], others[..n])
         && tools.encode(names[n]) == tools.encode(others[n])
         && tools.digest(a[names[n]]) == tools.digest(b[others[n]]));
    }
  }

  /** Hashing tells the entries of two packages apart, and all that is hashed for each. */
  ghost predicate AllToldApart(tools: Tools, a: Entries, b: Entries)
    requires Manifest(tools, a).Ok?
  {
    && (forall n :: n in a && n in b ==> ToldApart(tools, a[n], b[n]))
    && ToldApart(tools, Hashed(tools, a, Blank(tools, Manifest(tools, a).value)),
                 Hashed(tools, b, Blank(tools, Manifest(tools, a).value)))
  }

  /** Under the same names, what is hashed is the same exactly when every covered content is. */
  lemma SameNamesExactly(tools: Tools, a: Entries, b: Entries)
    requires Sound(tools) && a.Keys == b.Keys && forall n :: n in a ==> ToldApart(tools, a[n], b[n])
    ensures Stream(tools, a, Covered(a)) == Stream(tools, b, Covered(b)) <==>
            forall n :: n in a && n != MANIFEST_ENTRY ==> a[n] == b[n]
  {
    CoveredAreIn(a);
    StreamsEqualExactly(tools, a, b, Covered(a), Covered(a));
    if SameParts(tools, a, b, Covered(a), Covered(a)) {
      forall n | n in a && n != MANIFEST_ENTRY ensures a[n] == b[n] {
        var i :| 0 <= i < |Covered(a)| && Covered(a)[i] == n;
      }
    }
  }

  /**
    A package that verifies, changed under the same names and the same manifest, verifies
    exactly when no covered entry changed.
  */
  lemma ChangedContentsVerifyExactly(tools: Tools, a: Entries, b: Entries)
    requires Sound(tools) && Verifies(tools, a) && AllToldApart(tools, a, b)
    requires a.Keys == b.Keys && a[MANIFEST_ENTRY] == b[MANIFEST_ENTRY]
    ensures Verifies(tools, b) <==> a == b
  {
    var manifest := Manifest(tools, a).value;
    assert Manifest(tools, b) == Manifest(tools, a);
    ChecksumsEqualExactly(tools, a, b, Blank(tools, manifest));
    SameNamesExactly(tools, a, b);
    assert a == b <==> forall n :: n in a && n != MANIFEST_ENTRY ==> a[n] == b[n];
  }

  // ---------- another field of the manifest ----------

  /** What is dumped with a blank checksum is told apart exactly as what was loaded. */
  lemma BlanksTell(tools: Tools, a: Entries, b: Entries)
    requires Sound(tools) && Manifest(tools, a).Ok? && Manifest(tools, b).Ok?
    ensures Blank(tools, Manifest(tools, a).value) == Blank(tools, Manifest(tools, b).value) <==>
            Recording(Manifest(tools, a).value, "") == Recording(Manifest(tools, b).value, "")
  {
    assert LoadsBack(tools, Recording(Manifest(tools, a).value, ""));
    assert LoadsBack(tools, Recording(Manifest(tools, b).value, ""));
  }

  /**
    A package that verifies, its manifest exchanged for one that records the same checksum,
    verifies exactly when nothing in the manifest but the checksum is other than it was.
  */
  lemma ChangedManifestVerifiesExactly(tools: Tools, a: Entries, b: Entries)
    requires Sound(tools) && Verifies(tools, a) && Manifest(tools, b).Ok?
    requires a.Keys == b.Keys && forall n :: n in a && n != MANIFEST_ENTRY ==> a[n] == b[n]
    requires Expected(tools, Manifest(tools, b).value) == Expected(tools, Manifest(tools, a).value)
    requires ToldApart(tools, Hashed(tools, a, Blank(tools, Manifest(tools, a).value)),
                       Hashed(tools, b, Blank(tools, Manifest(tools, b).value)))
    ensures Verifies(tools, b) <==> Recording(Manifest(tools, b).value, "") == Recording(Manifest(tools, a).value, "")
  {
    var x, y := Blank(tools, Manifest(tools, a).value), Blank(tools, Manifest(tools, b).value);
    BlanksTell(tools, a, b);
    ManifestIsNotCovered(tools, a, b, Covered(a));
    assert Covered(a) == Covered(b);
    ChecksumsTell(tools, Hashed(tools, a, x), Hashed(tools, b, y));
    SameTail(x, y, Stream(tools, a, Covered(a)));
  }

  lemma SameTail(x: Bytes, y: Bytes, tail: Bytes)
    ensures x + tail == y + tail <==> x == y
  {
    if x + tail == y + tail {
      assert |x| == |y|;
      assert (x + tail)[..|x|] == x && (y + tail)[..|y|] == y;
    }
  }

  // ---------- names: what two packages can share ----------

  lemma CoveredAreIn(entries: Entries)
    ensures AllIn(Covered(entries), entries)
    ensures forall n :: n in Covered(entries) <==> n in entries && n != MANIFEST_ENTRY
  {
    SortedSpec(entries.Keys - {MANIFEST_ENTRY});
  }

  ghost predicate EndsWith(long: Bytes, short: Bytes) { |short| <= |long| && long[|long| - |short|..] == short }

  /** What is left of the end of `digest` behind it, with `front` after it. */
  ghost predicate Overlaps(later: Bytes, front: Bytes, earlier: Bytes) {
    |front| <= |earlier| && later == earlier[|front|..] + front
  }

  /**
    The name at `i` ends in the shorter name at `j` of the other list, and what it has in front
    of that takes in the digest before the other name: the whole digest, or, where there is no
    room for it, its end, the rest of it being the end of the digest before the name at `i`.
  */
  ghost predicate SwallowsAt(tools: Tools, a: Entries, b: Entries, names: seq<string>, others: seq<string>,
                             i: nat, j: nat)
    requires AllIn(names, a) && AllIn(others, b)
  {
    && i < |names| && 0 < j < |others|
    && var long, short := tools.encode(names[i]), tools.encode(others[j]);
       && |long| > |short| && EndsWith(long, short)
       && var front, digest := long[..|long| - |short|], tools.digest(b[others[j - 1]]);
          if |front| >= DIGEST_SIZE then EndsWith(front, digest)
          else i > 0 && Overlaps(digest, front, tools.digest(a[names[i - 1]]))
  }

  /** Some name of the first list takes in a digest and a name of the second. */
  ghost predicate Swallows(tools: Tools, a: Entries, b: Entries, names: seq<string>, others: seq<string>)
    requires AllIn(names, a) && AllIn(others, b)
  {
    exists i: nat, j: nat :: SwallowsAt(tools, a, b, names, others, i, j)
  }

  ghost predicate Swallowed(tools: Tools, a: Entries, b: Entries, names: seq<string>, others: seq<string>)
    requires AllIn(names, a) && AllIn(others, b)
  {
    Swallows(tools, a, b, names, others) || Swallows(tools, b, a, others, names)
  }

  /** In neither of two packages a name takes in a digest and a name of the other. */
  ghost predicate NoneSwallowed(tools: Tools, a: Entries, b: Entries) {
    CoveredAreIn(a);
    CoveredAreIn(b);
    !Swallowed(tools, a, b, Covered(a), Covered(b))
  }

  /** Shorter lists have no more of it. */
  lemma FewerSwallow(tools: Tools, a: Entries, b: Entries, names: seq<string>, others: seq<string>, n: nat, m: nat)
    requires AllIn(names, a) && AllIn(others, b) && n <= |names| && m <= |others|
    ensures Swallows(tools, a, b, names[..n], others[..m]) ==> Swallows(tools, a, b, names, others)
  {
    if i: nat, j: nat :| SwallowsAt(tools, a, b, names[..n], others[..m], i, j) {
      assert SwallowsAt(tools, a, b, names, others, i, j);
    }
  }

  lemma StreamEnds(tools: Tools, entries: Entries, names: seq<string>)
    requires Sound(tools) && AllIn(names, entries) && names != []
    ensures var n := |names| - 1;
            var stream := Stream(tools, entries, names);
            && |stream| >= DIGEST_SIZE
            && stream[|stream| - DIGEST_SIZE..] == tools.digest(entries[names[n]])
            && stream[..|stream| - DIGEST_SIZE] == Stream(tools, entries, names[..n]) + tools.encode(names[n])
  {
    var n := |names| - 1;
    var front, last := Stream(tools, entries, names[..n]) + tools.encode(names[n]), tools.digest(entries[names[n]]);
    assert (front + last)[|front|..] == last && (front + last)[..|front|] == front;
  }

  /** Two endings of one text: one of them ends in the other. */
  lemma OneEndsInTheOther(x: Bytes, y: Bytes, s: Bytes, t: Bytes)
    requires s + x == t + y
    ensures EndsWith(x, y) || EndsWith(y, x)
    ensures |x| > |y| ==> EndsWith(x, y) && t == s + x[..|x| - |y|]
    ensures |x| == |y| ==> x == y && s == t
  {
    var all := s + x;
    assert all[|all| - |x|..] == x && all[|all| - |y|..] == y;
    assert all[..|all| - |x|] == s && all[..|all| - |y|] == t;
    if |x| >= |y| {
      assert x[|x| - |y|..] == all[|all| - |y|..];
      assert t == all[..|s|] + all[|s|..|all| - |y|];
      assert all[|s|..|all| - |y|] == x[..|x| - |y|];
    } else {
      assert y[|y| - |x|..] == all[|all| - |x|..];
    }
  }

  /** A text that ends in `earlier`, and with `front` after it in `later`: the two overlap. */
  lemma EndsOverlap(s: Bytes, front: Bytes, t: Bytes, earlier: Bytes, later: Bytes)
    requires s + front == t && EndsWith(s, earlier) && EndsWith(t, later) && |earlier| == |later| && |front| < |later|
    ensures Overlaps(later, front, earlier)
  {
    var k := |t| - |later|;
    assert later == t[k..] && t[k..] == s[k..] + front;
    assert s[k..] == earlier[|front|..];
  }

  /** A text that ends in `later` still does from some place in `front` on, where that is long enough. */
  lemma FrontEnds(s: Bytes, front: Bytes, t: Bytes, later: Bytes)
    requires s + front == t && EndsWith(t, later) && |front| >= |later|
    ensures EndsWith(front, later)
  {
    assert t[|t| - |later|..] == front[|front| - |later|..];
  }

  lemma StreamEndsWith(tools: Tools, entries: Entries, names: seq<string>)
    requires Sound(tools) && AllIn(names, entries) && names != []
    ensures EndsWith(Stream(tools, entries, names), tools.digest(entries[names[|names| - 1]]))
    ensures |tools.digest(entries[names[|names| - 1]])| == DIGEST_SIZE
  {
    StreamEnds(tools, entries, names);
  }

  /** Last names of different widths: the longer one swallows. */
  lemma LongerNameSwallows(tools: Tools, a: Entries, b: Entries, names: seq<string>, others: seq<string>)
    requires Sound(tools) && AllIn(names, a) && AllIn(others, b) && names != [] && others != []
    requires Stream(tools, a, names) == Stream(tools, b, others)
    requires |tools.encode(names[|names| - 1])| > |tools.encode(others[|others| - 1])|
    ensures Swallows(tools, a, b, names, others)
  {
    var n, m := |names| - 1, |others| - 1;
    var x, y := tools.encode(names[n]), tools.encode(others[m]);
    var s, t := Stream(tools, a, names[..n]), Stream(tools, b, others[..m]);
    StreamEnds(tools, a, names);
    StreamEnds(tools, b, others);
    OneEndsInTheOther(x, y, s, t);
    var front := x[..|x| - |y|];
    assert others[..m] != [];
    StreamEndsWith(tools, b, others[..m]);
    var d := tools.digest(b[others[m - 1]]);
    if |front| >= DIGEST_SIZE {
      FrontEnds(s, front, t, d);
    } else {
      assert names[..n] != [];
      StreamEndsWith(tools, a, names[..n]);
      EndsOverlap(s, front, t, tools.digest(a[names[n - 1]]), d);
    }
    assert SwallowsAt(tools, a, b, names, others, n, m);
  }

  ghost predicate SameList(tools: Tools, a: Entries, b: Entries, names: seq<string>, others: seq<string>)
    requires AllIn(names, a) && AllIn(others, b)
  {
    |names| == |others| && SameParts(tools, a, b, names, others)
  }

  /** Equal streams end in the same name and digest, and are equal before them. */
  lemma EqualStreamsEndAlike(tools: Tools, a: Entries, b: Entries, names: seq<string>, others: seq<string>)
    requires Sound(tools) && AllIn(names, a) && AllIn(others, b) && names != [] && others != []
    requires !Swallowed(tools, a, b, names, others)
    requires Stream(tools, a, names) == Stream(tools, b, others)
    ensures tools.encode(names[|names| - 1]) == tools.encode(others[|others| - 1])
    ensures tools.digest(a[names[|names| - 1]]) == tools.digest(b[others[|others| - 1]])
    ensures Stream(tools, a, names[..|names| - 1]) == Stream(tools, b, others[..|others| - 1])
  {
    var n, m := |names| - 1, |others| - 1;
    var x, y := tools.encode(names[n]), tools.encode(others[m]);
    StreamEnds(tools, a, names);
    StreamEnds(tools, b, others);
    if |x| > |y| {
      LongerNameSwallows(tools, a, b, names, others);
    } else if |y| > |x| {
      LongerNameSwallows(tools, b, a, others, names);
    } else {
      OneEndsInTheOther(x, y, Stream(tools, a, names[..n]), Stream(tools, b, others[..m]));
    }
  }

  lemma OnlyNothingIsEmpty(tools: Tools, entries: Entries, names: seq<string>)
    requires Sound(tools) && AllIn(names, entries)
    ensures |Stream(tools, entries, names)| == 0 <==> names == []
  {
    if names != [] {
      StreamEnds(tools, entries, names);
    }
  }

  /** Where no name is swallowed, what is hashed is the same exactly when the lists are, part by part. */
  lemma StreamsEqualUnlessSwallowed(tools: Tools, a: Entries, b: Entries, names: seq<string>, others: seq<string>)
    requires Sound(tools) && AllIn(names, a) && AllIn(others, b)
    requires !Swallowed(tools, a, b, names, others)
    ensures Stream(tools, a, names) == Stream(tools, b, others) <==> SameList(tools, a, b, names, others)
  {
    if SameList(tools, a, b, names, others) {
      assert SameWidths(tools, names, others);
      StreamsEqualExactly(tools, a, b, names, others);
    }
    if Stream(tools, a, names) == Stream(tools, b, others) {
      SameStreamsSameLists(tools, a, b, names, others);
    }
  }

  lemma {:induction false} SameStreamsSameLists(tools: Tools, a: Entries, b: Entries, names: seq<string>,
      others: seq<string>)
    requires Sound(tools) && AllIn(names, a) && AllIn(others, b)
    requires !Swallowed(tools, a, b, names, others)
    requires Stream(tools, a, names) == Stream(tools, b, others)
    ensures SameList(tools, a, b, names, others)
    decreases |names|
  {
    OnlyNothingIsEmpty(tools, a, names);
    OnlyNothingIsEmpty(tools, b, others);
    if names == [] {
    } else {
      EqualStreamsEndAlike(tools, a, b, names, others);
      FewerSwallow(tools, a, b, names, others, |names| - 1, |others| - 1);
      FewerSwallow(tools, b, a, others, names, |others| - 1, |names| - 1);
      SameStreamsSameLists(tools, a, b, names[..|names| - 1], others[..|others| - 1]);
      SameListOneMore(tools, a, b, names, others);
    }
  }

  lemma SameListOneMore(tools: Tools, a: Entries, b: Entries, names: seq<string>, others: seq<string>)
    requires AllIn(names, a) && AllIn(others, b) && names != [] && others != []
    requires SameList(tools, a, b, names[..|names| - 1], others[..|others| - 1])
    requires tools.encode(names[|names| - 1]) == tools.encode(others[|others| - 1])
    requires tools.digest(a[names[|names| - 1]]) == tools.digest(b[others[|others| - 1]])
    ensures SameList(tools, a, b, names, others)
  {
  }

  /** Encoding tells the names apart. */
  ghost predicate NamesToldApart(tools: Tools, a: Entries, b: Entries) {
    forall n, m :: n in a && m in b && tools.encode(n) == tools.encode(m) ==> n == m
  }

  /**
    A package that verifies, changed in any way under the same manifest, names and number of
    entries included, verifies exactly when nothing changed, unless a name is swallowed.
  */
  lemma ChangedPackageVerifiesExactly(tools: Tools, a: Entries, b: Entries)
    requires Sound(tools) && Verifies(tools, a) && AllToldApart(tools, a, b) && NamesToldApart(tools, a, b)
    requires MANIFEST_ENTRY in b && a[MANIFEST_ENTRY] == b[MANIFEST_ENTRY]
    requires NoneSwallowed(tools, a, b)
    ensures Verifies(tools, b) <==> a == b
  {
    CoveredAreIn(a);
    CoveredAreIn(b);
    assert Manifest(tools, b) == Manifest(tools, a);
    ChecksumsEqualExactly(tools, a, b, Blank(tools, Manifest(tools, a).value));
    StreamsEqualUnlessSwallowed(tools, a, b, Covered(a), Covered(b));
    if SameList(tools, a, b, Covered(a), Covered(b)) {
      SameListIsSame(tools, a, b);
    }
  }

  lemma SameListIsSame(tools: Tools, a: Entries, b: Entries)
    requires AllIn(Covered(a), a) && AllIn(Covered(b), b) && SameList(tools, a, b, Covered(a), Covered(b))
    requires NamesToldApart(tools, a, b) && forall n :: n in a && n in b ==> ToldApart(tools, a[n], b[n])
    requires MANIFEST_ENTRY in a && MANIFEST_ENTRY in b && a[MANIFEST_ENTRY] == b[MANIFEST_ENTRY]
    ensures a == b
  {
    var names, others := Covered(a), Covered(b);
    CoveredAreIn(a);
    CoveredAreIn(b);
    forall i | 0 <= i < |names| ensures names[i] == others[i] && a[names[i]] == b[others[i]] {
      assert tools.encode(names[i]) == tools.encode(others[i]);
    }
    assert names == others;
    forall n | n in a ensures n in b && a[n] == b[n] {
      if n != MANIFEST_ENTRY {
        var i :| 0 <= i < |names| && names[i] == n;
      }
    }
    forall n | n in b ensures n in a {
      if n != MANIFEST_ENTRY {
        assert n in others;
      }
    }
  }

  // ---------- the room names take ----------

  /** How much is hashed for the entries named. */
  ghost function Room(tools: Tools, names: seq<string>): nat {
    if names == [] then 0 else |tools.encode(names[0])| + DIGEST_SIZE + Room(tools, names[1..])
  }

  lemma {:induction false} RoomJoined(tools: Tools, names: seq<string>, last: string)
    ensures Room(tools, names + [last]) == Room(tools, names) + |tools.encode(last)| + DIGEST_SIZE
  {
    if names == [] {
      assert names + [last] == [last] && [last][1..] == [];
    } else {
      assert (names + [last])[1..] == names[1..] + [last];
      RoomJoined(tools, names[1..], last);
    }
  }

  lemma {:induction false} StreamTakesRoom(tools: Tools, entries: Entries, names: seq<string>)
    requires Sound(tools) && AllIn(names, entries)
    ensures |Stream(tools, entries, names)| == Room(tools, names)
  {
    if names == [] {
    } else {
      var n := |names| - 1;
      StreamTakesRoom(tools, entries, names[..n]);
      RoomJoined(tools, names[..n], names[n]);
      TakeOneMore(names, n);
      assert names[..n + 1] == names && |tools.digest(entries[names[n]])| == DIGEST_SIZE;
    }
  }

  /** A name more takes its own room, wherever it comes in the order. */
  lemma {:induction false} RoomOfOneMore(tools: Tools, names: set<string>, x: string)
    requires x in names
    ensures Room(tools, Sorted(names)) == Room(tools, Sorted(names - {x})) + |tools.encode(x)| + DIGEST_SIZE
    decreases |names|
  {
    SomeNameIsFirst(names);
    var first :| IsFirst(first, names);
    SortedStartsWith(first, names);
    RoomStarts(tools, first, Sorted(names - {first}));
    if first != x {
      RoomOfOneMore(tools, names - {first}, x);
      SortedStartsWith(first, names - {x});
      assert names - {first} - {x} == names - {x} - {first};
      RoomStarts(tools, first, Sorted(names - {x} - {first}));
    }
  }

  lemma RoomStarts(tools: Tools, first: string, rest: seq<string>)
    ensures Room(tools, [first] + rest) == |tools.encode(first)| + DIGEST_SIZE + Room(tools, rest)
  {
    assert ([first] + rest)[1..] == rest;
  }

  // ---------- renaming ----------

  /** `b` is `a` with the entry `x` under the name `y`. */
  ghost predicate IsRenamed(a: Entries, b: Entries, x: string, y: string) {
    && x in a && y !in a && x != MANIFEST_ENTRY && y != MANIFEST_ENTRY && MANIFEST_ENTRY in a
    && b.Keys == a.Keys - {x} + {y} && b[y] == a[x]
    && forall n :: n in a && n != x ==> b[n] == a[n]
  }

  lemma RenamedRoom(tools: Tools, a: Entries, b: Entries, x: string, y: string)
    requires IsRenamed(a, b, x, y)
    ensures Room(tools, Covered(b)) == Room(tools, Covered(a)) - |tools.encode(x)| + |tools.encode(y)|
  {
    var before, after := a.Keys - {MANIFEST_ENTRY}, b.Keys - {MANIFEST_ENTRY};
    RoomOfOneMore(tools, before, x);
    RoomOfOneMore(tools, after, y);
    assert before - {x} == after - {y};
  }

  /**
    A renamed entry is refused where the new name is longer or shorter than the old one,
    wherever it comes in the order then; where it keeps its place; and where no name is
    swallowed.
  */
  lemma RenamedEntryIsRefused(tools: Tools, a: Entries, b: Entries, x: string, y: string)
    requires Sound(tools) && Verifies(tools, a) && AllToldApart(tools, a, b) && NamesToldApart(tools, a, b)
    requires IsRenamed(a, b, x, y)
    requires || |tools.encode(x)| != |tools.encode(y)|
             || SameWidths(tools, Covered(a), Covered(b))
             || NoneSwallowed(tools, a, b)
    ensures !Verifies(tools, b)
  {
    CoveredAreIn(a);
    CoveredAreIn(b);
    ChecksumsEqualExactly(tools, a, b, Blank(tools, Manifest(tools, a).value));
    assert Manifest(tools, b) == Manifest(tools, a);
    if |tools.encode(x)| != |tools.encode(y)| {
      RenamedRoom(tools, a, b, x, y);
      StreamTakesRoom(tools, a, Covered(a));
      StreamTakesRoom(tools, b, Covered(b));
    } else if SameWidths(tools, Covered(a), Covered(b)) {
      StreamsEqualExactly(tools, a, b, Covered(a), Covered(b));
      if SameParts(tools, a, b, Covered(a), Covered(b)) {
        SameListIsSame(tools, a, b);
      }
      assert x in a && x !in b;
    } else {
      ChangedPackageVerifiesExactly(tools, a, b);
      assert x !in b;
    }
  }

  // ---------- where names can be mistaken ----------

  /**
    A name that reads like another name, a digest and a third name: two entries and one have
    the same checksum, so that a package verifies with the one for the two.
  */
  lemma LongNameReadsAsTwo(tools: Tools, a: Entries, b: Entries, x: string, y: string, n: string)
    requires x in a && y in a && n in b && Covered(a) == [x, y] && Covered(b) == [n] && b[n] == a[y]
    requires tools.encode(n) == tools.encode(x) + tools.digest(a[x]) + tools.encode(y)
    requires MANIFEST_ENTRY in a && MANIFEST_ENTRY in b && a[MANIFEST_ENTRY] == b[MANIFEST_ENTRY]
    ensures Stream(tools, a, Covered(a)) == Stream(tools, b, Covered(b))
    ensures Verifies(tools, a) <==> Verifies(tools, b)
  {
    TwoParts(tools, a, x, y);
    OnePart(tools, b, n);
    assert Manifest(tools, b) == Manifest(tools, a);
  }

  /**
    Two digests that overlap but for a few bytes, one name longer by these and the name before
    it shorter by as many: two pairs of entries have the same checksum.
  */
  lemma OverlappingDigestsReadAlike(tools: Tools, a: Entries, b: Entries, q: string, n: string, p: string, m: string)
    requires Sound(tools) && q in a && n in a && p in b && m in b
    requires Covered(a) == [q, n] && Covered(b) == [p, m] && a[n] == b[m]
    requires |tools.encode(n)| >= |tools.encode(m)| && EndsWith(tools.encode(n), tools.encode(m))
    requires var front := tools.encode(n)[..|tools.encode(n)| - |tools.encode(m)|];
             && Overlaps(tools.digest(b[p]), front, tools.digest(a[q]))
             && tools.encode(p) == tools.encode(q) + tools.digest(a[q])[..|front|]
    requires MANIFEST_ENTRY in a && MANIFEST_ENTRY in b && a[MANIFEST_ENTRY] == b[MANIFEST_ENTRY]
    ensures Stream(tools, a, Covered(a)) == Stream(tools, b, Covered(b))
    ensures Verifies(tools, a) <==> Verifies(tools, b)
  {
    var x, y, e := tools.encode(n), tools.encode(m), tools.digest(a[q]);
    var front := x[..|x| - |y|];
    TwoParts(tools, a, q, n);
    TwoParts(tools, b, p, m);
    assert e == e[..|front|] + e[|front|..] && x == front + y;
    assert tools.encode(q) + e + x == tools.encode(p) + tools.digest(b[p]) + y;
    assert Manifest(tools, b) == Manifest(tools, a);
  }

  lemma OnePart(tools: Tools, entries: Entries, n: string)
    requires n in entries
    ensures Stream(tools, entries, [n]) == tools.encode(n) + tools.digest(entries[n])
  {
    assert [n][..0] == [];
  }

  lemma TwoParts(tools: Tools, entries: Entries, x: string, y: string)
    requires x in entries && y in entries
    ensures Stream(tools, entries, [x, y])
         == tools.encode(x) + tools.digest(entries[x]) + tools.encode(y) + tools.digest(entries[y])
  {
    assert [x, y][..1] == [x];
    OnePart(tools, entries, x);
  }
}
