/**
  Sealing a package and refusing one that is not what it was sealed as
  (compiler/package_digest.py).
*/
module PackageDigest {
  import opened Sequences
  import opened Wrappers

  newtype Byte = x: int | 0 <= x < 256

  type Bytes = seq<Byte>

  // ---------- manifests ----------

  /** A loaded YAML document; a mapping keeps the order of its fields. */
  datatype Yaml =
    | Null
    | Flag(value: bool)
    | Number(zero: bool, printed: string)
    | Text(text: string)
    | List(items: seq<Yaml>)
    | Mapping(fields: seq<Field>)

  datatype Field = Field(key: Yaml, value: Yaml)

  const MANIFEST_ENTRY: string := "manifest.yaml"
  const ALGORITHM: string := "blake2b"
  const DIGEST_SIZE: nat := 32
  const PACKAGE: Yaml := Text("package")
  const CHECKSUM: Yaml := Text("checksum")

  /** What Python's `or` passes over. */
  predicate Falsy(y: Yaml) {
    match y
    case Null => true
    case Flag(b) => !b
    case Number(zero, _) => zero
    case Text(t) => t == ""
    case List(items) => items == []
    case Mapping(fields) => fields == []
  }

  function Get(fields: seq<Field>, key: Yaml): Option<Yaml> {
    if fields == [] then None
    else if fields[0].key == key then Some(fields[0].value)
    else Get(fields[1..], key)
  }

  /** `key` set to `value`, in its place if it has one and last otherwise. */
  function Put(fields: seq<Field>, key: Yaml, value: Yaml): seq<Field> {
    if fields == [] then [Field(key, value)]
    else if fields[0].key == key then [Field(key, value)] + fields[1..]
    else [fields[0]] + Put(fields[1..], key, value)
  }

  lemma {:induction false} PutSpec(fields: seq<Field>, key: Yaml, value: Yaml)
    ensures Get(Put(fields, key, value), key) == Some(value)
    ensures forall other :: other != key ==> Get(Put(fields, key, value), other) == Get(fields, other)
    ensures Put(fields, key, value) != []
  {
    if fields == [] || fields[0].key == key {
    } else {
      PutSpec(fields[1..], key, value);
      forall other | other != key
        ensures Get(Put(fields, key, value), other) == Get(fields, other)
      {
        assert Put(fields, key, value)[1..] == Put(fields[1..], key, value);
      }
    }
  }

  lemma {:induction false} PutTwice(fields: seq<Field>, key: Yaml, first: Yaml, second: Yaml)
    ensures Put(Put(fields, key, first), key, second) == Put(fields, key, second)
  {
    if fields == [] || fields[0].key == key {
    } else {
      assert Put(fields, key, first)[1..] == Put(fields[1..], key, first);
      PutTwice(fields[1..], key, first, second);
    }
  }

  lemma {:induction false} PutSame(fields: seq<Field>, key: Yaml, value: Yaml)
    requires Get(fields, key) == Some(value)
    ensures Put(fields, key, value) == fields
  {
    if fields[0].key == key {
      assert fields[0] == Field(key, value);
    } else {
      PutSame(fields[1..], key, value);
    }
  }

  /** The `package` section, empty where there is none; None where it is no mapping. */
  function Section(manifest: seq<Field>): Option<seq<Field>> {
    match Get(manifest, PACKAGE)
    case None => Some([])
    case Some(y) => if y.Mapping? then Some(y.fields) else None
  }

  /** The manifest with `checksum` recorded in its package section. */
  function Recording(manifest: seq<Field>, checksum: string): seq<Field>
    requires Section(manifest).Some?
  {
    Put(manifest, PACKAGE, Mapping(Put(Section(manifest).value, CHECKSUM, Text(checksum))))
  }

  /** What the manifest records; None where nothing is. */
  function Recorded(manifest: seq<Field>): Option<Yaml>
    requires Section(manifest).Some?
  {
    Get(Section(manifest).value, CHECKSUM)
  }

  /** Recording a checksum records it, and recording another forgets the first. */
  lemma RecordingSpec(manifest: seq<Field>, first: string, second: string)
    requires Section(manifest).Some?
    ensures var m := Recording(manifest, first);
            && Section(m).Some? && Recorded(m) == Some(Text(first)) && m != []
            && Recording(m, second) == Recording(manifest, second)
  {
    var section := Section(manifest).value;
    var changed := Put(section, CHECKSUM, Text(first));
    PutSpec(manifest, PACKAGE, Mapping(changed));
    PutSpec(section, CHECKSUM, Text(first));
    PutTwice(section, CHECKSUM, Text(first), Text(second));
    PutTwice(manifest, PACKAGE, Mapping(changed), Mapping(Put(changed, CHECKSUM, Text(second))));
  }

  lemma RecordingWhatIsRecorded(manifest: seq<Field>, checksum: string)
    requires Section(manifest).Some? && Recorded(manifest) == Some(Text(checksum))
    ensures Recording(manifest, checksum) == manifest
  {
    PutSame(Section(manifest).value, CHECKSUM, Text(checksum));
    PutSame(manifest, PACKAGE, Mapping(Section(manifest).value));
  }

  // ---------- the tools a digest is made with ----------

  /** YAML, UTF-8, `str` and BLAKE2b, which the package format takes from elsewhere. */
  datatype Tools = Tools(
    load: Bytes -> Option<Yaml>,
    dump: Yaml -> Bytes,
    str: Yaml -> string,
    encode: string -> Bytes,
    digest: Bytes -> Bytes
  )

  const HEX: string := "0123456789abcdef"

  function Hex(bytes: Bytes): string {
    if bytes == [] then ""
    else Hex(bytes[..|bytes| - 1]) + [HEX[bytes[|bytes| - 1] as int / 16], HEX[bytes[|bytes| - 1] as int % 16]]
  }

  lemma HexDigit(i: nat, j: nat)
    requires i < 16 && j < 16 && HEX[i] == HEX[j]
    ensures i == j
  {
  }

  /** The last byte is the last two digits. */
  lemma LastHex(bytes: Bytes)
    requires bytes != []
    ensures var n, x := |bytes| - 1, bytes[|bytes| - 1] as int;
            && |Hex(bytes)| == 2 * n + 2 && Hex(bytes)[..2 * n] == Hex(bytes[..n])
            && Hex(bytes)[2 * n] == HEX[x / 16] && Hex(bytes)[2 * n + 1] == HEX[x % 16]
  {
    HexLength(bytes[..|bytes| - 1]);
  }

  lemma SameLast(x: int, y: int)
    requires 0 <= x < 256 && 0 <= y < 256 && HEX[x / 16] == HEX[y / 16] && HEX[x % 16] == HEX[y % 16]
    ensures x == y
  {
    HexDigit(x / 16, y / 16);
    HexDigit(x % 16, y % 16);
  }

  /** Different digests are written differently. */
  lemma {:induction false} HexIsInjective(a: Bytes, b: Bytes)
    requires |a| == |b| && Hex(a) == Hex(b)
    ensures a == b
  {
    if a == [] {
    } else {
      var n := |a| - 1;
      LastHex(a);
      LastHex(b);
      SameLast(a[n] as int, b[n] as int);
      HexIsInjective(a[..n], b[..n]);
      Rejoined(a, n);
      Rejoined(b, n);
      assert a[n..] == [a[n]] && b[n..] == [b[n]];
    }
  }

  lemma {:induction false} HexLength(bytes: Bytes)
    ensures |Hex(bytes)| == 2 * |bytes|
  {
    if bytes == [] {
    } else {
      HexLength(bytes[..|bytes| - 1]);
    }
  }

  // ---------- names in order ----------

  predicate Before(a: string, b: string) {
    a == "" || (b != "" && (a[0] < b[0] || (a[0] == b[0] && Before(a[1..], b[1..]))))
  }

  lemma {:induction false} BeforeIsTotal(a: string, b: string)
    ensures Before(a, b) || Before(b, a)
    ensures Before(a, b) && Before(b, a) ==> a == b
  {
    if a == "" || b == "" || a[0] != b[0] {
    } else {
      BeforeIsTotal(a[1..], b[1..]);
      assert a == [a[0]] + a[1..] && b == [b[0]] + b[1..];
    }
  }

  lemma {:induction false} BeforeIsTransitive(a: string, b: string, c: string)
    requires Before(a, b) && Before(b, c)
    ensures Before(a, c)
  {
    if a == "" || a[0] != b[0] || b[0] != c[0] {
    } else {
      BeforeIsTransitive(a[1..], b[1..], c[1..]);
    }
  }

  ghost predicate IsFirst(first: string, names: set<string>) {
    first in names && forall n :: n in names ==> Before(first, n)
  }

  lemma {:induction false} SomeNameIsFirst(names: set<string>)
    requires names != {}
    ensures exists first :: IsFirst(first, names)
  {
    var one :| one in names;
    BeforeIsTotal(one, one);
    if names == {one} {
      assert IsFirst(one, names);
    } else {
      var others := names - {one};
      SomeNameIsFirst(others);
      var first :| IsFirst(first, others);
      BeforeIsTotal(one, first);
      if Before(one, first) {
        forall n | n in names ensures Before(one, n) {
          if n != one { BeforeIsTransitive(one, first, n); }
        }
        assert IsFirst(one, names);
      } else {
        assert IsFirst(first, names);
      }
    }
  }

  lemma OnlyOneIsFirst(a: string, b: string, names: set<string>)
    requires IsFirst(a, names) && IsFirst(b, names)
    ensures a == b
  {
    BeforeIsTotal(a, b);
  }

  ghost function Sorted(names: set<string>): seq<string> {
    if names == {} then []
    else
      SomeNameIsFirst(names);
      var first :| IsFirst(first, names);
      [first] + Sorted(names - {first})
  }

  lemma SortedStartsWith(first: string, names: set<string>)
    requires IsFirst(first, names)
    ensures Sorted(names) == [first] + Sorted(names - {first})
  {
    var chosen := Sorted(names)[0];
    assert IsFirst(chosen, names) by { SomeNameIsFirst(names); }
    OnlyOneIsFirst(first, chosen, names);
  }

  /** Sorting lists every name, and none twice. */
  lemma {:induction false} SortedSpec(names: set<string>)
    ensures forall n :: n in Sorted(names) <==> n in names
    ensures |Sorted(names)| == |names|
  {
    if names == {} {
    } else {
      SomeNameIsFirst(names);
      var first :| IsFirst(first, names);
      SortedStartsWith(first, names);
      SortedSpec(names - {first});
    }
  }

  /** They are listed in the order of their characters. */
  lemma {:induction false} SortedInOrder(names: set<string>, i: nat, j: nat)
    requires i < j < |Sorted(names)|
    ensures Before(Sorted(names)[i], Sorted(names)[j])
    decreases |names|
  {
    SomeNameIsFirst(names);
    var first :| IsFirst(first, names);
    var rest := Sorted(names - {first});
    SortedStartsWith(first, names);
    SortedSpec(names - {first});
    if i == 0 {
      assert Sorted(names)[j] == rest[j - 1] && rest[j - 1] in rest;
    } else {
      SortedInOrder(names - {first}, i - 1, j - 1);
    }
  }

  /** Sorting by taking the first name again and again. */
  method Sort(names: set<string>) returns (sorted: seq<string>)
    ensures sorted == Sorted(names)
  {
    sorted := [];
    var left := names;
    while left != {}
      invariant left <= names && Sorted(names) == sorted + Sorted(left)
      decreases |left|
    {
      var first := FirstOf(left);
      SortedStartsWith(first, left);
      assert Sorted(names) == (sorted + [first]) + Sorted(left - {first});
      sorted := sorted + [first];
      left := left - {first};
    }
  }

  method FirstOf(names: set<string>) returns (first: string)
    requires names != {}
    ensures IsFirst(first, names)
  {
    first :| first in names;
    BeforeIsTotal(first, first);
    var left := names - {first};
    while left != {}
      invariant left <= names && first in names && forall n :: n in names - left ==> Before(first, n)
      decreases |left|
    {
      var n :| n in left;
      BeforeIsTotal(first, n);
      BeforeIsTotal(n, n);
      if !Before(first, n) {
        forall other | other in names - left ensures Before(n, other) {
          BeforeIsTransitive(n, first, other);
        }
        first := n;
      }
      left := left - {n};
    }
  }

  // ---------- the digest ----------

  type Entries = map<string, Bytes>

  /** What is hashed for the entries in `names`: each name, then the digest of what it names. */
  function Stream(tools: Tools, entries: Entries, names: seq<string>): Bytes
    requires forall i :: 0 <= i < |names| ==> names[i] in entries
  {
    if names == [] then []
    else
      var last := names[|names| - 1];
      Stream(tools, entries, names[..|names| - 1]) + tools.encode(last) + tools.digest(entries[last])
  }

  /** The names a digest covers, in order: all but the manifest's own. */
  ghost function Covered(entries: Entries): (names: seq<string>)
    ensures forall i :: 0 <= i < |names| ==> names[i] in entries && names[i] != MANIFEST_ENTRY
  {
    var names := Sorted(entries.Keys - {MANIFEST_ENTRY});
    SortedSpec(entries.Keys - {MANIFEST_ENTRY});
    assert forall i :: 0 <= i < |names| ==> names[i] in names;
    names
  }

  ghost function Hashed(tools: Tools, entries: Entries, manifest: Bytes): Bytes {
    manifest + Stream(tools, entries, Covered(entries))
  }

  ghost function Checksum(tools: Tools, entries: Entries, manifest: Bytes): string {
    ALGORITHM + ":" + Hex(tools.digest(Hashed(tools, entries, manifest)))
  }

  /** `names` without the manifest's. */
  function Skipping(names: seq<string>): (left: seq<string>)
    ensures forall i :: 0 <= i < |left| ==> left[i] in names
  {
    if names == [] then []
    else if names[|names| - 1] == MANIFEST_ENTRY then Skipping(names[..|names| - 1])
    else Skipping(names[..|names| - 1]) + [names[|names| - 1]]
  }

  lemma {:induction false} SkippingJoined(a: seq<string>, b: seq<string>)
    ensures Skipping(a + b) == Skipping(a) + Skipping(b)
  {
    if b == [] {
      assert a + b == a;
    } else {
      assert (a + b)[..|a + b| - 1] == a + b[..|b| - 1];
      SkippingJoined(a, b[..|b| - 1]);
    }
  }

  /** Skipping the manifest while going through the sorted names is sorting the others. */
  lemma {:induction false} SkippingSorted(names: set<string>)
    ensures Skipping(Sorted(names)) == Sorted(names - {MANIFEST_ENTRY})
  {
    if names == {} {
    } else {
      SomeNameIsFirst(names);
      var first :| IsFirst(first, names);
      SortedStartsWith(first, names);
      SkippingJoined([first], Sorted(names - {first}));
      SkippingSorted(names - {first});
      if first == MANIFEST_ENTRY {
        assert names - {first} - {MANIFEST_ENTRY} == names - {MANIFEST_ENTRY};
        assert Skipping([first]) == [];
      } else {
        SortedStartsWith(first, names - {MANIFEST_ENTRY});
        assert names - {first} - {MANIFEST_ENTRY} == names - {MANIFEST_ENTRY} - {first};
        assert Skipping([first]) == [first];
      }
    }
  }

  ghost predicate AllIn(names: seq<string>, entries: Entries) {
    forall i :: 0 <= i < |names| ==> names[i] in entries
  }

  /** One more name: passed over, or hashed with what it names. */
  lemma OneMoreName(tools: Tools, entries: Entries, names: seq<string>, i: nat)
    requires AllIn(names, entries) && i < |names|
    ensures names[i] == MANIFEST_ENTRY ==> Skipping(names[..i + 1]) == Skipping(names[..i])
    ensures names[i] != MANIFEST_ENTRY ==>
              Stream(tools, entries, Skipping(names[..i + 1]))
              == Stream(tools, entries, Skipping(names[..i])) + tools.encode(names[i]) + tools.digest(entries[names[i]])
  {
    assert names[..i + 1][..i] == names[..i];
    var before := Skipping(names[..i]);
    assert (before + [names[i]])[..|before|] == before;
  }

  /** `hashed` is the manifest and what is hashed for the first `i` names. */
  ghost predicate HashedUpTo(tools: Tools, entries: Entries, manifest: Bytes, names: seq<string>, i: nat,
                             hashed: Bytes)
  {
    && i <= |names| && AllIn(names, entries) && AllIn(Skipping(names[..i]), entries)
    && hashed == manifest + Stream(tools, entries, Skipping(names[..i]))
  }

  lemma NothingHashed(tools: Tools, entries: Entries, manifest: Bytes, names: seq<string>)
    requires AllIn(names, entries)
    ensures HashedUpTo(tools, entries, manifest, names, 0, manifest)
  {
    assert Skipping(names[..0]) == [];
  }

  lemma HashedOneMore(tools: Tools, entries: Entries, manifest: Bytes, names: seq<string>, i: nat, hashed: Bytes)
    requires HashedUpTo(tools, entries, manifest, names, i, hashed) && i < |names|
    ensures var n := names[i];
            var more := if n == MANIFEST_ENTRY then hashed else hashed + tools.encode(n) + tools.digest(entries[n]);
            HashedUpTo(tools, entries, manifest, names, i + 1, more)
  {
    var before := Skipping(names[..i]);
    OneMoreName(tools, entries, names, i);
    SkippedOneMore(entries, names, i);
    Appended(manifest, Stream(tools, entries, before), tools.encode(names[i]), tools.digest(entries[names[i]]));
  }

  lemma SkippedOneMore(entries: Entries, names: seq<string>, i: nat)
    requires AllIn(names, entries) && i < |names|
    ensures AllIn(Skipping(names[..i + 1]), entries)
  {
    var left := Skipping(names[..i + 1]);
    forall k | 0 <= k < |left| ensures left[k] in entries {
      assert left[k] in names[..i + 1];
    }
  }

  lemma AllHashed(tools: Tools, entries: Entries, manifest: Bytes, hashed: Bytes)
    requires HashedUpTo(tools, entries, manifest, Sorted(entries.Keys), |Sorted(entries.Keys)|, hashed)
    ensures hashed == Hashed(tools, entries, manifest)
  {
    var names := Sorted(entries.Keys);
    assert names[..|names|] == names;
    SkippingSorted(entries.Keys);
  }

  method Compute(tools: Tools, entries: Entries, manifest: Bytes) returns (checksum: string)
    ensures checksum == Checksum(tools, entries, manifest)
  {
    var hashed := manifest;
    var names := Sort(entries.Keys);
    NamesAreIn(entries);
    NothingHashed(tools, entries, manifest, names);
    for i := 0 to |names|
      invariant HashedUpTo(tools, entries, manifest, names, i, hashed)
    {
      HashedOneMore(tools, entries, manifest, names, i, hashed);
      if names[i] == MANIFEST_ENTRY {
        continue;
      }
      hashed := hashed + tools.encode(names[i]);
      hashed := hashed + tools.digest(entries[names[i]]);
    }
    AllHashed(tools, entries, manifest, hashed);
    checksum := ALGORITHM + ":" + Hex(tools.digest(hashed));
  }

  lemma Appended(a: Bytes, b: Bytes, c: Bytes, d: Bytes)
    ensures a + b + c + d == a + (b + c + d)
  {
  }

  lemma NamesAreIn(entries: Entries)
    ensures AllIn(Sorted(entries.Keys), entries)
  {
    SortedSpec(entries.Keys);
    assert forall i :: 0 <= i < |Sorted(entries.Keys)| ==> Sorted(entries.Keys)[i] in Sorted(entries.Keys);
  }

  // ---------- sealing and verifying ----------

  datatype Problem =
    | NoManifest
    | NotAManifest
    | NoChecksum
    | Mismatch(expected: string, actual: string)

  datatype Result<+T> = Ok(value: T) | Failed(problem: Problem)

  /** The manifest as both sides read it; anything that is no mapping of mappings is refused. */
  function Manifest(tools: Tools, entries: Entries): (r: Result<seq<Field>>)
    ensures r.Ok? ==> Section(r.value).Some?
  {
    if MANIFEST_ENTRY !in entries then Failed(NoManifest)
    else
      match tools.load(entries[MANIFEST_ENTRY])
      case None => Failed(NotAManifest)
      case Some(y) =>
        if Falsy(y) then Ok([])
        else if y.Mapping? && Section(y.fields).Some? then Ok(y.fields)
        else Failed(NotAManifest)
  }

  /** What of a manifest is covered: all but the checksum. */
  function Blank(tools: Tools, manifest: seq<Field>): Bytes
    requires Section(manifest).Some?
  {
    tools.dump(Mapping(Recording(manifest, "")))
  }

  /**
    A manifest that was read loads back as it was dumped with a checksum recorded, a text
    shows as itself, and digests have one size.
  */
  ghost predicate Sound(tools: Tools) {
    && (forall entries, checksum :: Manifest(tools, entries).Ok? ==>
          LoadsBack(tools, Recording(Manifest(tools, entries).value, checksum)))
    && (forall text :: tools.str(Text(text)) == text)
    && (forall bytes :: |tools.digest(bytes)| == DIGEST_SIZE)
  }

  ghost predicate LoadsBack(tools: Tools, fields: seq<Field>) {
    tools.load(tools.dump(Mapping(fields))) == Some(Mapping(fields))
  }

  /** The checksum `entries` should record. */
  ghost function Due(tools: Tools, entries: Entries, manifest: seq<Field>): string
    requires Section(manifest).Some?
  {
    Checksum(tools, entries, Blank(tools, manifest))
  }

  ghost function Sealed(tools: Tools, entries: Entries): Result<Entries> {
    match Manifest(tools, entries)
    case Failed(problem) => Failed(problem)
    case Ok(manifest) =>
      var checksum := Due(tools, entries, manifest);
      Ok(entries[MANIFEST_ENTRY := tools.dump(Mapping(Recording(manifest, checksum)))])
  }

  method Seal(tools: Tools, entries: Entries) returns (r: Result<Entries>)
    ensures r == Sealed(tools, entries)
  {
    var read := Manifest(tools, entries);
    if read.Failed? {
      return Failed(read.problem);
    }
    var manifest := read.value;
    var checksum := Compute(tools, entries, Blank(tools, manifest));
    manifest := Recording(manifest, checksum);
    return Ok(entries[MANIFEST_ENTRY := tools.dump(Mapping(manifest))]);
  }

  /** What verifying reads as the recorded checksum. */
  function Expected(tools: Tools, manifest: seq<Field>): string
    requires Section(manifest).Some?
  {
    if Recorded(manifest).Some? then tools.str(Recorded(manifest).value) else ""
  }

  ghost predicate Verifies(tools: Tools, entries: Entries) {
    && Manifest(tools, entries).Ok?
    && Expected(tools, Manifest(tools, entries).value) == Due(tools, entries, Manifest(tools, entries).value)
  }

  method Verify(tools: Tools, entries: Entries) returns (r: Result<()>)
    ensures r.Ok? <==> Verifies(tools, entries)
    ensures r.Failed? && r.problem == NoManifest <==> MANIFEST_ENTRY !in entries
    ensures r.Failed? && r.problem == NotAManifest <==>
            Manifest(tools, entries).Failed? && MANIFEST_ENTRY in entries
    ensures r.Failed? && r.problem == NoChecksum <==>
            Manifest(tools, entries).Ok? && Expected(tools, Manifest(tools, entries).value) == ""
    ensures r.Failed? && r.problem.Mismatch? ==>
            && r.problem.expected == Expected(tools, Manifest(tools, entries).value) != ""
            && r.problem.actual == Due(tools, entries, Manifest(tools, entries).value) != r.problem.expected
  {
    var read := Manifest(tools, entries);
    if read.Failed? {
      return Failed(read.problem);
    }
    var expected := Expected(tools, read.value);
    if expected == "" {
      return Failed(NoChecksum);
    }
    var actual := Compute(tools, entries, Blank(tools, read.value));
    return if actual != expected then Failed(Mismatch(expected, actual)) else Ok(());
  }

  // ---------- a sealed package verifies ----------

  /** Replacing the manifest changes no name and no covered content, so no digest. */
  lemma {:induction false} ManifestIsNotCovered(tools: Tools, a: Entries, b: Entries, names: seq<string>)
    requires forall i :: 0 <= i < |names| ==> names[i] in a && names[i] in b && a[names[i]] == b[names[i]]
    ensures Stream(tools, a, names) == Stream(tools, b, names)
  {
    if names == [] {
    } else {
      ManifestIsNotCovered(tools, a, b, names[..|names| - 1]);
    }
  }

  /** What sealing writes is read back, and is due the checksum it records. */
  lemma SealedManifest(tools: Tools, entries: Entries)
    requires Sound(tools) && Sealed(tools, entries).Ok?
    ensures var manifest := Manifest(tools, entries).value;
            && Manifest(tools, Sealed(tools, entries).value) == Ok(Recording(manifest, Due(tools, entries, manifest)))
            && Due(tools, Sealed(tools, entries).value, Recording(manifest, Due(tools, entries, manifest)))
               == Due(tools, entries, manifest)
  {
    var manifest, s := Manifest(tools, entries).value, Sealed(tools, entries).value;
    var checksum := Due(tools, entries, manifest);
    RecordingSpec(manifest, checksum, "");
    assert s.Keys == entries.Keys;
    assert tools.load(s[MANIFEST_ENTRY]) == Some(Mapping(Recording(manifest, checksum)));
    ManifestIsNotCovered(tools, entries, s, Covered(entries));
  }

  /** Whatever the package, once sealed it verifies. */
  lemma SealedVerifies(tools: Tools, entries: Entries)
    requires Sound(tools) && Sealed(tools, entries).Ok?
    ensures Verifies(tools, Sealed(tools, entries).value)
  {
    SealedManifest(tools, entries);
    var manifest := Manifest(tools, entries).value;
    RecordingSpec(manifest, Due(tools, entries, manifest), "");
  }

  /** Sealing a sealed package changes nothing. */
  lemma SealedAgain(tools: Tools, entries: Entries)
    requires Sound(tools) && Sealed(tools, entries).Ok?
    ensures Sealed(tools, Sealed(tools, entries).value) == Sealed(tools, entries)
  {
    SealedManifest(tools, entries);
    var manifest, s := Manifest(tools, entries).value, Sealed(tools, entries).value;
    var checksum := Due(tools, entries, manifest);
    RecordingSpec(manifest, checksum, checksum);
    assert s[MANIFEST_ENTRY := s[MANIFEST_ENTRY]] == s;
  }

  /** Sealing changes no other entry, and nothing in the manifest but the checksum. */
  lemma OnlyTheChecksumChanges(tools: Tools, entries: Entries, other: string)
    requires Sound(tools) && Sealed(tools, entries).Ok?
    ensures var s := Sealed(tools, entries).value;
            && s.Keys == entries.Keys
            && (forall n :: n in entries && n != MANIFEST_ENTRY ==> s[n] == entries[n])
            && Manifest(tools, s).Ok?
            && Recording(Manifest(tools, s).value, other) == Recording(Manifest(tools, entries).value, other)
  {
    SealedManifest(tools, entries);
    var manifest := Manifest(tools, entries).value;
    RecordingSpec(manifest, Due(tools, entries, manifest), other);
  }

  /**
    A package verifies exactly when what it records reads as what sealing it would record;
    where that is a text, exactly when sealing would leave the manifest as it reads.
  */
  lemma VerifiesExactlyWhenSealed(tools: Tools, entries: Entries)
    requires Sound(tools) && Sealed(tools, entries).Ok?
    ensures var manifest, sealed := Manifest(tools, entries).value, Manifest(tools, Sealed(tools, entries).value);
            && sealed.Ok?
            && (Verifies(tools, entries) <==> Expected(tools, manifest) == Expected(tools, sealed.value))
            && (Recorded(manifest).Some? && Recorded(manifest).value.Text? ==>
                  (Verifies(tools, entries) <==> sealed == Manifest(tools, entries)))
  {
    SealedManifest(tools, entries);
    var manifest := Manifest(tools, entries).value;
    var checksum := Due(tools, entries, manifest);
    RecordingSpec(manifest, checksum, checksum);
    if Verifies(tools, entries) && Recorded(manifest).Some? && Recorded(manifest).value.Text? {
      RecordingWhatIsRecorded(manifest, checksum);
    }
  }
}
