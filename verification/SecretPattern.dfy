/**
  From secrets to the one pattern that finds them all (logging/_secret_pattern.py).

  A pattern is an ordered-choice expression of the four shapes the program writes:
  literals, concatenation, alternation and the greedy optional group. `Ends` gives every
  length at which a pattern matches at the front of a text, in the order a backtracking
  engine tries them; what the engine reports is the first one.
*/
module SecretPattern {
  import opened Sequences
  import opened Wrappers

  datatype Regex =
    | Literal(text: string)
    | Then(first: Regex, second: Regex)
    | Or(left: Regex, right: Regex)
    | Maybe(body: Regex)

  function Shift(ends: seq<nat>, offset: nat): (shifted: seq<nat>)
    ensures |shifted| == |ends|
  {
    seq(|ends|, i requires 0 <= i < |ends| => ends[i] + offset)
  }

  /** All match lengths at the front of `s`, in the order they are tried. */
  function Ends(r: Regex, s: string): (ends: seq<nat>)
    ensures forall i :: 0 <= i < |ends| ==> ends[i] <= |s|
    decreases r, 0
  {
    match r
    case Literal(text) => if text <= s then [|text|] else []
    case Then(first, second) => EndsAfter(Ends(first, s), second, s)
    case Or(left, right) => Ends(left, s) + Ends(right, s)
    case Maybe(body) => Ends(body, s) + [0]
  }

  function EndsAfter(starts: seq<nat>, r: Regex, s: string): (ends: seq<nat>)
    requires forall i :: 0 <= i < |starts| ==> starts[i] <= |s|
    ensures forall i :: 0 <= i < |ends| ==> ends[i] <= |s|
    decreases r, 1, |starts|
  {
    if starts == [] then []
    else Shift(Ends(r, s[starts[0]..]), starts[0]) + EndsAfter(starts[1..], r, s)
  }

  /** What the engine reports at the front of `s`: its first alternative. */
  function MatchAt(r: Regex, s: string): Option<nat> {
    var ends := Ends(r, s);
    if ends == [] then None else Some(ends[0])
  }

  /** The lengths up to `n` at which `s` starts with a secret, the longest first. */
  ghost function SecretLengths(secrets: set<string>, s: string, n: nat): seq<nat>
    requires n <= |s|
  {
    (if s[..n] in secrets then [n] else []) + (if n == 0 then [] else SecretLengths(secrets, s, n - 1))
  }

  /** `r` tries, at every position, exactly the secrets found there, the longest first. */
  ghost predicate Recognises(r: Regex, secrets: set<string>) {
    forall s :: RecognisesAt(r, secrets, s)
  }

  ghost predicate RecognisesAt(r: Regex, secrets: set<string>, s: string) {
    Ends(r, s) == SecretLengths(secrets, s, |s|)
  }

  // ---------- the trie ----------

  datatype Trie = Node(ends: bool, kids: Kids)
  /** The children in the order they were added. */
  datatype Kids = NoKids | Kid(c: char, child: Trie, rest: Kids)

  const EMPTY: Trie := Node(false, NoKids)

  predicate Has(t: Trie, w: string)
    decreases |w|, 1, t
  {
    if w == "" then t.ends else KidHas(t.kids, w)
  }

  predicate KidHas(k: Kids, w: string)
    requires w != ""
    decreases |w|, 0, k
  {
    k.Kid? && if k.c == w[0] then Has(k.child, w[1..]) else KidHas(k.rest, w)
  }

  function Insert(t: Trie, w: string): Trie
    decreases |w|, 1, t
  {
    if w == "" then t.(ends := true) else t.(kids := InsertKid(t.kids, w))
  }

  function InsertKid(k: Kids, w: string): Kids
    requires w != ""
    decreases |w|, 0, k
  {
    match k
    case NoKids => Kid(w[0], Insert(EMPTY, w[1..]), NoKids)
    case Kid(c, child, rest) =>
      if c == w[0] then Kid(c, Insert(child, w[1..]), rest)
      else Kid(c, child, InsertKid(rest, w))
  }

  predicate HasChar(k: Kids, c: char) {
    k.Kid? && (k.c == c || HasChar(k.rest, c))
  }

  /** Children start with distinct characters and none is a dead end. */
  predicate Tidy(t: Trie) { TidyKids(t.kids) }

  predicate TidyKids(k: Kids) {
    k.Kid? ==>
      && !HasChar(k.rest, k.c)
      && (k.child.ends || k.child.kids.Kid?)
      && Tidy(k.child)
      && TidyKids(k.rest)
  }

  lemma {:induction false} InsertAdds(t: Trie, w: string, v: string)
    ensures Has(Insert(t, w), v) <==> Has(t, v) || v == w
    decreases |w|, 1, t
  {
    if w != "" && v != "" {
      InsertKidAdds(t.kids, w, v);
    }
  }

  lemma {:induction false} InsertKidAdds(k: Kids, w: string, v: string)
    requires w != "" && v != ""
    ensures KidHas(InsertKid(k, w), v) <==> KidHas(k, v) || v == w
    decreases |w|, 0, k
  {
    assert v == w <==> v[0] == w[0] && v[1..] == w[1..] by {
      assert v == [v[0]] + v[1..] && w == [w[0]] + w[1..];
    }
    match k
    case NoKids =>
      InsertAdds(EMPTY, w[1..], v[1..]);
      assert !Has(EMPTY, v[1..]);
    case Kid(c, child, rest) =>
      if c == w[0] {
        InsertAdds(child, w[1..], v[1..]);
      } else {
        InsertKidAdds(rest, w, v);
      }
  }

  lemma {:induction false} InsertKeepsTidy(t: Trie, w: string)
    requires Tidy(t)
    ensures Tidy(Insert(t, w)) && (Insert(t, w).ends || Insert(t, w).kids.Kid?)
    decreases |w|, 1, t
  {
    if w != "" {
      InsertKidKeepsTidy(t.kids, w);
    }
  }

  lemma {:induction false} InsertKidKeepsTidy(k: Kids, w: string)
    requires w != "" && TidyKids(k)
    ensures TidyKids(InsertKid(k, w))
    ensures forall c :: HasChar(InsertKid(k, w), c) <==> HasChar(k, c) || c == w[0]
    decreases |w|, 0, k
  {
    match k
    case NoKids =>
      InsertKeepsTidy(EMPTY, w[1..]);
    case Kid(c, child, rest) =>
      if c == w[0] {
        InsertKeepsTidy(child, w[1..]);
      } else {
        InsertKidKeepsTidy(rest, w);
      }
  }

  // ---------- what a trie node has to match ----------

  /** The lengths up to `n` at which `s` starts with a word of `t`, the longest first. */
  ghost function WordLengths(t: Trie, s: string, n: nat): seq<nat>
    requires n <= |s|
  {
    (if Has(t, s[..n]) then [n] else []) + (if n == 0 then [] else WordLengths(t, s, n - 1))
  }

  ghost function Words(t: Trie, s: string): seq<nat> { WordLengths(t, s, |s|) }

  /** The words that go through the children of a node. */
  ghost function KidWords(k: Kids, s: string): seq<nat> {
    if s == "" || k.NoKids? then []
    else if k.c == s[0] then Shift(Words(k.child, s[1..]), 1)
    else KidWords(k.rest, s)
  }

  lemma {:induction false} WordsSplit(t: Trie, s: string)
    ensures Words(t, s) == KidWords(t.kids, s) + (if t.ends then [0] else [])
  {
    if s != "" {
      WordsThroughKids(t, s, |s|);
    }
  }

  ghost function KidFor(k: Kids, c: char): Option<Trie> {
    if k.NoKids? then None else if k.c == c then Some(k.child) else KidFor(k.rest, c)
  }

  lemma {:induction false} KidForFinds(k: Kids, w: string)
    requires w != ""
    ensures KidHas(k, w) <==> KidFor(k, w[0]).Some? && Has(KidFor(k, w[0]).value, w[1..])
    ensures KidWords(k, w) == if KidFor(k, w[0]).Some? then Shift(Words(KidFor(k, w[0]).value, w[1..]), 1) else []
  {
    if k.Kid? && k.c != w[0] {
      KidForFinds(k.rest, w);
    }
  }

  lemma {:induction false} WordsThroughKids(t: Trie, s: string, n: nat)
    requires s != "" && n <= |s|
    ensures WordLengths(t, s, n) == ThroughKids(KidFor(t.kids, s[0]), s, n) + (if t.ends then [0] else [])
    ensures KidWords(t.kids, s) == ThroughKids(KidFor(t.kids, s[0]), s, |s|)
  {
    KidForFinds(t.kids, s);
    var kid := KidFor(t.kids, s[0]);
    if n == 0 {
    } else {
      WordsThroughKids(t, s, n - 1);
      KidForFinds(t.kids, s[..n]);
      assert s[..n][1..] == s[1..][..n - 1];
      assert Has(t, s[..n]) <==> kid.Some? && Has(kid.value, s[1..][..n - 1]);
      OneMoreThroughKids(kid, s, n);
    }
  }

  ghost function ThroughKids(kid: Option<Trie>, s: string, n: nat): seq<nat>
    requires s != "" && n <= |s|
  {
    if n == 0 || kid.None? then [] else Shift(WordLengths(kid.value, s[1..], n - 1), 1)
  }

  lemma OneMoreThroughKids(kid: Option<Trie>, s: string, n: nat)
    requires s != "" && 0 < n <= |s|
    ensures ThroughKids(kid, s, n)
         == (if kid.Some? && Has(kid.value, s[1..][..n - 1]) then [n] else []) + ThroughKids(kid, s, n - 1)
  {
    if kid.Some? {
      var rest := if n == 1 then [] else WordLengths(kid.value, s[1..], n - 2);
      ShiftOneMore(n - 1, rest);
      assert Shift([], 1) == [] && [] + rest == rest;
    }
  }

  lemma ShiftOneMore(n: nat, rest: seq<nat>)
    ensures Shift([n] + rest, 1) == [n + 1] + Shift(rest, 1)
  {
  }

  lemma {:induction false} StrangersMatchNothing(k: Kids, s: string)
    requires s != "" && !HasChar(k, s[0])
    ensures KidWords(k, s) == []
  {
    if k.NoKids? {
    } else {
      StrangersMatchNothing(k.rest, s);
    }
  }

  // ---------- path compression ----------

  /** The text of the single-child chain below `t`, and the trie the chain leads to. */
  function Skip(t: Trie): (string, Trie)
    decreases t
  {
    if !t.ends && t.kids.Kid? && t.kids.rest.NoKids? then
      var (text, last) := Skip(t.kids.child);
      ([t.kids.c] + text, last)
    else ("", t)
  }

  lemma {:induction false} SkipKeepsWords(t: Trie, s: string)
    ensures Words(t, s)
         == var (text, last) := Skip(t);
            if text <= s then Shift(Words(last, s[|text|..]), |text|) else []
    decreases t
  {
    var (text, last) := Skip(t);
    if text == "" {
      assert s[0..] == s && Shift(Words(last, s), 0) == Words(last, s);
    } else {
      WordsSplit(t, s);
      var rest := text[1..];
      assert Skip(t.kids.child) == (rest, last);
      if s != "" && s[0] == text[0] {
        SkipKeepsWords(t.kids.child, s[1..]);
        PrefixStep(text, s);
      }
    }
  }

  lemma PrefixStep(text: string, s: string)
    requires text != "" && s != "" && s[0] == text[0]
    ensures text <= s <==> text[1..] <= s[1..]
    ensures text <= s ==> s[1..][|text[1..]|..] == s[|text|..]
  {
    assert s == [s[0]] + s[1..] && text == [text[0]] + text[1..];
  }

  /** How deep the groups of the pattern for `t` nest. */
  ghost function Nesting(t: Trie): nat
    decreases t
  {
    KidsNesting(t.kids)
  }

  ghost function KidsNesting(k: Kids): nat
    decreases k
  {
    if k.NoKids? then 0
    else
      SkipGoesDown(k.child);
      var below := 1 + Nesting(Skip(k.child).1);
      if below > KidsNesting(k.rest) then below else KidsNesting(k.rest)
  }

  lemma {:induction false} SkipGoesDown(t: Trie)
    ensures Skip(t).1 == t || (Skip(t).1 < t)
    ensures Tidy(t) && (t.ends || t.kids.Kid?) ==> Tidy(Skip(t).1) && (Skip(t).1.ends || Skip(t).1.kids.Kid?)
    decreases t
  {
    if !t.ends && t.kids.Kid? && t.kids.rest.NoKids? {
      assert Tidy(t) ==> TidyKids(t.kids) && Tidy(t.kids.child);
      SkipGoesDown(t.kids.child);
    }
  }

  // ---------- compiling ----------

  /** Deeper than this the trie pattern is given up for the plain alternation. */
  const MAX_NESTING: nat := 200

  function Alternation(parts: seq<Regex>): Regex
    requires parts != []
  {
    if |parts| == 1 then parts[0] else Or(parts[0], Alternation(parts[1..]))
  }

  ghost function EndsOfAll(parts: seq<Regex>, s: string): seq<nat> {
    if parts == [] then [] else Ends(parts[0], s) + EndsOfAll(parts[1..], s)
  }

  lemma {:induction false} AlternationEnds(parts: seq<Regex>, s: string)
    requires parts != []
    ensures Ends(Alternation(parts), s) == EndsOfAll(parts, s)
  {
    if |parts| == 1 {
    } else {
      AlternationEnds(parts[1..], s);
    }
  }

  lemma {:induction false} EndsOfOneMore(parts: seq<Regex>, last: Regex, s: string)
    ensures EndsOfAll(parts + [last], s) == EndsOfAll(parts, s) + Ends(last, s)
  {
    if parts == [] {
    } else {
      assert (parts + [last])[1..] == parts[1..] + [last];
      EndsOfOneMore(parts[1..], last, s);
    }
  }

  /** `r` tries exactly the words of `t` at every text, the longest first. */
  ghost predicate Matches(r: Regex, t: Trie) { forall s :: MatchesAt(r, t, s) }

  ghost predicate MatchesAt(r: Regex, t: Trie, s: string) { Ends(r, s) == Words(t, s) }

  /** `parts` match the children of `node` that come before `k`. */
  ghost predicate PartsCover(parts: seq<Regex>, node: Trie, k: Kids) { forall s :: PartsCoverAt(parts, node, k, s) }

  ghost predicate PartsCoverAt(parts: seq<Regex>, node: Trie, k: Kids, s: string) {
    KidWords(node.kids, s) == EndsOfAll(parts, s) + KidWords(k, s)
  }

  lemma LiteralThen(text: string, r: Regex, s: string)
    ensures Ends(Then(Literal(text), r), s) == if text <= s then Shift(Ends(r, s[|text|..]), |text|) else []
  {
    if text <= s {
      var starts: seq<nat> := [|text|];
      assert Ends(Literal(text), s) == starts && starts[1..] == [];
      assert EndsAfter(starts, r, s) == Shift(Ends(r, s[|text|..]), |text|) + EndsAfter([], r, s);
    }
  }

  /** One child of a node: the compressed text, then the pattern of where it leads. */
  lemma PartEnds(k: Kids, below: Regex, s: string)
    requires k.Kid? && TidyKids(k) && Matches(below, Skip(k.child).1)
    ensures KidWords(k, s) == Ends(Then(Literal([k.c] + Skip(k.child).0), below), s) + KidWords(k.rest, s)
  {
    var (tail, last) := Skip(k.child);
    LiteralThen([k.c] + tail, below, s);
    assert [k.c] + tail <= s ==> MatchesAt(below, last, s[|tail| + 1..]);
    if s != "" && s[0] == k.c {
      StrangersMatchNothing(k.rest, s);
      CompressedKid(k.child, tail, last, s);
    } else {
      assert !([k.c] + tail <= s);
    }
  }

  lemma CompressedKid(child: Trie, tail: string, last: Trie, s: string)
    requires s != "" && Skip(child) == (tail, last)
    ensures Shift(Words(child, s[1..]), 1)
         == if [s[0]] + tail <= s then Shift(Words(last, s[|tail| + 1..]), |tail| + 1) else []
  {
    SkipKeepsWords(child, s[1..]);
    assert [s[0]] + tail <= s <==> tail <= s[1..] by {
      assert s == [s[0]] + s[1..];
    }
    if tail <= s[1..] {
      assert s[1..][|tail|..] == s[|tail| + 1..];
    }
  }

  lemma CoverOneMore(parts: seq<Regex>, node: Trie, k: Kids, below: Regex)
    requires k.Kid? && TidyKids(k) && PartsCover(parts, node, k) && Matches(below, Skip(k.child).1)
    ensures PartsCover(parts + [Then(Literal([k.c] + Skip(k.child).0), below)], node, k.rest)
  {
    var part := Then(Literal([k.c] + Skip(k.child).0), below);
    forall s ensures PartsCoverAt(parts + [part], node, k.rest, s) {
      assert PartsCoverAt(parts, node, k, s);
      PartEnds(k, below, s);
      EndsOfOneMore(parts, part, s);
      Associates(EndsOfAll(parts, s), Ends(part, s), KidWords(k.rest, s));
    }
  }

  lemma BodyMatches(parts: seq<Regex>, node: Trie)
    requires PartsCover(parts, node, NoKids)
    ensures parts != [] && node.ends ==> Matches(Maybe(Alternation(parts)), node)
    ensures parts != [] && !node.ends ==> Matches(Alternation(parts), node)
    ensures parts == [] && node.ends ==> Matches(Literal(""), node)
  {
    forall s
      ensures parts != [] && node.ends ==> MatchesAt(Maybe(Alternation(parts)), node, s)
      ensures parts != [] && !node.ends ==> MatchesAt(Alternation(parts), node, s)
      ensures parts == [] && node.ends ==> MatchesAt(Literal(""), node, s)
    {
      assert PartsCoverAt(parts, node, NoKids, s);
      WordsSplit(node, s);
      if parts != [] {
        AlternationEnds(parts, s);
      }
    }
  }

  lemma NothingCovered(node: Trie)
    ensures PartsCover([], node, node.kids)
  {
    forall s ensures PartsCoverAt([], node, node.kids, s) {
    }
  }

  /** The pattern below `node`; `None` where it would nest past MAX_NESTING. */
  method Branches(node: Trie, depth: nat) returns (pattern: Option<Regex>)
    requires Tidy(node) && (node.ends || node.kids.Kid?)
    ensures pattern.Some? <==> depth + Nesting(node) <= MAX_NESTING
    ensures pattern.Some? ==> Matches(pattern.value, node)
    decreases node
  {
    if depth > MAX_NESTING {
      return None;
    }
    var parts: seq<Regex> := [];
    var k := node.kids;
    NothingCovered(node);
    while k.Kid?
      invariant TidyKids(k) && (k == node.kids || k < node.kids)
      invariant parts == [] <==> k == node.kids
      invariant KidsNesting(k) <= KidsNesting(node.kids)
      invariant depth + KidsNesting(node.kids) <= MAX_NESTING || KidsNesting(k) == KidsNesting(node.kids)
      invariant PartsCover(parts, node, k)
      decreases k
    {
      SkipGoesDown(k.child);
      var text, child := [k.c], k.child;
      while !child.ends && child.kids.Kid? && child.kids.rest.NoKids?
        invariant child == k.child || child < k.child
        invariant [k.c] + Skip(k.child).0 == text + Skip(child).0 && Skip(k.child).1 == Skip(child).1
        decreases child
      {
        text := text + [child.kids.c];
        child := child.kids.child;
      }
      var below := Branches(child, depth + 1);
      if below.None? {
        return None;
      }
      CoverOneMore(parts, node, k, below.value);
      assert text == [k.c] + Skip(k.child).0;
      parts := parts + [Then(Literal(text), below.value)];
      k := k.rest;
    }
    BodyMatches(parts, node);
    if parts == [] {
      return Some(Literal(""));
    }
    var body := Alternation(parts);
    return Some(if node.ends then Maybe(body) else body);
  }

  // ---------- the pattern of a set of secrets ----------

  ghost predicate Holds(t: Trie, secrets: set<string>) {
    forall w :: Has(t, w) <==> w in secrets
  }

  lemma {:induction false} HeldLengths(t: Trie, secrets: set<string>, s: string, n: nat)
    requires Holds(t, secrets) && n <= |s|
    ensures WordLengths(t, s, n) == SecretLengths(secrets, s, n)
  {
    if n == 0 {
    } else {
      HeldLengths(t, secrets, s, n - 1);
    }
  }

  ghost predicate Elements(words: seq<string>, secrets: set<string>) {
    forall w :: w in words <==> w in secrets
  }

  /** `ordered` lists `secrets` once each, the longest first. */
  ghost predicate LongestFirst(ordered: seq<string>, secrets: set<string>) {
    && Elements(ordered, secrets)
    && (forall i, j :: 0 <= i < j < |ordered| ==> ordered[i] != ordered[j] && |ordered[i]| >= |ordered[j]|)
  }

  method SortedLongestFirst(secrets: set<string>) returns (ordered: seq<string>)
    ensures LongestFirst(ordered, secrets)
  {
    ordered := [];
    var left := secrets;
    while left != {}
      invariant left <= secrets
      invariant LongestFirst(ordered, secrets - left)
      invariant forall w, v :: w in ordered && v in left ==> |w| >= |v|
      decreases |left|
    {
      var longest :| longest in left;
      var others := left - {longest};
      while others != {}
        invariant longest in left && others <= left
        invariant forall v :: v in left && v !in others ==> |v| <= |longest|
        decreases |others|
      {
        var v :| v in others;
        if |v| > |longest| { longest := v; }
        others := others - {v};
      }
      ordered := ordered + [longest];
      left := left - {longest};
    }
    assert secrets - left == secrets;
  }

  ghost function Literals(words: seq<string>): seq<Regex> {
    seq(|words|, i requires 0 <= i < |words| => Literal(words[i]))
  }

  /** A secret not found up to `n` makes no difference up to there. */
  lemma {:induction false} BelowTheLongest(secrets: set<string>, w: string, s: string, n: nat)
    requires n <= |s| && n <= |w| && s[..n] != w
    ensures SecretLengths(secrets, s, n) == SecretLengths(secrets - {w}, s, n)
  {
    assert s[..n] in secrets <==> s[..n] in secrets - {w};
    if n == 0 {
    } else {
      BelowTheLongest(secrets, w, s, n - 1);
    }
  }

  /** Taking the longest secret out takes out at most the first length tried. */
  lemma {:induction false} WithoutTheLongest(secrets: set<string>, w: string, s: string, n: nat)
    requires n <= |s| && w in secrets
    requires forall v :: v in secrets ==> |v| <= |w|
    ensures SecretLengths(secrets, s, n)
         == (if w <= s && |w| <= n then [|w|] else []) + SecretLengths(secrets - {w}, s, n)
  {
    if n > |w| {
      assert s[..n] !in secrets;
      WithoutTheLongest(secrets, w, s, n - 1);
    } else if s[..n] == w {
      assert w <= s;
      if n > 0 { BelowTheLongest(secrets, w, s, n - 1); }
    } else {
      BelowTheLongest(secrets, w, s, n);
    }
  }

  lemma {:induction false} LiteralsEnds(ordered: seq<string>, secrets: set<string>, s: string)
    requires LongestFirst(ordered, secrets)
    ensures EndsOfAll(Literals(ordered), s) == SecretLengths(secrets, s, |s|)
  {
    if ordered == [] {
      assert forall w :: w in secrets ==> w in ordered;
      assert secrets == {};
      NoSecretsNoLengths(s, |s|);
    } else {
      var w := ordered[0];
      assert w in secrets;
      forall v ensures v in ordered[1..] <==> v in secrets - {w} {
        if v in ordered && v != w {
          var i :| 0 <= i < |ordered| && ordered[i] == v;
          assert ordered[1..][i - 1] == v;
        }
      }
      LiteralsEnds(ordered[1..], secrets - {w}, s);
      assert Literals(ordered)[1..] == Literals(ordered[1..]);
      WithoutTheLongest(secrets, w, s, |s|);
    }
  }

  lemma {:induction false} NoSecretsNoLengths(s: string, n: nat)
    requires n <= |s|
    ensures SecretLengths({}, s, n) == []
  {
    if n == 0 {
    } else {
      NoSecretsNoLengths(s, n - 1);
    }
  }

  /** The alternation of plain literals, which stands in for a trie pattern too deep to parse. */
  method AnyOf(ordered: seq<string>, ghost secrets: set<string>) returns (pattern: Regex)
    requires ordered != [] && LongestFirst(ordered, secrets)
    ensures Recognises(pattern, secrets)
  {
    pattern := Alternation(seq(|ordered|, i requires 0 <= i < |ordered| => Literal(ordered[i])));
    forall s ensures RecognisesAt(pattern, secrets, s) {
      AlternationEnds(Literals(ordered), s);
      LiteralsEnds(ordered, secrets, s);
    }
  }

  method TrieOf(ordered: seq<string>, ghost secrets: set<string>) returns (trie: Trie)
    requires ordered != [] && Elements(ordered, secrets)
    ensures Holds(trie, secrets) && Tidy(trie) && (trie.ends || trie.kids.Kid?)
  {
    trie := EMPTY;
    ghost var added: set<string> := {};
    for i := 0 to |ordered|
      invariant Holds(trie, added) && Elements(ordered[..i], added)
      invariant Tidy(trie) && (i > 0 ==> trie.ends || trie.kids.Kid?)
    {
      InsertHolds(trie, added, ordered[i]);
      InsertKeepsTidy(trie, ordered[i]);
      trie, added := Insert(trie, ordered[i]), added + {ordered[i]};
      assert ordered[..i + 1] == ordered[..i] + [ordered[i]];
    }
    assert ordered[..|ordered|] == ordered;
    assert added == secrets;
  }

  /**
    One pattern for all of `secrets`. `parserTakes` is whether the expression parser accepts
    the trie pattern; the answer does not depend on it.
  */
  method PatternFor(secrets: set<string>, parserTakes: Regex -> bool) returns (pattern: Option<Regex>)
    ensures pattern.None? <==> secrets == {}
    ensures pattern.Some? ==> Recognises(pattern.value, secrets)
  {
    var ordered := SortedLongestFirst(secrets);
    if ordered == [] {
      assert forall w :: w in secrets ==> w in ordered;
      return None;
    }
    assert ordered[0] in secrets;
    var trie := TrieOf(ordered, secrets);
    var compiled := Branches(trie, 0);
    if compiled.Some? && parserTakes(compiled.value) {
      HeldAreRecognised(compiled.value, trie, secrets);
      return compiled;
    }
    var plain := AnyOf(ordered, secrets);
    return Some(plain);
  }

  lemma InsertHolds(t: Trie, words: set<string>, w: string)
    requires Holds(t, words)
    ensures Holds(Insert(t, w), words + {w})
  {
    forall v ensures Has(Insert(t, w), v) <==> v in words + {w} {
      InsertAdds(t, w, v);
    }
  }

  lemma HeldAreRecognised(r: Regex, t: Trie, secrets: set<string>)
    requires Matches(r, t) && Holds(t, secrets)
    ensures Recognises(r, secrets)
  {
    forall s ensures RecognisesAt(r, secrets, s) {
      assert MatchesAt(r, t, s);
      HeldLengths(t, secrets, s, |s|);
    }
  }

  // ---------- what a match means ----------

  /** `n` is the length of the longest secret at the front of `s`. */
  ghost predicate LongestSecret(secrets: set<string>, s: string, n: nat) {
    && n <= |s|
    && s[..n] in secrets
    && forall w :: w in secrets && w <= s ==> |w| <= n
  }

  lemma {:induction false} FirstLengthIsLongest(secrets: set<string>, s: string, n: nat)
    requires n <= |s|
    ensures var found := SecretLengths(secrets, s, n);
            if found == [] then forall k :: 0 <= k <= n ==> s[..k] !in secrets
            else 0 <= found[0] <= n && s[..found[0]] in secrets && forall k :: found[0] < k <= n ==> s[..k] !in secrets
  {
    if n == 0 {
    } else {
      FirstLengthIsLongest(secrets, s, n - 1);
    }
  }

  /** A compiled pattern reports the longest secret at a position, and nothing where none starts. */
  lemma MatchIsLongestSecret(r: Regex, secrets: set<string>, s: string)
    requires Recognises(r, secrets)
    ensures MatchAt(r, s).None? <==> forall w :: w in secrets ==> !(w <= s)
    ensures MatchAt(r, s).Some? ==> LongestSecret(secrets, s, MatchAt(r, s).value)
  {
    assert RecognisesAt(r, secrets, s);
    FirstLengthIsLongest(secrets, s, |s|);
    assert forall w :: w in secrets && w <= s ==> s[..|w|] == w;
    if MatchAt(r, s).Some? {
      assert s[..MatchAt(r, s).value] <= s;
    }
  }
}
