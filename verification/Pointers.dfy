/**
  JSON pointers as the reference walk writes them and the resolver reads them
  (openapi/ref_walk.py; sections 3 and 4 of RFC 6901).
*/
module Pointers {
  import opened Sequences

  // ---------- text ----------

  /** Every occurrence of `pattern` replaced, from the left, without overlap. */
  function Replace(s: string, pattern: string, replacement: string): string
    requires pattern != ""
    decreases |s|
  {
    if s == "" then ""
    else if pattern <= s then replacement + Replace(s[|pattern|..], pattern, replacement)
    else [s[0]] + Replace(s[1..], pattern, replacement)
  }

  /** A key as a pointer token. */
  function Escape(key: string): string { Replace(Replace(key, "~", "~0"), "/", "~1") }

  /** The key a token stands for. */
  function Unescape(token: string): string { Replace(Replace(token, "~1", "/"), "~0", "~") }

  /** The parts of `s` between the separators; one part where there is none. */
  function Split(s: string, separator: char): (parts: seq<string>)
    ensures parts != []
  {
    if s == "" then [""]
    else
      var parts := Split(s[1..], separator);
      if s[0] == separator then [""] + parts else [[s[0]] + parts[0]] + parts[1..]
  }

  /** `/` and the token of each key in turn. */
  function PointerOf(keys: seq<string>): string {
    if keys == [] then "" else "/" + Escape(keys[0]) + PointerOf(keys[1..])
  }

  // ---------- escaping ----------

  function EscapedChar(c: char): string { if c == '~' then "~0" else if c == '/' then "~1" else [c] }

  ghost function EscapedChars(key: string): string {
    if key == "" then "" else EscapedChar(key[0]) + EscapedChars(key[1..])
  }

  ghost function Tildes(key: string): string {
    if key == "" then "" else (if key[0] == '~' then "~0" else [key[0]]) + Tildes(key[1..])
  }

  lemma ReplaceCharStep(s: string, c: char, replacement: string)
    requires s != ""
    ensures Replace(s, [c], replacement)
        == (if s[0] == c then replacement else [s[0]]) + Replace(s[1..], [c], replacement)
  {
    assert [c] <= s <==> s[0] == c;
  }

  lemma ReplacePairStep(a: char, b: char, s: string, replacement: string)
    requires s != ""
    ensures |s| == 1 || s[0] != a || s[1] != b ==>
        Replace(s, [a, b], replacement) == [s[0]] + Replace(s[1..], [a, b], replacement)
    ensures |s| > 1 && s[0] == a && s[1] == b ==>
        Replace(s, [a, b], replacement) == replacement + Replace(s[2..], [a, b], replacement)
  {
    assert [a, b] <= s <==> |s| > 1 && s[0] == a && s[1] == b;
  }

  lemma {:induction false} EscapeByChar(key: string)
    ensures Replace(key, "~", "~0") == Tildes(key)
    ensures Replace(Tildes(key), "/", "~1") == EscapedChars(key)
  {
    if key == "" {
    } else {
      EscapeByChar(key[1..]);
      ReplaceCharStep(key, '~', "~0");
      EscapeSlashes(key[0], Tildes(key[1..]));
    }
  }

  /** Replacing slashes leaves the two characters a tilde became alone. */
  lemma EscapeSlashes(c: char, t: string)
    ensures Replace((if c == '~' then "~0" else [c]) + t, "/", "~1") == EscapedChar(c) + Replace(t, "/", "~1")
  {
    if c == '~' {
      var s := "~0" + t;
      assert s[1..] == "0" + t && ("0" + t)[1..] == t;
      ReplaceCharStep(s, '/', "~1");
      ReplaceCharStep("0" + t, '/', "~1");
    } else {
      assert ([c] + t)[1..] == t;
      ReplaceCharStep([c] + t, '/', "~1");
    }
  }

  lemma {:induction false} UnescapeByChar(key: string)
    ensures Replace(EscapedChars(key), "~1", "/") == Tildes(key)
    ensures Replace(Tildes(key), "~0", "~") == key
  {
    if key == "" {
    } else {
      UnescapeByChar(key[1..]);
      var e, t := EscapedChars(key), Tildes(key);
      ReplacePairStep('~', '1', e, "/");
      ReplacePairStep('~', '0', t, "~");
      if key[0] == '~' {
        assert e[1..][0] == '0' && e[1..][1..] == EscapedChars(key[1..]);
        ReplacePairStep('~', '1', e[1..], "/");
        assert t[2..] == Tildes(key[1..]);
      } else if key[0] == '/' {
        assert e[2..] == EscapedChars(key[1..]);
        assert t[1..] == Tildes(key[1..]);
      } else {
        assert e[1..] == EscapedChars(key[1..]);
        assert t[1..] == Tildes(key[1..]);
      }
    }
  }

  lemma {:induction false} EscapedHasNoSlash(key: string)
    ensures '/' !in EscapedChars(key)
  {
    if key == "" {
    } else {
      EscapedHasNoSlash(key[1..]);
    }
  }

  /** A token gives its key back and holds no separator. */
  lemma EscapeRoundTrip(key: string)
    ensures Unescape(Escape(key)) == key
    ensures '/' !in Escape(key)
  {
    EscapeByChar(key);
    UnescapeByChar(key);
    EscapedHasNoSlash(key);
  }

  // ---------- splitting ----------

  lemma {:induction false} SplitOne(token: string, rest: string)
    requires '/' !in token
    ensures Split(token, '/') == [token]
    ensures Split(token + "/" + rest, '/') == [token] + Split(rest, '/')
  {
    if token == "" {
      assert token + "/" + rest == "/" + rest && ("/" + rest)[1..] == rest;
    } else {
      SplitOne(token[1..], rest);
      assert (token + "/" + rest)[1..] == token[1..] + "/" + rest;
      assert token == [token[0]] + token[1..];
    }
  }

  ghost function Escaped(keys: seq<string>): (tokens: seq<string>)
    ensures |tokens| == |keys|
  {
    if keys == [] then [] else [Escape(keys[0])] + Escaped(keys[1..])
  }

  /** The tokens of a pointer are the escaped keys it was written from. */
  lemma {:induction false} SplitPointer(keys: seq<string>)
    requires keys != []
    ensures |PointerOf(keys)| > 0 && PointerOf(keys)[0] == '/'
    ensures Split(PointerOf(keys)[1..], '/') == Escaped(keys)
  {
    EscapeRoundTrip(keys[0]);
    var token := Escape(keys[0]);
    PointerStep(keys);
    if |keys| == 1 {
      SplitOne(token, "");
      assert token + PointerOf(keys[1..]) == token;
    } else {
      SplitPointer(keys[1..]);
      PointerStep(keys[1..]);
      SplitOne(token, PointerOf(keys[1..])[1..]);
      Associates(token, "/", PointerOf(keys[1..])[1..]);
    }
  }

  lemma PointerStep(keys: seq<string>)
    requires keys != []
    ensures PointerOf(keys) == "/" + PointerOf(keys)[1..]
        && PointerOf(keys)[1..] == Escape(keys[0]) + PointerOf(keys[1..])
  {
  }

  // ---------- list indices ----------

  const DIGITS: string := "0123456789"

  function Decimal(n: nat): string {
    if n < 10 then [DIGITS[n]] else Decimal(n / 10) + [DIGITS[n % 10]]
  }

  predicate IsDigit(c: char) { '0' <= c <= '9' }

  predicate AllDigits(s: string) { s != "" && forall i :: 0 <= i < |s| ==> IsDigit(s[i]) }

  function Parsed(s: string): nat
    requires forall i :: 0 <= i < |s| ==> IsDigit(s[i])
  {
    if s == "" then 0 else assert IsDigit(s[|s| - 1]); 10 * Parsed(s[..|s| - 1]) + (s[|s| - 1] as int - '0' as int)
  }

  lemma DigitValue(d: nat)
    requires d < 10
    ensures IsDigit(DIGITS[d]) && DIGITS[d] as int - '0' as int == d
  {
  }

  /** An index reads back as the number it was printed from. */
  lemma {:induction false} DecimalRoundTrip(n: nat)
    ensures AllDigits(Decimal(n)) && Parsed(Decimal(n)) == n
  {
    DigitValue(n % 10);
    if n < 10 {
      assert [DIGITS[n]][..0] == "";
    } else {
      DecimalRoundTrip(n / 10);
      var s := Decimal(n);
      assert s[..|s| - 1] == Decimal(n / 10);
    }
  }

  lemma {:induction false} DecimalIsItsOwnToken(n: nat)
    ensures Escape(Decimal(n)) == Decimal(n)
  {
    DecimalRoundTrip(n);
    PlainTextIsItsOwnToken(Decimal(n));
  }

  lemma {:induction false} PlainTextIsItsOwnToken(s: string)
    requires '~' !in s && '/' !in s
    ensures Escape(s) == s
  {
    EscapeByChar(s);
    if s == "" {
    } else {
      PlainTextIsItsOwnToken(s[1..]);
      EscapeByChar(s[1..]);
    }
  }
}
