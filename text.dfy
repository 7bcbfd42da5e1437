/** The Kotlin string operations the vault applies to user input. Strings are
    sequences of Unicode scalar values. */
module Text {

  /** Kotlin's `Char.isWhitespace()` on the JVM: the ASCII controls tab through
      carriage return, the separators U+001C to U+001F, and every space, line
      or paragraph separator of the Unicode character database (no-break
      spaces included). */
  predicate IsWhitespace(c: char) {
    || c == ' '
    || '\t' <= c <= '\r'
    || '\U{1C}' <= c <= '\U{1F}'
    || c == '\U{A0}'
    || c == '\U{1680}'
    || '\U{2000}' <= c <= '\U{200A}'
    || c == '\U{2028}' || c == '\U{2029}'
    || c == '\U{202F}' || c == '\U{205F}' || c == '\U{3000}'
  }

  /** Kotlin's `isBlank()`: empty or whitespace only. */
  predicate IsBlank(s: string) {
    forall i :: 0 <= i < |s| ==> IsWhitespace(s[i])
  }

  /** The number of whitespace characters at the start of `s`. */
  function LeadingWhitespace(s: string): (k: nat)
    ensures k <= |s|
    ensures IsBlank(s[..k])
    ensures k < |s| ==> !IsWhitespace(s[k])
    decreases |s|
  {
    if s == [] || !IsWhitespace(s[0]) then 0
    else
      var k := 1 + LeadingWhitespace(s[1..]);
      assert s[..k] == [s[0]] + s[1..][..k - 1];
      k
  }

  /** The number of whitespace characters at the end of `s`. */
  function TrailingWhitespace(s: string): (k: nat)
    ensures k <= |s|
    ensures IsBlank(s[|s| - k..])
    ensures k < |s| ==> !IsWhitespace(s[|s| - 1 - k])
    decreases |s|
  {
    if s == [] || !IsWhitespace(s[|s| - 1]) then 0
    else
      var k := 1 + TrailingWhitespace(s[..|s| - 1]);
      assert s[|s| - k..] == s[..|s| - 1][|s| - k..] + [s[|s| - 1]];
      k
  }

  lemma BlankConcat(x: string, y: string)
    requires IsBlank(x) && IsBlank(y)
    ensures IsBlank(x + y)
  {
    forall i | 0 <= i < |x + y| ensures IsWhitespace((x + y)[i]) {
      if i >= |x| { assert (x + y)[i] == y[i - |x|]; }
    }
  }

  /** Kotlin's `trim()`: `s` without its leading and trailing whitespace. The
      result is the infix of `s` that starts and ends with a non-whitespace
      character and is surrounded by whitespace only. */
  function Trim(s: string): (r: string)
    ensures r == [] <==> IsBlank(s)
    ensures r != [] ==> !IsWhitespace(r[0]) && !IsWhitespace(r[|r| - 1])
    ensures var a := LeadingWhitespace(s);
            && a + |r| <= |s| && s[a..a + |r|] == r
            && IsBlank(s[..a]) && IsBlank(s[a + |r|..])
  {
    var a := LeadingWhitespace(s);
    var t := s[a..];
    var b := TrailingWhitespace(t);
    var r := t[..|t| - b];
    TrimBlank(s, a, t, b, r);
    TrimEnds(s, a, t, b, r);
    TrimInfix(s, a, t, b, r);
    r
  }

  lemma TrimBlank(s: string, a: nat, t: string, b: nat, r: string)
    requires a == LeadingWhitespace(s) && t == s[a..]
    requires b == TrailingWhitespace(t) && r == t[..|t| - b]
    ensures r == [] <==> IsBlank(s)
  {
    if r == [] {
      assert t == t[|t| - b..];
      assert s == s[..a] + t;
      BlankConcat(s[..a], t);
    } else {
      assert r[0] == s[a];
    }
  }

  lemma TrimEnds(s: string, a: nat, t: string, b: nat, r: string)
    requires a == LeadingWhitespace(s) && t == s[a..]
    requires b == TrailingWhitespace(t) && r == t[..|t| - b]
    ensures r != [] ==> !IsWhitespace(r[0]) && !IsWhitespace(r[|r| - 1])
  {
    if r != [] {
      assert r[0] == s[a];
      assert r[|r| - 1] == t[|t| - 1 - b];
    }
  }

  lemma TrimInfix(s: string, a: nat, t: string, b: nat, r: string)
    requires a <= |s| && t == s[a..]
    requires b <= |t| && r == t[..|t| - b] && IsBlank(t[|t| - b..])
    ensures a + |r| <= |s| && s[a..a + |r|] == r && IsBlank(s[a + |r|..])
  {
    assert s[a..a + |r|] == r;
    assert s[a + |r|..] == t[|t| - b..];
  }

  /** Trimming twice is trimming once. */
  lemma TrimIdempotent(s: string)
    ensures Trim(Trim(s)) == Trim(s)
  {
    var r := Trim(s);
    if r != [] {
      assert LeadingWhitespace(r) == 0;
      assert TrailingWhitespace(r) == 0;
    }
  }

  /** After trimming, blank and empty coincide. */
  lemma TrimmedBlankIsEmpty(s: string)
    ensures IsBlank(Trim(s)) <==> Trim(s) == []
  {
    TrimIdempotent(s);
  }

  /** Kotlin's `String.length`: the number of UTF-16 code units, two for a
      character outside the Basic Multilingual Plane. */
  function Utf16Length(s: string): (n: nat)
    ensures |s| <= n <= 2 * |s|
  {
    if s == [] then 0
    else (if s[0] as int < 0x10000 then 1 else 2) + Utf16Length(s[1..])
  }
}
