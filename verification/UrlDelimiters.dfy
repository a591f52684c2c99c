/**
  * What strict escaping does for the delimiters of section 2.2 of RFC 3986: those that a component may contain stay
  * apart from their codes, so that a component falls into the same parts before and after.
  */
module UrlDelimiters {
  import opened Basics
  import opened CStrings
  import opened Splitting
  import opened UrlEscape
  import opened Url

  /** gen-delims and sub-delims. */
  predicate Delimiter(d: byte) {
    d as char in ":/?#[]@" || d as char in "!$&'()*+,;="
  }

  predicate Unreserved(c: byte) {
    'A' as int <= c <= 'Z' as int || 'a' as int <= c <= 'z' as int || '0' as int <= c <= '9' as int
    || c as char in "-._~"
  }

  /** The delimiters are what strict mode calls reserved. */
  lemma ReservedAreDelimiters(c: byte)
    ensures c in RESERVED <==> Delimiter(c)
  {
  }

  /** The bytes that section 3 of RFC 3986 lets stand in a path, a query and a user. */
  lemma ClassesOf(c: byte)
    ensures c in PATH <==> Unreserved(c) || c as char in "!$&'()*+,;=" || c as char in ":@/"
    ensures c in QUERY <==> Unreserved(c) || c as char in "!$&'()*+,;=" || c as char in ":@/?"
    ensures c in USERINFO <==> Unreserved(c) || c as char in "!$&'()*+,;=" || c as char in ":"
  {
  }

  lemma HexTable(d: nat)
    requires d < 16
    ensures UpperHex(d) as char == "0123456789ABCDEF"[d] && PERCENT as char == '%'
    ensures HexDigit("0123456789ABCDEF"[d] as int) == d && HexDigit("0123456789abcdef"[d] as int) == d
  {
  }

  /** A delimiter is no part of a code. */
  lemma DelimiterIsNoDigit(d: byte)
    requires Delimiter(d)
    ensures !IsHex(d) && d != PERCENT && forall c: nat :: c < 16 ==> UpperHex(c) != d
  {
  }

  /** A token is written with the delimiter exactly when it is the delimiter itself. */
  lemma TokenAndDelimiter(t: Token, d: byte, safe: CharacterClass)
    requires WellFormed(t) && Delimiter(d) && d in safe
    ensures t == Plain(d) ==> EscapeToken(t, safe, true) == [d]
    ensures t != Plain(d) ==> Free(d, EscapeToken(t, safe, true))
  {
    DelimiterIsNoDigit(d);
    ReservedAreDelimiters(d);
    if t.Code? {
      CapitalsAreOfTheValue(t);
    }
  }

  // ---------- The parts stay ----------

  lemma TokenFits(s: Bytes)
    requires s != []
    ensures Width(TokenAt(s)) <= |s| && WellFormed(TokenAt(s))
  {
  }

  /** The first token ends before the delimiter. */
  lemma TokenBefore(a: Bytes, d: byte, b: Bytes)
    requires a != [] && Delimiter(d)
    ensures
      var s := a + [d] + b;
      var t := TokenAt(a);
      TokenAt(s) == t && Width(t) <= |a| && s[Width(t)..] == a[Width(t)..] + [d] + b
  {
    DelimiterIsNoDigit(d);
    var s := a + [d] + b;
    assert s[|a|] == d && s[0] == a[0];
    assert |a| > 1 ==> s[1] == a[1];
    assert |a| > 2 ==> s[2] == a[2];
  }

  lemma {:induction false} EscapedConcat(a: Bytes, d: byte, b: Bytes, safe: CharacterClass)
    requires Delimiter(d) && d in safe
    ensures Escaped(a + [d] + b, safe, true) == Escaped(a, safe, true) + [d] + Escaped(b, safe, true)
    decreases |a|
  {
    hide Escaped, Delimiter, TokenAt, EscapeToken;
    EmptyText(safe, true);
    if a == [] {
      var s := [d] + b;
      assert a + [d] + b == s && s[1..] == b;
      PlainDelimiter(d, b);
      EscapedStep(Plain(d), b, s, safe, true);
      TokenAndDelimiter(Plain(d), d, safe);
    } else {
      TokenFits(a);
      var t := TokenAt(a);
      var rest := a[Width(t)..];
      TokenBefore(a, d, b);
      EscapedStep(t, rest, a, safe, true);
      EscapedStep(t, rest + [d] + b, a + [d] + b, safe, true);
      EscapedConcat(rest, d, b, safe);
    }
  }

  lemma PlainDelimiter(d: byte, b: Bytes)
    requires Delimiter(d)
    ensures TokenAt([d] + b) == Plain(d)
  {
    DelimiterIsNoDigit(d);
  }

  lemma {:induction false} EscapedStaysFree(s: Bytes, d: byte, safe: CharacterClass)
    requires Delimiter(d) && d in safe && Free(d, s)
    ensures Free(d, Escaped(s, safe, true))
    decreases |s|
  {
    hide Delimiter, EscapeToken;
    if s != [] {
      var t := TokenAt(s);
      TokenAndDelimiter(t, d, safe);
      EscapedStaysFree(s[Width(t)..], d, safe);
    }
  }

  function EscapedParts(parts: seq<Bytes>, safe: CharacterClass): (r: seq<Bytes>)
    ensures |r| == |parts| && forall k :: 0 <= k < |r| ==> r[k] == Escaped(parts[k], safe, true)
  {
    seq(|parts|, k requires 0 <= k < |parts| => Escaped(parts[k], safe, true))
  }

  /**
    * Strict escaping keeps a component's parts: what stands between the delimiters is escaped by itself, and no
    * delimiter comes or goes. A code stays apart from the delimiter it is of.
    */
  lemma {:induction false} StrictKeepsParts(s: Bytes, d: byte, safe: CharacterClass)
    requires Delimiter(d) && d in safe
    ensures Split(d, Escaped(s, safe, true)) == EscapedParts(Split(d, s), safe)
    decreases |s|
  {
    hide Escaped, Delimiter;
    var k := Find(d, s, 0);
    assert Split(d, s) == if k == |s| then [s] else [s[..k]] + Split(d, s[k + 1..]);
    hide Split, Find;
    if k == |s| {
      EscapedStaysFree(s, d, safe);
      SplitOfJoined(d, [Escaped(s, safe, true)]);
    } else {
      var a, b := s[..k], s[k + 1..];
      assert s == a + [d] + b;
      EscapedConcat(a, d, b, safe);
      EscapedStaysFree(a, d, safe);
      StrictKeepsParts(b, d, safe);
      SplitAfter(d, Escaped(a, safe, true), Escaped(b, safe, true));
    }
  }

  lemma SplitAfter(d: byte, a: Bytes, b: Bytes)
    requires Free(d, a)
    ensures Split(d, a + [d] + b) == [a] + Split(d, b)
  {
    hide Split;
    SplitProperties(d, b);
    var parts := [a] + Split(d, b);
    assert parts[1..] == Split(d, b);
    SplitOfJoined(d, parts);
  }

  /** The segments of a path are escaped one by one. */
  lemma PathKeepsSegments(path: Bytes)
    ensures Split('/' as int, Escaped(path, PATH, true)) == EscapedParts(Split('/' as int, path), PATH)
  {
    ClassesOf('/' as int);
    StrictKeepsParts(path, '/' as int, PATH);
  }

  // ---------- The codes that stay ----------

  function Tokens(s: Bytes): (tokens: seq<Token>)
    ensures forall k :: 0 <= k < |tokens| ==> WellFormed(tokens[k])
    decreases |s|
  {
    if s == [] then [] else [TokenAt(s)] + Tokens(s[Width(TokenAt(s))..])
  }

  /** A code is left only for a byte that may not stand for itself, or for a delimiter; other bytes may stand. */
  predicate Needed(t: Token, safe: CharacterClass)
    requires WellFormed(t)
  {
    if t.Code? then Value(t) !in safe || Delimiter(Value(t)) else t.c in safe
  }

  lemma WrittenTokenIsNeeded(t: Token, rest: Bytes, safe: CharacterClass)
    requires WellFormed(t) && PERCENT !in safe
    ensures
      var e := EscapeToken(t, safe, true);
      var u := TokenAt(e + rest);
      e != [] && (e + rest)[Width(u)..] == rest && Needed(u, safe)
  {
    var e := EscapeToken(t, safe, true);
    EscapedTokenLength(t, safe, true);
    ReservedAreDelimiters(Value(t));
    if |e| == 3 {
      CodeIsStable(t, rest, safe, true);
    } else {
      PlainIsStable(e[0], rest, safe, true);
    }
  }

  lemma {:induction false} CodesThatStay(s: Bytes, safe: CharacterClass, k: nat)
    requires PERCENT !in safe && k < |Tokens(Escaped(s, safe, true))|
    ensures Needed(Tokens(Escaped(s, safe, true))[k], safe)
    decreases |s|
  {
    hide EscapeToken, Needed, TokenAt;
    if s != [] {
      TokenFits(s);
      var t := TokenAt(s);
      var rest := s[Width(t)..];
      var e := Escaped(s, safe, true);
      WrittenTokenIsNeeded(t, Escaped(rest, safe, true), safe);
      assert Tokens(e) == [TokenAt(e)] + Tokens(Escaped(rest, safe, true));
      if k > 0 {
        CodesThatStay(rest, safe, k - 1);
      }
    }
  }
}
