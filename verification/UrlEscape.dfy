/** Percent-escaping and unescaping of URL components. */
module UrlEscape {
  import opened Basics
  import opened CStrings

  const PERCENT: byte := 37

  type CharacterClass = set<byte>

  /** ":/?#[]@" */
  const GEN_DELIMS: CharacterClass := {58, 47, 63, 35, 91, 93, 64}

  /** "!$&'()*+,;=" */
  const SUB_DELIMS: CharacterClass := {33, 36, 38, 39, 40, 41, 42, 43, 44, 59, 61}

  const RESERVED: CharacterClass := GEN_DELIMS + SUB_DELIMS

  function ToUpper(c: byte): byte {
    if 97 <= c <= 122 then c - 32 else c
  }

  /** An upper-case hexadecimal digit. */
  function UpperHex(d: nat): (c: byte)
    requires d < 16
    ensures HexDigit(c) == d && ToUpper(c) == c
  {
    if d < 10 then 48 + d else 55 + d
  }

  // ---------- Specification ----------

  /** A component is a sequence of plain bytes and of codes, "%" with two hexadecimal digits. */
  datatype Token = Plain(c: byte) | Code(high: byte, low: byte)

  predicate IsHex(c: byte) {
    HexDigit(c) != -1
  }

  function TokenAt(s: Bytes): Token
    requires s != []
  {
    if |s| >= 3 && s[0] == PERCENT && IsHex(s[1]) && IsHex(s[2]) then Code(s[1], s[2]) else Plain(s[0])
  }

  function Width(t: Token): nat {
    if t.Code? then 3 else 1
  }

  predicate WellFormed(t: Token) {
    t.Code? ==> IsHex(t.high) && IsHex(t.low)
  }

  /** The byte a token stands for. */
  function Value(t: Token): byte
    requires WellFormed(t)
  {
    match t
    case Plain(c) => c
    case Code(high, low) => HexDigit(high) * 16 + HexDigit(low)
  }

  function EscapeByte(c: byte, safe: CharacterClass): Bytes {
    if c in safe then [c] else [PERCENT, UpperHex(c / 16), UpperHex(c % 16)]
  }

  /** In strict mode a code stays one (in upper case) unless its byte is safe and not reserved. */
  function EscapeToken(t: Token, safe: CharacterClass, strict: bool): Bytes
    requires WellFormed(t)
  {
    if t.Code? && strict && !(Value(t) in safe && Value(t) !in RESERVED) then
      [PERCENT, ToUpper(t.high), ToUpper(t.low)]
    else EscapeByte(Value(t), safe)
  }

  function Escaped(s: Bytes, safe: CharacterClass, strict: bool): Bytes
    decreases |s|
  {
    if s == [] then [] else EscapeToken(TokenAt(s), safe, strict) + Escaped(s[Width(TokenAt(s))..], safe, strict)
  }

  function Unescaped(s: Bytes): Bytes
    decreases |s|
  {
    if s == [] then [] else [Value(TokenAt(s))] + Unescaped(s[Width(TokenAt(s))..])
  }

  // ---------- The laws ----------

  /** A byte that is written as itself and is no "%" reads back as itself. */
  lemma PlainIsStable(c: byte, rest: Bytes, safe: CharacterClass, strict: bool)
    requires c in safe && c != PERCENT
    ensures
      var u := TokenAt([c] + rest);
      u == Plain(c) && ([c] + rest)[1..] == rest && EscapeToken(u, safe, strict) == [c]
  {
  }

  /** What is written as a code reads back as one code of the same value, written the same way again. */
  lemma CodeIsStable(t: Token, rest: Bytes, safe: CharacterClass, strict: bool)
    requires WellFormed(t) && |EscapeToken(t, safe, strict)| == 3
    ensures
      var e := EscapeToken(t, safe, strict);
      var u := TokenAt(e + rest);
      && u.Code? && (e + rest)[3..] == rest
      && WellFormed(u) && Value(u) == Value(t) && EscapeToken(u, safe, strict) == e
  {
    var e := EscapeToken(t, safe, strict);
    var s := e + rest;
    assert s[0] == e[0] && s[1] == e[1] && s[2] == e[2];
  }

  lemma EscapedTokenLength(t: Token, safe: CharacterClass, strict: bool)
    requires WellFormed(t)
    ensures
      var e := EscapeToken(t, safe, strict);
      (|e| == 3 && e[0] == PERCENT) || (e == [Value(t)] && Value(t) in safe)
  {
  }

  /** Escaped text that does not start with "%" starts with a safe byte, written as itself. */
  lemma FirstOfEscaped(s: Bytes, safe: CharacterClass, strict: bool)
    requires Escaped(s, safe, strict) != [] && Escaped(s, safe, strict)[0] != PERCENT
    ensures
      var c := Escaped(s, safe, strict)[0];
      && s != [] && c in safe && Width(TokenAt(s)) <= |s|
      && Escaped(s, safe, strict) == [c] + Escaped(s[Width(TokenAt(s))..], safe, strict)
  {
    hide EscapeToken, Value;
    EscapedTokenLength(TokenAt(s), safe, strict);
  }

  lemma EscapedStep(t: Token, rest: Bytes, s: Bytes, safe: CharacterClass, strict: bool)
    requires s != [] && TokenAt(s) == t && s[Width(t)..] == rest
    ensures Escaped(s, safe, strict) == EscapeToken(t, safe, strict) + Escaped(rest, safe, strict)
    ensures Unescaped(s) == [Value(t)] + Unescaped(rest)
  {
  }

  // ---------- Meaning is kept ----------

  /** "%" is not safe; or it is, and no hexadecimal digit is. */
  predicate KeepsMeaning(safe: CharacterClass) {
    PERCENT !in safe || forall h :: h in safe ==> !IsHex(h)
  }

  /** A token, read back from what is written for it, has its value. */
  lemma MeaningStep(t: Token, s: Bytes, safe: CharacterClass, strict: bool)
    requires WellFormed(t) && KeepsMeaning(safe)
    ensures
      var e := EscapeToken(t, safe, strict) + Escaped(s, safe, strict);
      Unescaped(e) == [Value(t)] + Unescaped(Escaped(s, safe, strict))
  {
    hide EscapeToken, Escaped, Unescaped, Value;
    var rest := Escaped(s, safe, strict);
    var e := EscapeToken(t, safe, strict);
    EscapedTokenLength(t, safe, strict);
    if |e| == 3 {
      CodeIsStable(t, rest, safe, strict);
      EscapedStep(TokenAt(e + rest), rest, e + rest, safe, strict);
    } else if e[0] != PERCENT {
      PlainIsStable(e[0], rest, safe, strict);
      EscapedStep(Plain(e[0]), rest, e + rest, safe, strict);
      PlainValue(e[0]);
    } else {
      if rest != [] && rest[0] != PERCENT {
        FirstOfEscaped(s, safe, strict);
      }
      PercentAlone(rest);
      EscapedStep(Plain(PERCENT), rest, e + rest, safe, strict);
      PlainValue(PERCENT);
    }
  }

  lemma PlainValue(c: byte)
    ensures Value(Plain(c)) == c
  {
  }

  lemma PercentAlone(rest: Bytes)
    requires rest == [] || rest[0] == PERCENT || !IsHex(rest[0])
    ensures TokenAt([PERCENT] + rest) == Plain(PERCENT) && ([PERCENT] + rest)[1..] == rest
  {
    assert rest != [] ==> ([PERCENT] + rest)[1] == rest[0];
  }

  lemma {:induction false} EscapeKeepsMeaning(s: Bytes, safe: CharacterClass, strict: bool)
    requires KeepsMeaning(safe)
    ensures Unescaped(Escaped(s, safe, strict)) == Unescaped(s)
    decreases |s|
  {
    hide EscapeToken, Value, KeepsMeaning;
    if s != [] {
      var rest := s[Width(TokenAt(s))..];
      EscapeKeepsMeaning(rest, safe, strict);
      MeaningStep(TokenAt(s), rest, safe, strict);
    }
  }

  lemma EmptyText(safe: CharacterClass, strict: bool)
    ensures Escaped([], safe, strict) == [] && Unescaped([]) == []
  {
  }

  /** "%25" and more: the code is for a safe byte. */
  lemma CodedPercent(rest: Bytes, safe: CharacterClass, strict: bool)
    requires PERCENT in safe
    ensures Escaped([37, 50, 53] + rest, safe, strict) == [PERCENT] + Escaped(rest, safe, strict)
    ensures Unescaped([37, 50, 53] + rest) == [PERCENT] + Unescaped(rest)
  {
    var s := [37, 50, 53] + rest;
    var t := TokenAt(s);
    assert t == Code(50, 53) && s[3..] == rest;
    assert Value(t) == PERCENT;
    assert EscapeToken(t, safe, strict) == [PERCENT];
  }

  lemma TwoDigits(a: byte, b: byte, safe: CharacterClass, strict: bool)
    requires a in safe && b in safe && IsHex(a) && IsHex(b)
    ensures Escaped([a, b], safe, strict) == [a, b] && Unescaped([a, b]) == [a, b]
  {
    hide Escaped, Unescaped, EscapeToken, Value;
    EmptyText(safe, strict);
    PlainIsStable(b, [], safe, strict);
    PlainIsStable(a, [b], safe, strict);
    PlainValue(a);
    PlainValue(b);
    assert [b] + [] == [b] && [a] + [b] == [a, b];
    EscapedStep(Plain(b), [], [b], safe, strict);
    EscapedStep(Plain(a), [b], [a, b], safe, strict);
  }

  /** "%25" and two safe digits become "%" and the digits: a code that was not there. */
  lemma DigitsAfterPercent(a: byte, b: byte, safe: CharacterClass, strict: bool) returns (s: Bytes)
    requires PERCENT in safe && a in safe && b in safe && IsHex(a) && IsHex(b)
    ensures s == [37, 50, 53, a, b] && Escaped(s, safe, strict) == [PERCENT, a, b]
    ensures Escaped([PERCENT, a, b], safe, strict) == EscapeToken(Code(a, b), safe, strict)
    ensures Unescaped(s) == [PERCENT, a, b] && Unescaped([PERCENT, a, b]) == [Value(Code(a, b))]
  {
    hide Escaped, Unescaped, EscapeToken, Value;
    s := [37, 50, 53, a, b];
    assert s == [37, 50, 53] + [a, b];
    TwoDigits(a, b, safe, strict);
    CodedPercent([a, b], safe, strict);
    var code: Bytes := [PERCENT, a, b];
    assert code[3..] == [];
    EmptyText(safe, strict);
    EscapedStep(Code(a, b), [], code, safe, strict);
  }

  /** Escaping keeps the meaning of every string exactly when the class is of that kind, in both modes. */
  lemma EscapeKeepsMeaningIff(safe: CharacterClass, strict: bool)
    ensures (forall s :: Unescaped(Escaped(s, safe, strict)) == Unescaped(s)) <==> KeepsMeaning(safe)
  {
    hide Escaped, Unescaped;
    if KeepsMeaning(safe) {
      forall s
        ensures Unescaped(Escaped(s, safe, strict)) == Unescaped(s)
      {
        EscapeKeepsMeaning(s, safe, strict);
      }
    } else {
      var h :| h in safe && IsHex(h);
      var s := DigitsAfterPercent(h, h, safe, strict);
      assert |Unescaped(Escaped(s, safe, strict))| != |Unescaped(s)|;
    }
  }

  // ---------- Escaping twice ----------

  /** The code "%ab" is left as it is: in capitals, and for a byte that stays escaped. */
  predicate StaysCoded(a: byte, b: byte, safe: CharacterClass, strict: bool)
    requires IsHex(a) && IsHex(b)
  {
    && ToUpper(a) == a && ToUpper(b) == b
    && var v := HexDigit(a) * 16 + HexDigit(b);
       (v !in safe || (strict && v in RESERVED))
  }

  lemma StaysCodedIff(a: byte, b: byte, safe: CharacterClass, strict: bool)
    requires IsHex(a) && IsHex(b)
    ensures StaysCoded(a, b, safe, strict) <==> EscapeToken(Code(a, b), safe, strict) == [PERCENT, a, b]
  {
  }

  /** "%" is not safe; or it is, and every code made of safe digits is left as it is. */
  predicate CodesStay(safe: CharacterClass, strict: bool) {
    PERCENT !in safe
    || forall a, b :: a in safe && b in safe && IsHex(a) && IsHex(b) ==> StaysCoded(a, b, safe, strict)
  }

  lemma {:induction false} EscapeIsIdempotent(s: Bytes, safe: CharacterClass, strict: bool)
    requires CodesStay(safe, strict)
    ensures Escaped(Escaped(s, safe, strict), safe, strict) == Escaped(s, safe, strict)
    decreases |s|
  {
    hide EscapeToken, Value, Escaped, CodesStay;
    if s != [] {
      var t := TokenAt(s);
      var e := EscapeToken(t, safe, strict);
      var rest := Escaped(s[Width(t)..], safe, strict);
      EscapedStep(t, s[Width(t)..], s, safe, strict);
      EscapeIsIdempotent(s[Width(t)..], safe, strict);
      EscapedTokenLength(t, safe, strict);
      if |e| == 3 {
        CodeIsStable(t, rest, safe, strict);
        EscapedStep(TokenAt(e + rest), rest, e + rest, safe, strict);
      } else if e[0] != PERCENT {
        PlainIsStable(e[0], rest, safe, strict);
        EscapedStep(Plain(e[0]), rest, e + rest, safe, strict);
      } else if |rest| >= 2 && IsHex(rest[0]) && IsHex(rest[1]) {
        IdempotentAtCode(s[Width(t)..], safe, strict);
      } else {
        LonePercent(rest, safe, strict);
      }
    } else {
      EmptyText(safe, strict);
    }
  }

  /** A safe "%" that no two digits follow. */
  lemma LonePercent(rest: Bytes, safe: CharacterClass, strict: bool)
    requires PERCENT in safe && !(|rest| >= 2 && IsHex(rest[0]) && IsHex(rest[1]))
    ensures Escaped([PERCENT] + rest, safe, strict) == [PERCENT] + Escaped(rest, safe, strict)
  {
    var s := [PERCENT] + rest;
    assert s[1..] == rest;
    assert TokenAt(s) == Plain(PERCENT);
    assert EscapeToken(Plain(PERCENT), safe, strict) == [PERCENT];
  }

  /** A safe "%" before escaped text that starts with two digits: read again, the three are one code. */
  lemma IdempotentAtCode(s: Bytes, safe: CharacterClass, strict: bool)
    requires CodesStay(safe, strict) && PERCENT in safe
    requires
      var rest := Escaped(s, safe, strict);
      |rest| >= 2 && IsHex(rest[0]) && IsHex(rest[1])
    ensures
      var rest := Escaped(s, safe, strict);
      Escaped([PERCENT] + rest, safe, strict) == [PERCENT] + rest
    decreases |s|, 0
  {
    hide EscapeToken, Value, Escaped, StaysCoded;
    var rest := Escaped(s, safe, strict);
    FirstOfEscaped(s, safe, strict);
    var s1 := s[Width(TokenAt(s))..];
    var rest1 := Escaped(s1, safe, strict);
    assert rest1[0] == rest[1];
    FirstOfEscaped(s1, safe, strict);
    var s2 := s1[Width(TokenAt(s1))..];
    var rest2 := Escaped(s2, safe, strict);
    var a, b := rest[0], rest[1];
    assert StaysCoded(a, b, safe, strict);
    StaysCodedIff(a, b, safe, strict);
    EscapeIsIdempotent(s2, safe, strict);
    var code := [PERCENT, a, b] + rest2;
    assert [PERCENT] + rest == code && code[3..] == rest2;
    EscapedStep(Code(a, b), rest2, code, safe, strict);
  }

  /** Escaping twice changes no more, for every string, exactly when the class is of that kind. */
  lemma EscapeIsIdempotentIff(safe: CharacterClass, strict: bool)
    ensures (forall s :: Escaped(Escaped(s, safe, strict), safe, strict) == Escaped(s, safe, strict))
            <==> CodesStay(safe, strict)
  {
    hide Escaped, StaysCoded, EscapeToken;
    if CodesStay(safe, strict) {
      forall s
        ensures Escaped(Escaped(s, safe, strict), safe, strict) == Escaped(s, safe, strict)
      {
        EscapeIsIdempotent(s, safe, strict);
      }
    } else {
      var a, b :| a in safe && b in safe && IsHex(a) && IsHex(b) && !StaysCoded(a, b, safe, strict);
      StaysCodedIff(a, b, safe, strict);
      var s := DigitsAfterPercent(a, b, safe, strict);
      assert Escaped(Escaped(s, safe, strict), safe, strict) != Escaped(s, safe, strict);
    }
  }

  /** Both laws, in both modes, for every class without "%". */
  lemma EscapeIsStable(s: Bytes, safe: CharacterClass, strict: bool)
    requires PERCENT !in safe
    ensures Unescaped(Escaped(s, safe, strict)) == Unescaped(s)
    ensures Escaped(Escaped(s, safe, strict), safe, strict) == Escaped(s, safe, strict)
  {
    hide Escaped, Unescaped;
    EscapeKeepsMeaning(s, safe, strict);
    EscapeIsIdempotent(s, safe, strict);
  }

  // ---------- A normal form ----------

  /** A byte that a component stands for; kept when it is written as a code though it is safe. */
  datatype Sign = Sign(value: byte, kept: bool)

  /** In strict mode the code of a safe but reserved byte is kept apart from the byte itself. */
  function SignOf(t: Token, safe: CharacterClass, strict: bool): Sign
    requires WellFormed(t)
  {
    Sign(Value(t), strict && t.Code? && Value(t) in safe && Value(t) in RESERVED)
  }

  function Meaning(s: Bytes, safe: CharacterClass, strict: bool): seq<Sign>
    decreases |s|
  {
    if s == [] then [] else [SignOf(TokenAt(s), safe, strict)] + Meaning(s[Width(TokenAt(s))..], safe, strict)
  }

  /** Outside strict mode that is just the bytes. */
  lemma {:induction false} MeaningIsValue(s: Bytes, safe: CharacterClass)
    ensures |Meaning(s, safe, false)| == |Unescaped(s)|
    ensures forall k :: 0 <= k < |Unescaped(s)| ==> Meaning(s, safe, false)[k] == Sign(Unescaped(s)[k], false)
    decreases |s|
  {
    hide Value;
    if s != [] {
      var rest := s[Width(TokenAt(s))..];
      MeaningIsValue(rest, safe);
      assert Meaning(s, safe, false)[1..] == Meaning(rest, safe, false) && Unescaped(s)[1..] == Unescaped(rest);
      assert forall k :: 1 <= k < |Unescaped(s)| ==> Unescaped(s)[k] == Unescaped(rest)[k - 1];
    }
  }

  predicate AsItself(g: Sign, safe: CharacterClass) {
    g.value in safe && !g.kept
  }

  function CodeOf(c: byte): Bytes {
    [PERCENT, UpperHex(c / 16), UpperHex(c % 16)]
  }

  function EscapeSign(g: Sign, safe: CharacterClass): Bytes {
    if AsItself(g, safe) then [g.value] else CodeOf(g.value)
  }

  function EscapeSigns(x: seq<Sign>, safe: CharacterClass): Bytes
    decreases |x|
  {
    if x == [] then [] else EscapeSign(x[0], safe) + EscapeSigns(x[1..], safe)
  }

  lemma EscapeTokenIsOfTheSign(t: Token, safe: CharacterClass, strict: bool)
    requires WellFormed(t)
    ensures EscapeToken(t, safe, strict) == EscapeSign(SignOf(t, safe, strict), safe)
  {
    if t.Code? {
      CapitalsAreOfTheValue(t);
      hide ToUpper, UpperHex, HexDigit;
    }
  }

  lemma CapitalsAreOfTheValue(t: Token)
    requires WellFormed(t) && t.Code?
    ensures [PERCENT, ToUpper(t.high), ToUpper(t.low)] == CodeOf(Value(t))
  {
    var v := Value(t);
    assert v / 16 == HexDigit(t.high) && v % 16 == HexDigit(t.low);
  }

  lemma {:induction false} EscapedIsOfTheMeaning(s: Bytes, safe: CharacterClass, strict: bool)
    ensures Escaped(s, safe, strict) == EscapeSigns(Meaning(s, safe, strict), safe)
    decreases |s|
  {
    hide EscapeToken, EscapeSign, SignOf;
    if s != [] {
      EscapeTokenIsOfTheSign(TokenAt(s), safe, strict);
      EscapedIsOfTheMeaning(s[Width(TokenAt(s))..], safe, strict);
      assert Meaning(s, safe, strict)[1..] == Meaning(s[Width(TokenAt(s))..], safe, strict);
    }
  }

  /** No code in capitals that escaping writes can also be "%" and two digits, each written as itself. */
  predicate Unambiguous(safe: CharacterClass, strict: bool) {
    PERCENT !in safe
    || forall a, b :: a in safe && b in safe && IsHex(a) && IsHex(b) ==> !StaysCoded(a, b, safe, strict)
  }

  /** What a component can mean: only a safe and reserved byte is kept, and only in strict mode. */
  predicate Proper(g: Sign, safe: CharacterClass, strict: bool) {
    g.kept ==> strict && g.value in safe && g.value in RESERVED
  }

  predicate AllProper(x: seq<Sign>, safe: CharacterClass, strict: bool) {
    forall k :: 0 <= k < |x| ==> Proper(x[k], safe, strict)
  }

  lemma {:induction false} MeaningIsProper(s: Bytes, safe: CharacterClass, strict: bool)
    ensures AllProper(Meaning(s, safe, strict), safe, strict)
    decreases |s|
  {
    hide Value;
    if s != [] {
      MeaningIsProper(s[Width(TokenAt(s))..], safe, strict);
    }
  }

  lemma EscapeSignsHead(x: seq<Sign>, safe: CharacterClass)
    requires EscapeSigns(x, safe) != [] && EscapeSigns(x, safe)[0] != PERCENT
    ensures x != [] && x[0].value in safe && x[0].value == EscapeSigns(x, safe)[0]
    ensures EscapeSigns(x, safe)[1..] == EscapeSigns(x[1..], safe)
  {
    assert EscapeSigns(x, safe) == EscapeSign(x[0], safe) + EscapeSigns(x[1..], safe);
  }

  lemma CodeStays(g: Sign, safe: CharacterClass, strict: bool)
    requires Proper(g, safe, strict) && !AsItself(g, safe)
    ensures IsHex(UpperHex(g.value / 16)) && IsHex(UpperHex(g.value % 16))
    ensures StaysCoded(UpperHex(g.value / 16), UpperHex(g.value % 16), safe, strict)
  {
  }

  /** A "%" written as itself is not the start of the code for a byte that is not. */
  lemma PercentIsNoCode(x: seq<Sign>, g: Sign, tail: Bytes, safe: CharacterClass, strict: bool)
    requires Unambiguous(safe, strict) && PERCENT in safe && Proper(g, safe, strict) && !AsItself(g, safe)
    ensures EscapeSigns(x, safe) != CodeOf(g.value)[1..] + tail
  {
    hide EscapeSigns, StaysCoded, AsItself, Proper;
    var a, b := UpperHex(g.value / 16), UpperHex(g.value % 16);
    if EscapeSigns(x, safe) == CodeOf(g.value)[1..] + tail {
      assert EscapeSigns(x, safe)[0] == a && EscapeSigns(x, safe)[1..][0] == b;
      EscapeSignsHead(x, safe);
      EscapeSignsHead(x[1..], safe);
      CodeStays(g, safe, strict);
      assert false;
    }
  }

  lemma {:induction false} EscapeSignsIsInjective(x: seq<Sign>, y: seq<Sign>, safe: CharacterClass, strict: bool)
    requires Unambiguous(safe, strict) && AllProper(x, safe, strict) && AllProper(y, safe, strict)
    requires EscapeSigns(x, safe) == EscapeSigns(y, safe)
    ensures x == y
    decreases |x|
  {
    hide Unambiguous;
    if x != [] && y != [] {
      FirstSignsAgree(x, y, safe, strict);
      var e := EscapeSign(x[0], safe);
      assert EscapeSigns(x, safe)[|e|..] == EscapeSigns(x[1..], safe);
      assert EscapeSigns(y, safe)[|e|..] == EscapeSigns(y[1..], safe);
      EscapeSignsIsInjective(x[1..], y[1..], safe, strict);
    }
  }

  lemma FirstSignsAgree(x: seq<Sign>, y: seq<Sign>, safe: CharacterClass, strict: bool)
    requires Unambiguous(safe, strict) && x != [] && y != [] && EscapeSigns(x, safe) == EscapeSigns(y, safe)
    requires Proper(x[0], safe, strict) && Proper(y[0], safe, strict)
    ensures x[0] == y[0]
  {
    hide Unambiguous;
    var z := EscapeSigns(x, safe);
    var ex, ey := EscapeSign(x[0], safe), EscapeSign(y[0], safe);
    assert z == ex + EscapeSigns(x[1..], safe) && z == ey + EscapeSigns(y[1..], safe);
    if AsItself(x[0], safe) && !AsItself(y[0], safe) {
      WrittenTwoWays(x, y, safe, strict);
    } else if !AsItself(x[0], safe) && AsItself(y[0], safe) {
      WrittenTwoWays(y, x, safe, strict);
    } else if AsItself(x[0], safe) {
      assert z[0] == x[0].value == y[0].value;
    } else {
      assert z[1] == ex[1] == ey[1] && z[2] == ex[2] == ey[2];
      assert x[0].value == HexDigit(z[1]) * 16 + HexDigit(z[2]) == y[0].value;
    }
  }

  lemma WrittenTwoWays(x: seq<Sign>, y: seq<Sign>, safe: CharacterClass, strict: bool)
    requires Unambiguous(safe, strict) && x != [] && y != [] && Proper(y[0], safe, strict)
    requires AsItself(x[0], safe) && !AsItself(y[0], safe)
    ensures EscapeSigns(x, safe) != EscapeSigns(y, safe)
  {
    hide Unambiguous;
    var code, tail := CodeOf(y[0].value), EscapeSigns(y[1..], safe);
    var front := [x[0].value] + EscapeSigns(x[1..], safe);
    if front == code + tail {
      assert front[0] == PERCENT && front[1..] == code[1..] + tail;
      PercentIsNoCode(x[1..], y[0], tail, safe, strict);
      assert false;
    }
  }

  /**
    * Escaping is a normal form, by which two components become equal exactly when they mean the same, if and only if
    * it writes no two bytes the same way.
    */
  lemma EscapeIsCanonicalIff(safe: CharacterClass, strict: bool)
    ensures (forall s, t ::
               Escaped(s, safe, strict) == Escaped(t, safe, strict)
               <==> Meaning(s, safe, strict) == Meaning(t, safe, strict))
            <==> Unambiguous(safe, strict)
  {
    hide Escaped, Meaning, EscapeSigns, StaysCoded, EscapeToken, AllProper;
    if Unambiguous(safe, strict) {
      forall s, t
        ensures Escaped(s, safe, strict) == Escaped(t, safe, strict)
                <==> Meaning(s, safe, strict) == Meaning(t, safe, strict)
      {
        EscapedIsOfTheMeaning(s, safe, strict);
        EscapedIsOfTheMeaning(t, safe, strict);
        MeaningIsProper(s, safe, strict);
        MeaningIsProper(t, safe, strict);
        if Escaped(s, safe, strict) == Escaped(t, safe, strict) {
          EscapeSignsIsInjective(Meaning(s, safe, strict), Meaning(t, safe, strict), safe, strict);
        }
      }
    } else {
      var a, b :| a in safe && b in safe && IsHex(a) && IsHex(b) && StaysCoded(a, b, safe, strict);
      StaysCodedIff(a, b, safe, strict);
      var s := DigitsAfterPercent(a, b, safe, strict);
      var t: Bytes := [PERCENT, a, b];
      MeaningLength(s, safe, strict);
      MeaningLength(t, safe, strict);
      assert Escaped(s, safe, strict) == Escaped(t, safe, strict) && |Unescaped(s)| != |Unescaped(t)|;
    }
  }

  lemma {:induction false} MeaningLength(s: Bytes, safe: CharacterClass, strict: bool)
    ensures |Meaning(s, safe, strict)| == |Unescaped(s)|
    decreases |s|
  {
    if s != [] {
      MeaningLength(s[Width(TokenAt(s))..], safe, strict);
    }
  }

  lemma SameMeaningIsSameValue(s: Bytes, t: Bytes, safe: CharacterClass)
    ensures Meaning(s, safe, false) == Meaning(t, safe, false) <==> Unescaped(s) == Unescaped(t)
  {
    hide Unescaped, Meaning;
    MeaningIsValue(s, safe);
    MeaningIsValue(t, safe);
    var x, y := Meaning(s, safe, false), Meaning(t, safe, false);
    if x == y {
      assert forall k :: 0 <= k < |Unescaped(s)| ==> x[k].value == Unescaped(s)[k] && y[k].value == Unescaped(t)[k];
    }
  }

  /** Outside strict mode: two components become equal exactly when they unescape to the same bytes. */
  lemma PlainEscapeIsCanonicalIff(safe: CharacterClass)
    ensures (forall s, t :: Escaped(s, safe, false) == Escaped(t, safe, false) <==> Unescaped(s) == Unescaped(t))
            <==> Unambiguous(safe, false)
  {
    hide Escaped, Unescaped, Meaning, Unambiguous;
    EscapeIsCanonicalIff(safe, false);
    forall s, t
      ensures Meaning(s, safe, false) == Meaning(t, safe, false) <==> Unescaped(s) == Unescaped(t)
    {
      SameMeaningIsSameValue(s, t, safe);
    }
    if forall s, t :: Escaped(s, safe, false) == Escaped(t, safe, false) <==> Unescaped(s) == Unescaped(t) {
      assert forall s, t ::
        Escaped(s, safe, false) == Escaped(t, safe, false) <==> Meaning(s, safe, false) == Meaning(t, safe, false);
    }
  }

  lemma {:induction false} EscapeLength(s: Bytes, safe: CharacterClass, strict: bool)
    ensures |Escaped(s, safe, strict)| <= 3 * |s| && |Unescaped(s)| <= |s|
    decreases |s|
  {
    if s != [] {
      EscapeLength(s[Width(TokenAt(s))..], safe, strict);
    }
  }

  // ---------- In place ----------

  /** `HEX_TO_DEC[copy[i]]`, where the byte after the last one is the string's NUL. */
  function HexAt(copy: array<byte>, i: nat): (d: int)
    requires i <= copy.Length
    reads copy
  {
    if i < copy.Length then HexDigit(copy[i]) else -1
  }

  /** `unescape`: the new text is written over the old one; returns its length. */
  method Unescape(str: array<byte>) returns (dest: nat)
    modifies str
    ensures dest <= str.Length && str[..dest] == Unescaped(old(str[..]))
  {
    hide Value, HexDigit, Width, Unescaped, TokenAt;
    var copy := new byte[str.Length](i requires 0 <= i < str.Length reads str => str[i]);
    ghost var s := copy[..];
    assert s == str[..] && s[0..] == s && |s| == copy.Length;
    var src := 0;
    dest := 0;
    while src < copy.Length
      invariant dest <= src <= copy.Length
      invariant forall k :: 0 <= k < |s| ==> copy[k] == s[k]
      invariant str[..dest] + Unescaped(s[src..]) == Unescaped(s)
    {
      ghost var rest := s[src..];
      UnescapeStep(str[..dest], rest);
      var c := copy[src];
      if copy[src] == PERCENT && copy.Length - src >= 2 && HexAt(copy, src + 1) != -1 && HexAt(copy, src + 2) != -1 {
        CodeAt(rest);
        c := HexAt(copy, src + 1) * 16 + HexAt(copy, src + 2);
        src := src + 2;
      } else {
        PlainAt(rest);
      }
      PutAt(str, dest, c);
      src := src + 1;
      dest := dest + 1;
    }
    NothingToUnescape(s, src);
  }

  method PutAt(out: array<byte>, at: nat, c: byte)
    requires at < out.Length
    modifies out
    ensures out[..at + 1] == old(out[..at]) + [c]
  {
    out[at] := c;
  }

  lemma NothingToUnescape(s: Bytes, i: nat)
    requires i == |s|
    ensures Unescaped(s[i..]) == []
  {
  }

  method PutCode(out: array<byte>, at: nat, a: byte, b: byte, c: byte) returns (dest: nat)
    requires at + 3 <= out.Length
    modifies out
    ensures dest == at + 3 && out[..dest] == old(out[..at]) + [a, b, c]
  {
    out[at], out[at + 1], out[at + 2] := a, b, c;
    dest := at + 3;
  }

  /** Writes one byte, escaped if it is not safe. */
  method PutByte(out: array<byte>, at: nat, c: byte, safe: CharacterClass) returns (dest: nat)
    requires at + 3 <= out.Length
    modifies out
    ensures at < dest <= at + 3 && out[..dest] == old(out[..at]) + EscapeByte(c, safe)
  {
    hide UpperHex;
    if c !in safe {
      dest := PutCode(out, at, PERCENT, UpperHex(c / 16), UpperHex(c % 16));
    } else {
      out[at] := c;
      dest := at + 1;
    }
  }

  /** `escape`: three bytes for every byte are always room enough. */
  method Escape(str: Bytes, safe: CharacterClass, strict: bool) returns (r: Bytes)
    ensures r == Escaped(str, safe, strict)
  {
    hide Value, HexDigit, Width, EscapeByte, Escaped, EscapeToken, RESERVED;
    var copy := new byte[|str|](i requires 0 <= i < |str| => str[i]);
    var out := new byte[|str| * 3];
    var src, dest := 0, 0;
    assert str[0..] == str && out[..0] == [];
    while src < copy.Length
      invariant src <= copy.Length && dest <= 3 * src
      invariant forall k :: src <= k < |str| ==> copy[k] == str[k]
      invariant out[..dest] + Escaped(str[src..], safe, strict) == Escaped(str, safe, strict)
    {
      ghost var rest := str[src..];
      EscapeStep(out[..dest], rest, safe, strict);
      if copy[src] == PERCENT && copy.Length - src >= 2 && HexAt(copy, src + 1) != -1 && HexAt(copy, src + 2) != -1 {
        CodeAt(rest);
        var value: byte := HexAt(copy, src + 1) * 16 + HexAt(copy, src + 2);
        KeptCode(rest, safe, strict);
        if !strict || (strict && value in safe && value !in RESERVED) {
          src := src + 2;
          copy[src] := value;
        } else {
          dest := PutCode(out, dest, copy[src], ToUpper(copy[src + 1]), ToUpper(copy[src + 2]));
          src := src + 3;
          continue;
        }
      } else {
        PlainAt(rest);
        KeptPlain(rest, safe, strict);
      }
      dest := PutByte(out, dest, copy[src], safe);
      src := src + 1;
    }
    NothingLeft(str, src, safe, strict);
    r := out[..dest];
  }

  lemma NothingLeft(s: Bytes, i: nat, safe: CharacterClass, strict: bool)
    requires i == |s|
    ensures Escaped(s[i..], safe, strict) == []
  {
  }

  lemma EscapeStep(done: Bytes, rest: Bytes, safe: CharacterClass, strict: bool)
    requires rest != []
    ensures done + Escaped(rest, safe, strict)
            == (done + EscapeToken(TokenAt(rest), safe, strict)) + Escaped(rest[Width(TokenAt(rest))..], safe, strict)
  {
  }

  lemma KeptCode(s: Bytes, safe: CharacterClass, strict: bool)
    requires s != [] && TokenAt(s).Code?
    ensures
      var t := TokenAt(s);
      var kept := !(!strict || (Value(t) in safe && Value(t) !in RESERVED));
      EscapeToken(t, safe, strict) == if kept then [s[0], ToUpper(s[1]), ToUpper(s[2])] else EscapeByte(Value(t), safe)
  {
  }

  lemma KeptPlain(s: Bytes, safe: CharacterClass, strict: bool)
    requires s != [] && TokenAt(s).Plain?
    ensures EscapeToken(TokenAt(s), safe, strict) == EscapeByte(s[0], safe)
  {
  }

  lemma UnescapeStep(done: Bytes, rest: Bytes)
    requires rest != []
    ensures done + Unescaped(rest) == (done + [Value(TokenAt(rest))]) + Unescaped(rest[Width(TokenAt(rest))..])
  {
  }

  lemma CodeAt(s: Bytes)
    requires |s| >= 3 && s[0] == PERCENT && HexDigit(s[1]) != -1 && HexDigit(s[2]) != -1
    ensures TokenAt(s) == Code(s[1], s[2]) && Width(TokenAt(s)) == 3
    ensures Value(TokenAt(s)) == HexDigit(s[1]) * 16 + HexDigit(s[2])
  {
  }

  lemma PlainAt(s: Bytes)
    requires s != [] && !(|s| >= 3 && s[0] == PERCENT && HexDigit(s[1]) != -1 && HexDigit(s[2]) != -1)
    ensures TokenAt(s) == Plain(s[0]) && Width(TokenAt(s)) == 1 && Value(TokenAt(s)) == s[0]
  {
  }
}
