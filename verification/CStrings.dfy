/** The C library functions on strings that the HTTP code uses. */
module CStrings {
  import opened Basics

  const CR: byte := 13
  const LF: byte := 10
  const SPACE: byte := 32
  const TAB: byte := 9
  const COLON: byte := 58
  const CRLF: Bytes := [13, 10]

  /** What a `const char*` to the bytes of s shows: everything before the first NUL. */
  function CStr(s: Bytes): (r: Bytes)
    ensures |r| <= |s| && 0 !in r
  {
    if s == [] || s[0] == 0 then [] else [s[0]] + CStr(s[1..])
  }

  lemma {:induction false} CStrOfNulFree(s: Bytes)
    requires 0 !in s
    ensures CStr(s) == s
  {
    if s != [] {
      assert s == [s[0]] + s[1..];
      CStrOfNulFree(s[1..]);
    }
  }

  predicate IsSpace(c: byte) {
    c == SPACE || 9 <= c <= 13
  }

  function ToLower(c: byte): byte {
    if 65 <= c <= 90 then c + 32 else c
  }

  function Lower(s: Bytes): (r: Bytes)
    ensures |r| == |s| && forall k :: 0 <= k < |s| ==> r[k] == ToLower(s[k])
  {
    seq(|s|, k requires 0 <= k < |s| => ToLower(s[k]))
  }

  // ---------- Numbers ----------

  function SkipSpace(s: Bytes): (r: Bytes)
    ensures |r| <= |s|
  {
    if s != [] && IsSpace(s[0]) then SkipSpace(s[1..]) else s
  }

  /** The digit's value, or -1. */
  function HexDigit(c: byte): (d: int)
    ensures -1 <= d < 16
  {
    if 48 <= c <= 57 then c - 48
    else if 65 <= c <= 70 then c - 55
    else if 97 <= c <= 102 then c - 87
    else -1
  }

  function DigitRun(s: Bytes, base: nat, acc: nat): nat
    requires base == 10 || base == 16
  {
    if s == [] || !(0 <= HexDigit(s[0]) < base) then acc else DigitRun(s[1..], base, acc * base + HexDigit(s[0]))
  }

  function DropSign(s: Bytes): Bytes {
    if s != [] && (s[0] == 43 || s[0] == 45) then s[1..] else s
  }

  /** A leading "0x", when a digit follows it. */
  function DropPrefix(s: Bytes): Bytes {
    if |s| >= 3 && s[0] == 48 && (s[1] == 120 || s[1] == 88) && HexDigit(s[2]) != -1 then s[2..] else s
  }

  function Signed(s: Bytes, n: int): int {
    if s != [] && s[0] == 45 then -n else n
  }

  /** `strtol(s, NULL, 16)`, or None when there is nothing to convert; no bound is put on the value. */
  function StrToL16(s: Bytes): Option<int> {
    var t := SkipSpace(s);
    var u := DropPrefix(DropSign(t));
    if u == [] || HexDigit(u[0]) == -1 then None else Some(Signed(t, DigitRun(u, 16, 0)))
  }

  /** `atoi(s)`, without a bound on the value. */
  function AToI(s: Bytes): int {
    var t := SkipSpace(s);
    Signed(t, DigitRun(DropSign(t), 10, 0))
  }

  // ---------- Hexadecimal output ----------

  function HexChar(d: nat): (c: byte)
    requires d < 16
    ensures HexDigit(c) == d
  {
    if d < 10 then 48 + d else 87 + d
  }

  function Hex(n: nat): (s: Bytes)
    ensures |s| > 0
  {
    (if n < 16 then [] else Hex(n / 16)) + [HexChar(n % 16)]
  }

  /** httplib's `from_i_to_hex`: prepend digits, least significant first. */
  method FromIToHex(n0: nat) returns (ret: Bytes)
    ensures ret == Hex(n0)
  {
    var n := n0;
    ret := [HexChar(n % 16)];
    n := n / 16;
    while n > 0
      invariant n >= 0 && Hex(n0) == (if n > 0 then Hex(n) else []) + ret
    {
      ret := [HexChar(n % 16)] + ret;
      n := n / 16;
    }
  }

  lemma {:induction false} HexRun(n: nat, tail: Bytes)
    ensures DigitRun(Hex(n) + tail, 16, 0) == DigitRun(tail, 16, n)
    decreases n
  {
    var last := [HexChar(n % 16)] + tail;
    assert last[1..] == tail;
    if n < 16 {
      assert Hex(n) + tail == last;
    } else {
      assert Hex(n) + tail == Hex(n / 16) + last;
      HexRun(n / 16, last);
    }
  }

  lemma {:induction false} HexDigitsOnly(n: nat)
    ensures forall k :: 0 <= k < |Hex(n)| ==> HexDigit(Hex(n)[k]) != -1
    decreases n
  {
    if n >= 16 {
      HexDigitsOnly(n / 16);
    }
  }

  /** Reading back a hexadecimal number that is followed by no digit and no "x". */
  lemma HexParses(n: nat, tail: Bytes)
    requires tail == [] || (HexDigit(tail[0]) == -1 && tail[0] != 120 && tail[0] != 88)
    ensures StrToL16(Hex(n) + tail) == Some(n)
  {
    var s := Hex(n) + tail;
    HexDigitsOnly(n);
    HexRun(n, tail);
    assert s[0] == Hex(n)[0] && HexDigit(s[0]) != -1;
    assert SkipSpace(s) == s && DropSign(s) == s;
    if |s| >= 2 {
      assert s[1] == if |Hex(n)| >= 2 then Hex(n)[1] else tail[0];
    }
    assert DropPrefix(s) == s;
  }
}
