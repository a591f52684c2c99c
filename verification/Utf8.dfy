/**
  * UTF-8 (section 3 of RFC 3629) as the URL library reads and writes it.
  *
  * Masks and shifts of unsigned values are written as arithmetic: `x & 0x3F` is x % 64, `x >> 6` is x / 64,
  * a shift left inside 32 bits is a product modulo 2^32, and `a | b` on disjoint bits is a + b.
  */
module Utf8 {
  import opened Basics

  const MAX_CODEPOINT := 0x10FFFF

  datatype Utf8Error =
    | LowStartByte
    | HighStartByte
    | TerminatedEarly
    | InvalidContinuation
    | CodePointTooHigh

  /** `b & 0x3F`. */
  function Low6(b: byte): nat {
    b % 64
  }

  // ---------- Reading ----------

  /** Take `count` continuation bytes, six bits each. */
  function Continue(s: Bytes, count: nat, value: nat): (r: Result<(nat, Bytes), Utf8Error>)
    ensures r.Success? ==> |r.value.1| == |s| - count && r.value.1 == s[count..]
    decreases count
  {
    if count == 0 then Success((value, s))
    else if s == [] then Failure(TerminatedEarly)
    else if s[0] / 64 != 2 then Failure(InvalidContinuation)
    else Continue(s[1..], count - 1, value * 64 + Low6(s[0]))
  }

  /** The first code point of a nonempty string, and the bytes after it. */
  function ReadFirst(s: Bytes): (r: Result<(nat, Bytes), Utf8Error>)
    requires s != []
    ensures r.Success? ==> |r.value.1| < |s| && r.value.1 == s[|s| - |r.value.1|..]
  {
    if s[0] < 0x80 then Success((s[0], s[1..]))
    else if s[0] < 0xC0 then Failure(LowStartByte)
    else if s[0] < 0xE0 then Continue(s[1..], 1, s[0] % 32)
    else if s[0] < 0xF0 then Continue(s[1..], 2, s[0] % 16)
    else if s[0] < 0xF8 then Continue(s[1..], 3, s[0] % 8)
    else Failure(HighStartByte)
  }

  function ReadAll(s: Bytes): (r: Result<seq<nat>, Utf8Error>)
    decreases |s|
  {
    if s == [] then Success([])
    else
      match ReadFirst(s)
      case Failure(e) => Failure(e)
      case Success((value, rest)) =>
        match ReadAll(rest)
        case Failure(e) => Failure(e)
        case Success(values) => Success([value] + values)
  }

  /** The iterator version: reads at `start` and says where the next code point begins. */
  method ReadCodepoint(s: Bytes, start: nat) returns (r: Result<nat, Utf8Error>, it: nat)
    requires start < |s|
    ensures match ReadFirst(s[start..])
            case Failure(e) => r == Failure(e)
            case Success((value, rest)) => r == Success(value) && it <= |s| && s[it..] == rest && it > start
  {
    var current := s[start];
    assert s[start..][0] == current && s[start..][1..] == s[start + 1..];
    it := start + 1;
    if current < 0x80 {
      return Success(current), it;
    }
    var count: nat, result: uint32;
    if current < 0xC0 {
      return Failure(LowStartByte), it;
    } else if current < 0xE0 {
      count, result := 1, current % 32;
    } else if current < 0xF0 {
      count, result := 2, current % 16;
    } else if current < 0xF8 {
      count, result := 3, current % 8;
    } else {
      return Failure(HighStartByte), it;
    }
    assert ReadFirst(s[start..]) == Continue(s[it..], count, result);
    r, it := ReadContinuation(s, it, count, result);
  }

  /** The loop of the reader: `count` more bytes, six bits of each. */
  method ReadContinuation(s: Bytes, start: nat, count0: nat, result0: uint32)
    returns (r: Result<nat, Utf8Error>, it: nat)
    requires start <= |s| && count0 <= 3 && ContinuationFits(count0, result0)
    ensures match Continue(s[start..], count0, result0)
            case Failure(e) => r == Failure(e)
            case Success((value, rest)) => r == Success(value) && start <= it <= |s| && s[it..] == rest
  {
    var count: nat, result: uint32 := count0, result0;
    it := start;
    while count > 0
      invariant start <= it <= |s| && count <= 3 && ContinuationFits(count, result)
      invariant Continue(s[start..], count0, result0) == Continue(s[it..], count, result)
      decreases count
    {
      if it == |s| {
        assert s[it..] == [];
        return Failure(TerminatedEarly), it;
      }
      var current := s[it];
      assert s[it..][0] == current && s[it..][1..] == s[it + 1..];
      it := it + 1;
      if current / 64 != 2 {
        return Failure(InvalidContinuation), it;
      }
      result := result * 64 + Low6(current);
      count := count - 1;
    }
    return Success(result), it;
  }

  /** No bit of a value that still expects `count` sextets is shifted out of 32 bits. */
  predicate ContinuationFits(count: nat, value: nat) {
    value < (if count == 3 then 8 else if count == 2 then 0x200 else if count == 1 then 0x8000 else 0x20_0000)
  }

  // ---------- Writing ----------

  function Width(v: nat): nat {
    if v <= 0x7F then 1 else if v <= 0x7FF then 2 else if v <= 0xFFFF then 3 else 4
  }

  /** The table of RFC 3629: a code point's only shortest form. */
  function Form(v: nat): (s: Bytes)
    requires v <= MAX_CODEPOINT
    ensures |s| == Width(v)
  {
    if v <= 0x7F then [v]
    else if v <= 0x7FF then [0xC0 + v / 64, 0x80 + v % 64]
    else if v <= 0xFFFF then [0xE0 + v / 4096, 0x80 + v / 64 % 64, 0x80 + v % 64]
    else [0xF0 + v / 0x40000, 0x80 + v / 4096 % 64, 0x80 + v / 64 % 64, 0x80 + v % 64]
  }

  function WriteAll(values: seq<nat>): (r: Result<Bytes, Utf8Error>) {
    if values == [] then Success([])
    else if values[0] > MAX_CODEPOINT then Failure(CodePointTooHigh)
    else
      match WriteAll(values[1..])
      case Failure(e) => Failure(e)
      case Success(s) => Success(Form(values[0]) + s)
  }

  /** The writer: the lead byte, then six bits at a time from the top of a 32-bit word. */
  method WriteCodepoint(str: Bytes, value0: uint32) returns (r: Result<Bytes, Utf8Error>)
    ensures r == if value0 > MAX_CODEPOINT then Failure(CodePointTooHigh) else Success(str + Form(value0))
  {
    if value0 > MAX_CODEPOINT {
      return Failure(CodePointTooHigh);
    } else if value0 <= 0x7F {
      return Success(str + [value0]);
    }
    var out := str;
    var value: uint32 := value0;
    var count: nat;
    if value > 0xFFFF {
      out := out + [value / 0x40000 % 8 + 0xF0];
      count := 3;
      value := value * 0x4000 % 0x1_0000_0000;
    } else if value > 0x7FF {
      out := out + [value / 0x1000 % 16 + 0xE0];
      count := 2;
      value := value * 0x10_0000 % 0x1_0000_0000;
    } else {
      out := out + [value / 64 % 32 + 0xC0];
      count := 1;
      value := value * 0x400_0000 % 0x1_0000_0000;
    }
    ShiftLeavesTail(value0, count);
    FormSplit(value0);
    assert out == str + [Lead(value0)];
    out := AppendContinuation(out, value, count, value0);
    assert out == str + ([Lead(value0)] + TailForm(value0, count));
    r := Success(out);
  }

  /** The loop of the writer: the top six bits of the word, `count` times. */
  method AppendContinuation(str: Bytes, word: uint32, count0: nat, ghost v: nat) returns (out: Bytes)
    requires count0 <= 3 && v <= MAX_CODEPOINT && word == Remaining(v, count0)
    ensures out == str + TailForm(v, count0)
  {
    var value: uint32, count: nat := word, count0;
    out := str;
    while count > 0
      invariant count <= count0 && value == Remaining(v, count)
      invariant out + TailForm(v, count) == str + TailForm(v, count0)
      decreases count
    {
      TopSixBits(v, count);
      out := out + [value / 0x400_0000 % 64 + 0x80];
      value := value * 64 % 0x1_0000_0000;
      count := count - 1;
    }
  }

  /** The sextet of v that has `count - 1` sextets after it. */
  function Sextet(v: nat, count: nat): (d: nat)
    ensures d < 64
  {
    if count == 3 then v / 4096 % 64 else if count == 2 then v / 64 % 64 else v % 64
  }

  /** The last `count` bytes of a form. */
  function TailForm(v: nat, count: nat): Bytes {
    if count == 0 then [] else [0x80 + Sextet(v, count)] + TailForm(v, count - 1)
  }

  /** The low 6 * count bits of v, moved to the top of a 32-bit word. */
  function Remaining(v: nat, count: nat): nat
    requires count <= 3
  {
    if count == 3 then v % 0x40000 * 0x4000
    else if count == 2 then v % 0x1000 * 0x10_0000
    else if count == 1 then v % 64 * 0x400_0000
    else 0
  }

  lemma FormSplit(v: nat)
    requires 0x7F < v <= MAX_CODEPOINT
    ensures Form(v) == [Lead(v)] + TailForm(v, Width(v) - 1)
  {
    TailFormUnrolled(v);
    LeadBits(v);
  }

  lemma TailFormUnrolled(v: nat)
    ensures TailForm(v, 1) == [0x80 + Sextet(v, 1)]
    ensures TailForm(v, 2) == [0x80 + Sextet(v, 2), 0x80 + Sextet(v, 1)]
    ensures TailForm(v, 3) == [0x80 + Sextet(v, 3), 0x80 + Sextet(v, 2), 0x80 + Sextet(v, 1)]
  {
    hide Sextet;
    var t0, t1, t2, t3 := TailForm(v, 0), TailForm(v, 1), TailForm(v, 2), TailForm(v, 3);
    assert t1 == [0x80 + Sextet(v, 1)] + t0;
    assert t2 == [0x80 + Sextet(v, 2)] + t1;
    assert t3 == [0x80 + Sextet(v, 3)] + t2;
  }

  /** Masking the lead bits drops nothing. */
  lemma LeadBits(v: nat)
    ensures v <= MAX_CODEPOINT ==> v / 0x40000 % 8 == v / 0x40000
    ensures v <= 0xFFFF ==> v / 0x1000 % 16 == v / 0x1000
    ensures v <= 0x7FF ==> v / 64 % 32 == v / 64
  {
  }

  /** The lead byte: the bits above the sextets, under the mark of the width. */
  function Lead(v: nat): byte
    requires 0x7F < v <= MAX_CODEPOINT
  {
    if v > 0xFFFF then v / 0x40000 % 8 + 0xF0
    else if v > 0x7FF then v / 0x1000 % 16 + 0xE0
    else v / 64 % 32 + 0xC0
  }

  /** The base-64 digits of a code point. */
  lemma Sextets(v: nat) returns (a: nat, b: nat, c: nat, d: nat)
    requires v < 0x100_0000
    ensures a < 64 && b < 64 && c < 64 && d < 64
    ensures v == a * 0x40000 + b * 0x1000 + c * 64 + d
    ensures v / 0x40000 == a && v / 0x1000 == a * 64 + b && v / 64 == a * 4096 + b * 64 + c
    ensures v / 0x1000 % 64 == b && v / 64 % 64 == c && v % 64 == d
    ensures v % 0x1000 == c * 64 + d && v % 0x40000 == b * 0x1000 + c * 64 + d
  {
    d := v % 64;
    var v1 := v / 64;
    c := v1 % 64;
    var v2 := v1 / 64;
    b := v2 % 64;
    a := v2 / 64;
    assert v2 == v / 0x1000 && a == v / 0x40000;
  }

  lemma ShiftLeavesTail(v: nat, count: nat)
    requires 1 <= count <= 3 && v <= MAX_CODEPOINT
    ensures Remaining(v, count)
            == v * (if count == 3 then 0x4000 else if count == 2 then 0x10_0000 else 0x400_0000) % 0x1_0000_0000
  {
    var a, b, c, d := Sextets(v);
  }

  lemma TopSixBits(v: nat, count: nat)
    requires 1 <= count <= 3 && v <= MAX_CODEPOINT
    ensures Remaining(v, count) / 0x400_0000 == Sextet(v, count)
    ensures Remaining(v, count) * 64 % 0x1_0000_0000 == Remaining(v, count - 1)
  {
    var a, b, c, d := Sextets(v);
  }

  // ---------- Reading and writing are inverse ----------

  predicate IsContinuation(b: byte) {
    b / 64 == 2
  }

  lemma ContinueOne(s: Bytes, value: nat)
    requires |s| >= 1 && IsContinuation(s[0])
    ensures Continue(s, 1, value) == Success((value * 64 + Low6(s[0]), s[1..]))
  {
  }

  lemma ContinueTwo(s: Bytes, value: nat)
    requires |s| >= 2 && IsContinuation(s[0]) && IsContinuation(s[1])
    ensures Continue(s, 2, value) == Success((value * 4096 + Low6(s[0]) * 64 + Low6(s[1]), s[2..]))
  {
    ContinueOne(s[1..], value * 64 + Low6(s[0]));
  }

  lemma ContinueThree(s: Bytes, value: nat)
    requires |s| >= 3 && IsContinuation(s[0]) && IsContinuation(s[1]) && IsContinuation(s[2])
    ensures Continue(s, 3, value)
            == Success((value * 0x40000 + Low6(s[0]) * 4096 + Low6(s[1]) * 64 + Low6(s[2]), s[3..]))
  {
    ContinueTwo(s[1..], value * 64 + Low6(s[0]));
  }

  /** The forms in base-64 digits. */
  lemma FormTwo(v: nat, c: nat, d: nat)
    requires v == c * 64 + d && d < 64 && 0x7F < v <= 0x7FF
    ensures Form(v) == [0xC0 + c, 0x80 + d]
  {
    assert v / 64 == c && v % 64 == d;
  }

  lemma FormThree(v: nat, b: nat, c: nat, d: nat)
    requires v == b * 0x1000 + c * 64 + d && c < 64 && d < 64 && 0x7FF < v <= 0xFFFF
    ensures Form(v) == [0xE0 + b, 0x80 + c, 0x80 + d]
  {
    assert v / 64 == b * 64 + c && v % 64 == d;
    assert v / 0x1000 == b && v / 64 % 64 == c;
  }

  lemma FormFour(v: nat, a: nat, b: nat, c: nat, d: nat)
    requires v == a * 0x40000 + b * 0x1000 + c * 64 + d && b < 64 && c < 64 && d < 64 && 0xFFFF < v <= MAX_CODEPOINT
    ensures Form(v) == [0xF0 + a, 0x80 + b, 0x80 + c, 0x80 + d]
  {
    assert v / 64 == a * 4096 + b * 64 + c && v % 64 == d;
    assert v / 0x1000 == a * 64 + b && v / 64 % 64 == c;
    assert v / 0x40000 == a && v / 0x1000 % 64 == b;
  }

  lemma ReadTwo(c: nat, d: nat, rest: Bytes)
    requires c < 32 && d < 64
    ensures ReadFirst([0xC0 + c, 0x80 + d] + rest) == Success((c * 64 + d, rest))
  {
    var s: Bytes := [0xC0 + c, 0x80 + d] + rest;
    assert s[1..] == [0x80 + d] + rest && s[1..][1..] == rest;
    assert Low6(0x80 + d) == d;
    ContinueOne(s[1..], c);
  }

  lemma ReadThree(b: nat, c: nat, d: nat, rest: Bytes)
    requires b < 16 && c < 64 && d < 64
    ensures ReadFirst([0xE0 + b, 0x80 + c, 0x80 + d] + rest) == Success((b * 0x1000 + c * 64 + d, rest))
  {
    var s: Bytes := [0xE0 + b, 0x80 + c, 0x80 + d] + rest;
    assert s[1..] == [0x80 + c, 0x80 + d] + rest && s[1..][2..] == rest;
    assert Low6(0x80 + c) == c && Low6(0x80 + d) == d;
    ContinueTwo(s[1..], b);
  }

  lemma ReadFour(a: nat, b: nat, c: nat, d: nat, rest: Bytes)
    requires a < 8 && b < 64 && c < 64 && d < 64
    ensures ReadFirst([0xF0 + a, 0x80 + b, 0x80 + c, 0x80 + d] + rest)
            == Success((a * 0x40000 + b * 0x1000 + c * 64 + d, rest))
  {
    var s: Bytes := [0xF0 + a, 0x80 + b, 0x80 + c, 0x80 + d] + rest;
    assert s[1..] == [0x80 + b, 0x80 + c, 0x80 + d] + rest && s[1..][3..] == rest;
    assert Low6(0x80 + b) == b && Low6(0x80 + c) == c && Low6(0x80 + d) == d;
    ContinueThree(s[1..], a);
  }

  lemma ReadOfForm(v: nat, rest: Bytes)
    requires v <= MAX_CODEPOINT
    ensures Form(v) + rest != [] && ReadFirst(Form(v) + rest) == Success((v, rest))
  {
    if v <= 0x7F {
      assert ([v] + rest)[1..] == rest;
    } else {
      hide ReadFirst, Form;
      var a, b, c, d := Sextets(v);
      if v <= 0x7FF {
        FormTwo(v, c, d);
        ReadTwo(c, d, rest);
      } else if v <= 0xFFFF {
        FormThree(v, b, c, d);
        ReadThree(b, c, d, rest);
      } else {
        FormFour(v, a, b, c, d);
        ReadFour(a, b, c, d, rest);
      }
    }
  }

  lemma ReadAllPrepend(v: nat, tail: Bytes, values: seq<nat>)
    requires v <= MAX_CODEPOINT && ReadAll(tail) == Success(values)
    ensures ReadAll(Form(v) + tail) == Success([v] + values)
  {
    ReadOfForm(v, tail);
  }

  /** Writing any code points and reading them back returns exactly those, and consumes every byte. */
  lemma {:induction false} ReadAllOfWriteAll(values: seq<nat>)
    requires forall k :: 0 <= k < |values| ==> values[k] <= MAX_CODEPOINT
    ensures WriteAll(values).Success? && ReadAll(WriteAll(values).value) == Success(values)
  {
    if values != [] {
      ReadAllOfWriteAll(values[1..]);
      ReadAllPrepend(values[0], WriteAll(values[1..]).value, values[1..]);
      assert [values[0]] + values[1..] == values;
    }
  }

  /** Every code point in range, none written with more bytes than it needs. */
  predicate ShortestForm(s: Bytes)
    decreases |s|
  {
    s == []
    || (ReadFirst(s).Success?
        && var (value, rest) := ReadFirst(s).value;
           value <= MAX_CODEPOINT && |s| - |rest| == Width(value) && ShortestForm(rest))
  }

  lemma SuccessfulContinue(s: Bytes, count: nat, value: nat)
    requires count <= 3 && Continue(s, count, value).Success?
    ensures |s| >= count && forall k :: 0 <= k < count ==> IsContinuation(s[k])
  {
  }

  /** A sequence of two to four bytes that reads successfully, in base-64 digits. */
  lemma ReadSextets(s: Bytes) returns (a: nat, b: nat, c: nat, d: nat)
    requires s != [] && s[0] >= 0x80 && ReadFirst(s).Success?
    ensures a < 8 && b < 64 && c < 64 && d < 64
    ensures ReadFirst(s).value.0 == a * 0x40000 + b * 0x1000 + c * 64 + d
    ensures var rest := ReadFirst(s).value.1;
      || (a == b == 0 && c < 32 && s == [0xC0 + c, 0x80 + d] + rest)
      || (a == 0 && b < 16 && s == [0xE0 + b, 0x80 + c, 0x80 + d] + rest)
      || s == [0xF0 + a, 0x80 + b, 0x80 + c, 0x80 + d] + rest
  {
    var rest := ReadFirst(s).value.1;
    a, b, c := 0, 0, 0;
    if s[0] < 0xE0 {
      SuccessfulContinue(s[1..], 1, s[0] % 32);
      ContinueOne(s[1..], s[0] % 32);
      assert IsContinuation(s[1]);
      c, d := s[0] - 0xC0, s[1] - 0x80;
      assert s == [s[0], s[1]] + rest;
    } else if s[0] < 0xF0 {
      SuccessfulContinue(s[1..], 2, s[0] % 16);
      ContinueTwo(s[1..], s[0] % 16);
      assert IsContinuation(s[1]) && IsContinuation(s[2]);
      b, c, d := s[0] - 0xE0, s[1] - 0x80, s[2] - 0x80;
      assert s == [s[0], s[1], s[2]] + rest;
    } else {
      SuccessfulContinue(s[1..], 3, s[0] % 8);
      ContinueThree(s[1..], s[0] % 8);
      assert IsContinuation(s[1]) && IsContinuation(s[2]) && IsContinuation(s[3]);
      a, b, c, d := s[0] - 0xF0, s[1] - 0x80, s[2] - 0x80, s[3] - 0x80;
      assert s == [s[0], s[1], s[2], s[3]] + rest;
    }
  }

  /** A sequence of the right width is the form of its value. */
  lemma FormOfRead(s: Bytes)
    requires s != [] && ReadFirst(s).Success?
    requires ReadFirst(s).value.0 <= MAX_CODEPOINT
    requires |s| - |ReadFirst(s).value.1| == Width(ReadFirst(s).value.0)
    ensures s == Form(ReadFirst(s).value.0) + ReadFirst(s).value.1
  {
    if s[0] >= 0x80 {
      hide ReadFirst, Form;
      var v := ReadFirst(s).value.0;
      var a, b, c, d := ReadSextets(s);
      if Width(v) == 2 {
        FormTwo(v, c, d);
      } else if Width(v) == 3 {
        FormThree(v, b, c, d);
      } else if Width(v) == 4 {
        FormFour(v, a, b, c, d);
      }
    }
  }

  /** Re-writing what was read restores the bytes exactly when they were in shortest form. */
  lemma {:induction false} WriteAllOfReadAll(s: Bytes)
    ensures ShortestForm(s) <==> ReadAll(s).Success? && WriteAll(ReadAll(s).value) == Success(s)
    decreases |s|
  {
    if s != [] && ReadFirst(s).Success? {
      var (value, rest) := ReadFirst(s).value;
      WriteAllOfReadAll(rest);
      if ReadAll(s).Success? && value <= MAX_CODEPOINT {
        var values := ReadAll(rest).value;
        assert ReadAll(s).value[0] == value && ReadAll(s).value[1..] == values;
        if ShortestForm(s) {
          FormOfRead(s);
        } else if WriteAll(ReadAll(s).value) == Success(s) {
          ReadOfForm(value, WriteAll(values).value);
          assert false;
        }
      }
    }
  }

  /** The reader never yields more than 21 bits. */
  lemma {:induction false} ReadAllBound(s: Bytes)
    requires ReadAll(s).Success?
    ensures |ReadAll(s).value| <= |s|
    ensures forall k :: 0 <= k < |ReadAll(s).value| ==> ReadAll(s).value[k] < 0x20_0000
    decreases |s|
  {
    if s != [] {
      var (value, rest) := ReadFirst(s).value;
      ReadFirstBound(s);
      ReadAllBound(rest);
    }
  }

  lemma ReadFirstBound(s: Bytes)
    requires s != [] && ReadFirst(s).Success?
    ensures ReadFirst(s).value.0 < 0x20_0000
  {
    if s[0] >= 0x80 {
      var a, b, c, d := ReadSextets(s);
    }
  }
}
