/** `Punycode::encode` and `Punycode::decode` on bytes: the loops, on 32-bit words, and the laws they obey. */
module PunycodeCodec {
  import opened Basics
  import opened Arithmetic
  import opened Utf8
  import opened PunycodeDigits
  import opened PunycodeStates
  import opened Punycode
  import opened PunycodePositions

  // ---------- What the two functions compute ----------

  ghost function Encoded(str: Bytes): Result<Bytes, Error> {
    match ReadAll(str)
    case Failure(e) => Failure(Utf8(e))
    case Success(cps) => EncodePoints(cps)
  }

  function Decoded(str: Bytes): Result<Bytes, Error> {
    match DecodePoints(str)
    case Failure(e) => Failure(e)
    case Success(cps) =>
      match WriteAll(cps)
      case Failure(e) => Failure(Utf8(e))
      case Success(s) => Success(s)
  }

  /**
    * decode(encode(s)) == s exactly when s is shortest-form UTF-8 and no insertion position passes 32 bits.
    */
  lemma DecodeUndoesEncodeBytes(s: Bytes)
    ensures Encoded(s).Success? && Decoded(Encoded(s).value) == Success(s)
            <==> ShortestForm(s) && ReadAll(s).Success? && PositionsFit(ReadAll(s).value)
  {
    WriteAllOfReadAll(s);
    if ReadAll(s).Success? {
      ReadAllBound(s);
      DecodeOfEncodePoints(ReadAll(s).value);
      DecodableIsPositionsFit(ReadAll(s).value);
    }
  }

  /** encode(decode(s)) == s for every decodable s without capitals after its last delimiter. */
  lemma EncodeUndoesDecodeBytes(s: Bytes)
    requires Decoded(s).Success? && NoUpper(Extended(s))
    ensures Encoded(Decoded(s).value) == Success(s)
  {
    var cps := DecodePoints(s).value;
    WriteAllInRange(cps);
    ReadAllOfWriteAll(cps);
    EncodeUndoesDecode(s);
  }

  lemma {:induction false} WriteAllInRange(values: seq<nat>)
    requires WriteAll(values).Success?
    ensures forall k :: 0 <= k < |values| ==> values[k] <= MAX_CODEPOINT
  {
    if values != [] {
      WriteAllInRange(values[1..]);
      assert forall k :: 1 <= k < |values| ==> values[k] == values[1..][k - 1];
    }
  }

  // ---------- decode ----------

  /** Bounds on w and k that hold whenever the decoder is about to read a digit. */
  predicate WeightBounds(w: nat, k: nat) {
    && k % BASE == 0 && k >= BASE
    && (k == 36 ==> w == 1) && (k == 72 ==> 10 <= w <= 35) && (k == 108 ==> 100 <= w <= 1225)
    && (k == 144 ==> w <= 42875) && (k == 180 ==> w <= 1500625) && (k == 216 ==> w <= 52521875)
    && (k >= 144 ==> w >= 2 * k)
  }

  /** The author's remark at "Overflow on w", proved: the check on i has already failed by then. */
  lemma WeightFits(i: uint32, digit: nat, w: uint32, k: nat, bias: nat)
    requires WeightBounds(w, k) && bias <= 204
    requires Threshold(k, bias) <= digit < BASE && digit * w <= MAX_UINT32 - i
    ensures w * (BASE - Threshold(k, bias)) <= MAX_UINT32
    ensures WeightBounds(w * (BASE - Threshold(k, bias)), k + BASE)
  {
    var t := Threshold(k, bias);
    MulMonotone(t, digit, w);
    MulCommutes(t, w);
    MulCommutes(BASE - t, w);
    MulMonotone(10, BASE - t, w);
    MulMonotone(BASE - t, 35, w);
    if k > 216 {
      assert t == 26;
    }
  }

  /** One generalized variable-length integer, added to i. */
  method DecodeDelta(str: Bytes, start: nat, i0: uint32, bias: uint32) returns (r: Result<uint32, Error>, it: nat)
    requires start < |str| && bias <= 204
    ensures r != Failure(OverflowOnW)
    ensures match ParseDelta(str[start..], i0, 1, BASE, bias)
            case Failure(e) => r == Failure(e)
            case Success((i, rest)) => r == Success(i) && start < it <= |str| && str[it..] == rest
  {
    var i: uint32, w: uint32, k: uint32 := i0, 1, BASE;
    it := start;
    while true
      invariant start <= it <= |str| && WeightBounds(w, k)
      invariant ParseDelta(str[start..], i0, 1, BASE, bias) == ParseDelta(str[it..], i, w, k, bias)
      decreases |str| - it
    {
      if it == |str| {
        return Failure(PrematureTermination), it;
      }
      assert str[it..][0] == str[it] && str[it..][1..] == str[it + 1..];
      var digit := BasicToDigit(str[it]);
      if digit == -1 {
        return Failure(InvalidDigit), it;
      }
      ExceedsQuotient(digit, MAX_UINT32 - i, w);
      if digit > (MAX_UINT32 - i) / w {
        return Failure(OverflowOnI), it;
      }
      i := i + digit * w;
      var t := Threshold(k, bias);
      if digit < t {
        return Success(i), it + 1;
      }
      WeightFits(i - digit * w, digit, w, k, bias);
      ExceedsQuotient(w, MAX_UINT32, BASE - t);
      if w > MAX_UINT32 / (BASE - t) {
        return Failure(OverflowOnW), it;
      }
      w := w * (BASE - t);
      k := k + BASE;
      it := it + 1;
    }
  }

  /** The overflow checks compare with a quotient; they mean the product. */
  lemma ExceedsQuotient(a: nat, room: nat, m: nat)
    requires m > 0
    ensures a > room / m <==> a * m > room
    ensures a * m >= 0
  {
    DivMod(room, m);
    QuotientAtMost(room, m);
    MulMonotone(0, a, m);
    if a > room / m {
      MulMonotone(room / m + 1, a, m);
      MulDistributes(room / m, 1, m);
    } else {
      MulMonotone(a, room / m, m);
    }
  }

  method Decode(str: Bytes) returns (r: Result<Bytes, Error>)
    requires |str| < MAX_UINT32
    ensures r == Decoded(str)
    ensures r != Failure(OverflowOnW)
  {
    var index := LastDelimiter(str);
    var codepoints: seq<uint32> := [];
    var it := 0;
    while it != index
      invariant 0 <= it <= index && codepoints == str[..it]
      invariant forall k :: 0 <= k < it ==> str[k] <= 127
    {
      if str[it] > 127 {
        return Failure(NonBasicCodePoint);
      }
      codepoints := codepoints + [str[it]];
      it := it + 1;
    }
    if index > 0 {
      index := index + 1;
    }
    assert str[index..] == Extended(str);
    var points := DecodeExtended(str, index, codepoints);
    if points.Failure? {
      return Failure(points.error);
    }
    r := WritePoints(points.value);
  }

  /** The variables of the main loop. */
  datatype DecoderVars = DecoderVars(n: uint32, i: uint32, bias: uint32, codepoints: seq<uint32>) {
    function View(): State {
      State(n, i, codepoints)
    }
  }

  /** The body of the main loop, up to the division: one number. Then divide i into n and a position, and insert. */
  method DecodeNext(str: Bytes, start: nat, v: DecoderVars) returns (r: Result<DecoderVars, Error>, it: nat)
    requires start < |str| && v.bias <= 204 && v.i <= |v.codepoints| && |v.codepoints| + 1 < MAX_UINT32
    ensures r != Failure(OverflowOnW)
    ensures match DecodeTurn(str[start..], v.View(), v.bias)
            case Failure(e) => r == Failure(e)
            case Success(turn) =>
              && r.Success? && r.value.View() == turn.s && r.value.bias == turn.bias <= 204
              && |r.value.codepoints| == |v.codepoints| + 1
              && start < it <= |str| && str[it..] == turn.rest
  {
    var DecoderVars(n, i, bias, codepoints) := v;
    var oldi := i;
    var delta, it' := DecodeDelta(str, start, i, bias);
    it := it';
    if delta.Failure? {
      return Failure(delta.error), it;
    }
    hide ParseDelta, Adapt;
    i := delta.value;
    bias := AdaptBias(i - oldi, |codepoints| + 1, oldi == 0);
    ghost var at := Advance(v.View(), i - oldi);
    var size := |codepoints| + 1;
    QuotientAtMost(i, size);
    DivMod(i, size);
    if i / size > MAX_UINT32 - n {
      return Failure(OverflowOnN), it;
    }
    n := n + i / size;
    i := i % size;
    assert at == State(n, i, codepoints);
    codepoints := codepoints[..i] + [n] + codepoints[i..];
    r := Success(DecoderVars(n, i + 1, bias, codepoints));
  }

  /** The main loop of the decoder: one insertion per number. */
  method DecodeExtended(str: Bytes, start: nat, basics: seq<uint32>) returns (r: Result<seq<uint32>, Error>)
    requires |basics| <= start <= |str| < MAX_UINT32
    ensures r == DecodeText(str[start..], Start(basics), INITIAL_BIAS)
    ensures r != Failure(OverflowOnW)
  {
    var v := DecoderVars(INITIAL_N, 0, INITIAL_BIAS, basics);
    var it := start;
    while it != |str|
      invariant start <= it <= |str| && |v.codepoints| <= it && v.i <= |v.codepoints| && v.bias <= 204
      invariant DecodeText(str[start..], Start(basics), INITIAL_BIAS) == DecodeText(str[it..], v.View(), v.bias)
      decreases |str| - it
    {
      hide DecodeTurn;
      var next, it' := DecodeNext(str, it, v);
      if next.Failure? {
        return Failure(next.error);
      }
      v := next.value;
      it := it';
    }
    r := Success(v.codepoints);
  }

  function Prepend(front: Bytes, r: Result<Bytes, Utf8Error>): Result<Bytes, Utf8Error> {
    match r
    case Failure(e) => Failure(e)
    case Success(s) => Success(front + s)
  }

  lemma PrependForm(front: Bytes, values: seq<nat>)
    requires values != [] && values[0] <= MAX_CODEPOINT
    ensures Prepend(front, WriteAll(values)) == Prepend(front + Form(values[0]), WriteAll(values[1..]))
  {
    match WriteAll(values[1..])
    case Failure(e) =>
    case Success(s) => assert front + (Form(values[0]) + s) == front + Form(values[0]) + s;
  }

  method WritePoints(codepoints: seq<uint32>) returns (r: Result<Bytes, Error>)
    ensures match WriteAll(codepoints) case Failure(e) => r == Failure(Utf8(e)) case Success(s) => r == Success(s)
  {
    var output: Bytes := [];
    assert codepoints[0..] == codepoints;
    assert forall s: Bytes :: [] + s == s;
    for it := 0 to |codepoints|
      invariant Prepend(output, WriteAll(codepoints[it..])) == WriteAll(codepoints)
    {
      var rest := codepoints[it..];
      assert rest[0] == codepoints[it] && rest[1..] == codepoints[it + 1..];
      var written := WriteCodepoint(output, codepoints[it]);
      if written.Failure? {
        return Failure(Utf8(written.error));
      }
      PrependForm(output, rest);
      output := written.value;
    }
    assert codepoints[|codepoints|..] == [];
    assert output + [] == output;
    r := Success(output);
  }
}
