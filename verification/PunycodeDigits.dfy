/** Generalized variable-length integers and bias adaptation (sections 3.3, 6.1 of RFC 3492). */
module PunycodeDigits {
  import opened Basics
  import opened Arithmetic
  import opened Utf8

  const BASE := 36
  const TMIN := 1
  const TMAX := 26
  const SKEW := 38
  const DAMP := 700
  const INITIAL_BIAS := 72
  const INITIAL_N := 128
  const DELIMITER: byte := 45

  datatype Error =
    | NonBasicCodePoint
    | PrematureTermination
    | InvalidDigit
    | OverflowOnI
    | OverflowOnW
    | OverflowOnN
    | OverflowDelta
    | Utf8(cause: Utf8Error)

  /** The table BASIC_TO_DIGIT, read at an unsigned byte. */
  function BasicToDigit(c: byte): (d: int)
    ensures -1 <= d < BASE
  {
    if 48 <= c <= 57 then c - 48 + 26
    else if 65 <= c <= 90 then c - 65
    else if 97 <= c <= 122 then c - 97
    else -1
  }

  /** The table DIGIT_TO_BASIC. */
  function DigitToBasic(d: nat): (c: byte)
    requires d < BASE
    ensures BasicToDigit(c) == d && !IsUpper(c) && c != DELIMITER && c < 128
  {
    if d < 26 then 97 + d else 48 + (d - 26)
  }

  predicate IsUpper(c: byte) {
    65 <= c <= 90
  }

  predicate NoUpper(s: Bytes) {
    forall k :: 0 <= k < |s| ==> !IsUpper(s[k])
  }

  lemma LowerDigitIsCanonical(c: byte)
    requires BasicToDigit(c) != -1 && !IsUpper(c)
    ensures DigitToBasic(BasicToDigit(c)) == c
  {
  }

  function Threshold(k: nat, bias: nat): (t: nat)
    ensures TMIN <= t <= TMAX
  {
    if k <= bias then TMIN else if k >= bias + TMAX then TMAX else k - bias
  }

  // ---------- Bias adaptation ----------

  /** The loop of `adapt`: divide by 35 until at most 455, adding 36 to k each time. */
  function AdaptLoop(delta: nat, k: nat): nat
    decreases delta
  {
    if delta > ((BASE - TMIN) * TMAX) / 2 then AdaptLoop(delta / (BASE - TMIN), k + BASE)
    else k + ((BASE - TMIN + 1) * delta) / (delta + SKEW)
  }

  function Adapt(delta: nat, numpoints: nat, firstTime: bool): nat
    requires numpoints > 0
  {
    var d := if firstTime then delta / DAMP else delta / 2;
    QuotientAtMost(d, numpoints);
    AdaptLoop(d + d / numpoints, 0)
  }

  lemma AdaptTail(d: nat)
    ensures (36 * d) / (d + 38) <= 35
    ensures d <= 81 ==> (36 * d) / (d + 38) <= 24
  {
    QuotientBelow(36 * d, d + 38, 36);
    if d <= 81 {
      QuotientBelow(36 * d, d + 38, 25);
    }
  }

  /** Repeated division by 35 reaches 455 after at most five rounds, and then with a remainder of at most 81. */
  lemma AdaptLoopBound(delta: nat, k: nat)
    requires delta <= MAX_UINT32
    ensures AdaptLoop(delta, k) <= k + 204
  {
    AdaptTail(delta);
    var d1 := delta / 35;
    AdaptTail(d1);
    var d2 := d1 / 35;
    AdaptTail(d2);
    var d3 := d2 / 35;
    AdaptTail(d3);
    var d4 := d3 / 35;
    AdaptTail(d4);
    var d5 := d4 / 35;
    AdaptTail(d5);
    assert d5 <= 81;
    if delta > 455 {
      assert AdaptLoop(delta, k) == AdaptLoop(d1, k + 36);
      if d1 > 455 {
        assert AdaptLoop(d1, k + 36) == AdaptLoop(d2, k + 72);
        if d2 > 455 {
          assert AdaptLoop(d2, k + 72) == AdaptLoop(d3, k + 108);
          if d3 > 455 {
            assert AdaptLoop(d3, k + 108) == AdaptLoop(d4, k + 144);
            if d4 > 455 {
              assert AdaptLoop(d4, k + 144) == AdaptLoop(d5, k + 180);
            }
          }
        }
      }
    }
  }

  lemma AdaptBound(delta: nat, numpoints: nat, firstTime: bool)
    requires numpoints > 0 && delta <= MAX_UINT32
    ensures Adapt(delta, numpoints, firstTime) <= 204
  {
    var d := if firstTime then delta / DAMP else delta / 2;
    assert d <= delta / 2;
    QuotientAtMost(d, numpoints);
    assert d + d / numpoints <= MAX_UINT32;
    AdaptLoopBound(d + d / numpoints, 0);
  }

  /** `adapt` on machine words: no intermediate value leaves 32 bits, and the result is at most 204. */
  method AdaptBias(delta0: uint32, numpoints: uint32, firstTime: bool) returns (bias: uint32)
    requires numpoints > 0
    ensures bias == Adapt(delta0, numpoints, firstTime)
    ensures bias <= 204
  {
    AdaptBound(delta0, numpoints, firstTime);
    var delta: uint32 := if firstTime then delta0 / DAMP else delta0 / 2;
    QuotientAtMost(delta, numpoints);
    delta := delta + delta / numpoints;
    ghost var start := delta;
    var k: uint32 := 0;
    while delta > ((BASE - TMIN) * TMAX) / 2
      invariant AdaptLoop(start, 0) == AdaptLoop(delta, k)
      invariant k + delta <= MAX_UINT32
      decreases delta
    {
      delta := delta / (BASE - TMIN);
      k := k + BASE;
    }
    AdaptTail(delta);
    bias := k + ((BASE - TMIN + 1) * delta) / (delta + SKEW);
  }

  // ---------- Variable-length integers ----------

  /** The digits the encoder emits for q, starting at position k. */
  function Digits(q: nat, k: nat, bias: nat): Bytes
    decreases q
  {
    var t := Threshold(k, bias);
    if q < t then [DigitToBasic(q)]
    else
      QuotientAtMost(q - t, BASE - t);
      [DigitToBasic(t + (q - t) % (BASE - t))] + Digits((q - t) / (BASE - t), k + BASE, bias)
  }

  /** What the decoder reads: the new i and the unread text, without the check on w. */
  function ParseDelta(text: Bytes, i: nat, w: nat, k: nat, bias: nat): (r: Result<(nat, Bytes), Error>)
    requires w > 0
    ensures r.Success? ==> i <= r.value.0 <= MAX_UINT32 && |r.value.1| < |text|
    decreases |text|
  {
    if text == [] then Failure(PrematureTermination)
    else
      var digit := BasicToDigit(text[0]);
      if digit == -1 then Failure(InvalidDigit)
      else if digit * w > MAX_UINT32 - i then Failure(OverflowOnI)
      else
        var t := Threshold(k, bias);
        if digit < t then Success((i + digit * w, text[1..]))
        else ParseDelta(text[1..], i + digit * w, w * (BASE - t), k + BASE, bias)
  }

  /** Splitting q at threshold t, as the encoder does, is undone by weighting the rest with 36 - t. */
  lemma SplitAtThreshold(q: nat, t: nat, w: nat) returns (d: nat, rest: nat)
    requires TMIN <= t <= TMAX && t <= q
    ensures d == t + (q - t) % (BASE - t) && rest == (q - t) / (BASE - t)
    ensures t <= d < BASE && rest < q
    ensures q * w == d * w + rest * (w * (BASE - t))
  {
    SplitBy(q - t, BASE - t, t, w);
    d := t + (q - t) % (BASE - t);
    rest := (q - t) / (BASE - t);
  }

  lemma SplitBy(x: nat, m: nat, t: nat, w: nat)
    requires m > 0
    ensures 0 <= x % m < m && 0 <= x / m <= x
    ensures (x + t) * w == (t + x % m) * w + (x / m) * (w * m)
  {
    DivMod(x, m);
    QuotientAtMost(x, m);
    WeightedSum(x + t, t + x % m, x / m, m, w);
  }

  lemma WeightedSum(q: int, d: int, rest: int, m: int, w: int)
    requires q == d + rest * m
    ensures q * w == d * w + rest * (w * m)
  {
    MulDistributes(d, rest * m, w);
    MulAssociative(rest, m, w);
    MulCommutes(m, w);
  }

  lemma JoinAtThreshold(digit: nat, rest: nat, t: nat) returns (q: nat)
    requires TMIN <= t <= TMAX && t <= digit < BASE
    ensures q >= t && t + (q - t) % (BASE - t) == digit && (q - t) / (BASE - t) == rest
  {
    MulMonotone(0, rest, BASE - t);
    q := digit + rest * (BASE - t);
    DivModUnique(q - t, BASE - t, rest, digit - t);
  }

  lemma PositiveProducts(w: nat, t: nat, q: nat)
    requires w > 0 && TMIN <= t <= TMAX
    ensures w * (BASE - t) > 0 && q * w >= 0 && q * (w * (BASE - t)) >= 0
  {
    MulMonotone(1, w, BASE - t);
    MulMonotone(0, q, w);
    MulMonotone(0, q, w * (BASE - t));
  }

  /** Reading back the digits of q adds q * w to i, or overflows exactly when that leaves 32 bits. */
  lemma {:induction false} ParseDigits(q: nat, k: nat, bias: nat, i: nat, w: nat, rest: Bytes)
    requires w > 0
    ensures q * w >= 0
    ensures ParseDelta(Digits(q, k, bias) + rest, i, w, k, bias)
            == if i + q * w <= MAX_UINT32 then Success((i + q * w, rest)) else Failure(OverflowOnI)
    decreases q
  {
    var t := Threshold(k, bias);
    var text := Digits(q, k, bias) + rest;
    MulMonotone(0, q, w);
    if q < t {
      assert text[1..] == rest;
    } else {
      var d, q' := SplitAtThreshold(q, t, w);
      var tail := Digits(q', k + BASE, bias) + rest;
      assert text[0] == DigitToBasic(d) && text[1..] == tail;
      ParseContinues(text, d, i, w, k, bias);
      PositiveProducts(w, t, q');
      hide ParseDelta, Digits;
      var w' := w * (BASE - t);
      if d * w <= MAX_UINT32 - i {
        ParseDigits(q', k + BASE, bias, i + d * w, w', rest);
      }
    }
  }

  /** Reading a digit that is not the last one. */
  lemma ParseContinues(text: Bytes, d: nat, i: nat, w: nat, k: nat, bias: nat)
    requires w > 0 && text != [] && BasicToDigit(text[0]) == d && Threshold(k, bias) <= d < BASE
    ensures w * (BASE - Threshold(k, bias)) > 0 && d * w >= 0
    ensures ParseDelta(text, i, w, k, bias)
            == if d * w > MAX_UINT32 - i then Failure(OverflowOnI)
               else ParseDelta(text[1..], i + d * w, w * (BASE - Threshold(k, bias)), k + BASE, bias)
  {
    PositiveProducts(w, Threshold(k, bias), d);
  }

  /** Every lowercase digit string the decoder accepts is the one the encoder emits for its value. */
  lemma {:induction false} ParsedIsCanonical(text: Bytes, i: nat, w: nat, k: nat, bias: nat) returns (q: nat)
    requires w > 0
    requires ParseDelta(text, i, w, k, bias).Success? && NoUpper(text)
    ensures ParseDelta(text, i, w, k, bias).value.0 == i + q * w
    ensures text == Digits(q, k, bias) + ParseDelta(text, i, w, k, bias).value.1
    decreases |text|
  {
    var digit := BasicToDigit(text[0]);
    var t := Threshold(k, bias);
    LowerDigitIsCanonical(text[0]);
    if digit < t {
      q := digit;
      assert text == [text[0]] + text[1..];
    } else {
      PositiveProducts(w, t, digit);
      var q' := ParsedIsCanonical(text[1..], i + digit * w, w * (BASE - t), k + BASE, bias);
      q := JoinAtThreshold(digit, q', t);
      var d, rest := SplitAtThreshold(q, t, w);
      assert text == [text[0]] + text[1..];
    }
  }

  /** Emitted digits are lowercase ASCII and never the delimiter. */
  lemma {:induction false} DigitsAreBasic(q: nat, k: nat, bias: nat)
    ensures NoUpper(Digits(q, k, bias)) && |Digits(q, k, bias)| > 0
    ensures forall j :: 0 <= j < |Digits(q, k, bias)| ==>
      Digits(q, k, bias)[j] != DELIMITER && Digits(q, k, bias)[j] < 128 && BasicToDigit(Digits(q, k, bias)[j]) != -1
    decreases q
  {
    var t := Threshold(k, bias);
    if q >= t {
      var d, rest := SplitAtThreshold(q, t, 1);
      DigitsAreBasic(rest, k + BASE, bias);
    }
  }
}
