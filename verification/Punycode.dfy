/** Punycode (RFC 3492): `encode`, `decode` and what they mean to each other. */
module Punycode {
  import opened Basics
  import opened PunycodeDigits
  import opened PunycodeStates

  // ---------- The encoder ----------

  /** The digits of successive deltas; `len` code points are in place before the first. */
  function EncodeText(ds: seq<nat>, len: nat, bias: nat, first: bool): Bytes {
    if ds == [] then []
    else Digits(ds[0], BASE, bias) + EncodeText(ds[1..], len + 1, Adapt(ds[0], len + 1, first), false)
  }

  /** The basic code points as they stand in the input, and a delimiter if there are any. */
  function BasicPart(basics: seq<nat>): Bytes
    requires forall k :: 0 <= k < |basics| ==> basics[k] < INITIAL_N
  {
    if basics == [] then [] else ToBytes(basics) + [DELIMITER]
  }

  function ToBytes(basics: seq<nat>): (s: Bytes)
    requires forall k :: 0 <= k < |basics| ==> basics[k] < INITIAL_N
    ensures |s| == |basics| && forall k :: 0 <= k < |s| ==> s[k] == basics[k]
  {
    if basics == [] then [] else [basics[0]] + ToBytes(basics[1..])
  }

  function Start(basics: seq<nat>): State {
    State(INITIAL_N, 0, basics)
  }

  lemma SyncStart(cps: seq<nat>)
    ensures Sync(cps, Start(Lt(cps, INITIAL_N)))
  {
    var l := Lt(cps, INITIAL_N + 1);
    LtOfLt(cps, INITIAL_N + 1, INITIAL_N);
    assert l[..0] + Lt(l[0..], INITIAL_N) == Lt(l, INITIAL_N) by { assert l[0..] == l; }
  }

  ghost function DeltasOf(cps: seq<nat>): seq<nat> {
    SyncStart(cps);
    Deltas(cps, Start(Lt(cps, INITIAL_N)), 0)
  }

  ghost predicate AllFit(ds: seq<nat>) {
    forall k :: 0 <= k < |ds| ==> ds[k] <= MAX_UINT32
  }

  ghost function EncodePoints(cps: seq<nat>): Result<Bytes, Error> {
    var basics := Lt(cps, INITIAL_N);
    var ds := DeltasOf(cps);
    if AllFit(ds) then Success(BasicPart(basics) + EncodeText(ds, |basics|, INITIAL_BIAS, true))
    else Failure(OverflowDelta)
  }

  // ---------- The decoder ----------

  /** What one turn of the decoder's main loop leaves behind. */
  datatype Turn = Turn(rest: Bytes, s: State, bias: nat)

  /** One number read, one code point inserted. */
  function DecodeTurn(text: Bytes, s: State, bias: nat): (r: Result<Turn, Error>)
    requires s.i <= |s.out|
    ensures r.Success? ==> |r.value.rest| < |text| && r.value.s.i <= |r.value.s.out|
  {
    match ParseDelta(text, s.i, 1, BASE, bias)
    case Failure(e) => Failure(e)
    case Success((i, rest)) =>
      var at := Advance(s, i - s.i);
      if at.n > MAX_UINT32 then Failure(OverflowOnN)
      else Success(Turn(rest, Insert(at), Adapt(i - s.i, |s.out| + 1, s.i == 0)))
  }

  function DecodeText(text: Bytes, s: State, bias: nat): Result<seq<nat>, Error>
    requires s.i <= |s.out|
    decreases |text|
  {
    if text == [] then Success(s.out)
    else
      match DecodeTurn(text, s, bias)
      case Failure(e) => Failure(e)
      case Success(turn) => DecodeText(turn.rest, turn.s, turn.bias)
  }

  /** `rfind('-')`, with 0 when there is none. */
  function LastDelimiter(s: Bytes): (k: nat)
    ensures k < |s| || k == 0
    ensures k > 0 ==> s[k] == DELIMITER
    ensures forall j :: k < j < |s| ==> s[j] != DELIMITER
    ensures k == 0 && s != [] && s[0] != DELIMITER ==> DELIMITER !in s
  {
    if s == [] then 0
    else if s[|s| - 1] == DELIMITER then |s| - 1
    else LastDelimiter(s[..|s| - 1])
  }

  /** The part of an encoded string after the last delimiter, when at least one basic code point precedes it. */
  function Extended(s: Bytes): Bytes {
    var index := LastDelimiter(s);
    if index > 0 then s[index + 1..] else s
  }

  function DecodePoints(s: Bytes): Result<seq<nat>, Error> {
    var index := LastDelimiter(s);
    if exists k :: 0 <= k < index && s[k] > 127 then Failure(NonBasicCodePoint)
    else DecodeText(Extended(s), Start(s[..index]), INITIAL_BIAS)
  }

  // ---------- Decoding undoes encoding ----------

  /** No position the decoder passes through leaves 32 bits: the guard of "Overflow on i", insertion by insertion. */
  predicate Fits(ds: seq<nat>, s: State) {
    ds == []
    || (s.i + ds[0] <= MAX_UINT32
        && Advance(s, ds[0]).n <= MAX_UINT32
        && Fits(ds[1..], Insert(Advance(s, ds[0]))))
  }

  lemma {:induction false} FitsImpliesAllFit(ds: seq<nat>, s: State)
    requires Fits(ds, s)
    ensures AllFit(ds)
  {
    if ds != [] {
      FitsImpliesAllFit(ds[1..], Insert(Advance(s, ds[0])));
      assert forall k :: 1 <= k < |ds| ==> ds[k] == ds[1..][k - 1];
    }
  }

  /** One turn on the digits of d. */
  lemma TurnOfDigits(d: nat, s: State, bias: nat, rest: Bytes)
    requires s.i <= |s.out|
    ensures Digits(d, BASE, bias) + rest != []
    ensures DecodeTurn(Digits(d, BASE, bias) + rest, s, bias)
            == if s.i + d > MAX_UINT32 then Failure(OverflowOnI)
               else if Advance(s, d).n > MAX_UINT32 then Failure(OverflowOnN)
               else Success(Turn(rest, Insert(Advance(s, d)), Adapt(d, |s.out| + 1, s.i == 0)))
  {
    hide ParseDelta, Digits, Adapt, Advance;
    DigitsAreBasic(d, BASE, bias);
    ParseDigits(d, BASE, bias, s.i, 1, rest);
  }

  /** The decoder reads back the encoder's deltas and succeeds exactly when every position fits. */
  lemma {:induction false} DecodeOfEncodeText(ds: seq<nat>, s: State, bias: nat)
    requires s.i <= |s.out|
    ensures var r := DecodeText(EncodeText(ds, |s.out|, bias, s.i == 0), s, bias);
      if Fits(ds, s) then r == Success(Apply(ds, s).out) else r.Failure?
    decreases |ds|
  {
    hide DecodeTurn, Adapt, Digits, Advance;
    if ds != [] {
      var next := Insert(Advance(s, ds[0]));
      var bias' := Adapt(ds[0], |s.out| + 1, s.i == 0);
      TurnOfDigits(ds[0], s, bias, EncodeText(ds[1..], |s.out| + 1, bias', false));
      DecodeOfEncodeText(ds[1..], next, bias');
    }
  }

  /** Every byte of an encoded text is a lowercase digit; in particular it is ASCII and no delimiter. */
  lemma {:induction false} EncodeTextIsBasic(ds: seq<nat>, len: nat, bias: nat, first: bool)
    ensures var t := EncodeText(ds, len, bias, first);
      NoUpper(t) && forall j :: 0 <= j < |t| ==> BasicToDigit(t[j]) != -1
    decreases |ds|
  {
    if ds != [] {
      hide Digits, BasicToDigit, Adapt;
      DigitsAreBasic(ds[0], BASE, bias);
      EncodeTextIsBasic(ds[1..], len + 1, Adapt(ds[0], len + 1, first), false);
    }
  }

  /** Splitting at the last delimiter recovers the two parts the encoder joined. */
  lemma SplitOfJoin(basics: seq<nat>, text: Bytes)
    requires forall k :: 0 <= k < |basics| ==> basics[k] < INITIAL_N
    requires DELIMITER !in text
    ensures var s := BasicPart(basics) + text;
      LastDelimiter(s) == |basics| && s[..|basics|] == basics && Extended(s) == text
  {
    var s := BasicPart(basics) + text;
    if basics == [] {
      assert s == text;
      if |s| > 0 {
        assert s[0] != DELIMITER;
      }
      assert LastDelimiter(s) == 0;
    } else {
      assert s[|basics|] == DELIMITER;
      assert forall j :: |basics| < j < |s| ==> s[j] == text[j - |basics| - 1];
    }
  }

  lemma DecodeOfJoin(basics: seq<nat>, text: Bytes)
    requires forall k :: 0 <= k < |basics| ==> basics[k] < INITIAL_N
    requires forall j :: 0 <= j < |text| ==> BasicToDigit(text[j]) != -1
    ensures DecodePoints(BasicPart(basics) + text) == DecodeText(text, Start(basics), INITIAL_BIAS)
  {
    hide DecodeText, LastDelimiter;
    assert DELIMITER !in text;
    SplitOfJoin(basics, text);
  }

  /** Whether the decoder can follow the encoding of these code points within 32 bits. */
  ghost predicate Decodable(cps: seq<nat>) {
    Fits(DeltasOf(cps), Start(Lt(cps, INITIAL_N)))
  }

  lemma DecodeOfEncodePoints(cps: seq<nat>)
    ensures EncodePoints(cps).Success? ==>
      var r := DecodePoints(EncodePoints(cps).value);
      if Decodable(cps) then r == Success(cps) else r.Failure?
    ensures Decodable(cps) ==> EncodePoints(cps).Success?
  {
    var basics := Lt(cps, INITIAL_N);
    var s := Start(basics);
    var ds := DeltasOf(cps);
    ApplyOfDeltasOf(cps);
    hide Lt, DeltasOf, Fits, Apply, DecodeText, EncodeText;
    if Fits(ds, s) {
      FitsImpliesAllFit(ds, s);
    }
    if AllFit(ds) {
      var text := EncodeText(ds, |basics|, INITIAL_BIAS, true);
      EncodeTextIsBasic(ds, |basics|, INITIAL_BIAS, true);
      hide DecodePoints, BasicPart, AllFit, NoUpper, BasicToDigit;
      DecodeOfJoin(basics, text);
      DecodeOfEncodeText(ds, s, INITIAL_BIAS);
    }
  }

  lemma ApplyOfDeltasOf(cps: seq<nat>)
    ensures Apply(DeltasOf(cps), Start(Lt(cps, INITIAL_N))).out == cps
  {
    hide Lt;
    var s := Start(Lt(cps, INITIAL_N));
    SyncStart(cps);
    SyncSize(cps, s);
    if |s.out| != |cps| {
      AdvanceZero(s);
      ApplyOfDeltas(cps, s, s, 0);
    }
  }

  /** Decoding undoes encoding on exactly the code points whose insertion positions fit in 32 bits. */
  lemma DecodeUndoesEncode(cps: seq<nat>)
    ensures (EncodePoints(cps).Success? && DecodePoints(EncodePoints(cps).value) == Success(cps)) <==> Decodable(cps)
  {
    DecodeOfEncodePoints(cps);
  }

  // ---------- Encoding undoes decoding ----------

  /** One turn on a text without capitals reads the digits of some d. */
  lemma TurnIsCanonical(text: Bytes, s: State, bias: nat) returns (d: nat)
    requires s.i <= |s.out| && NoUpper(text) && DecodeTurn(text, s, bias).Success?
    ensures var rest := DecodeTurn(text, s, bias).value.rest;
      && text == Digits(d, BASE, bias) + rest && NoUpper(rest)
      && DecodeTurn(text, s, bias) == Success(Turn(rest, Insert(Advance(s, d)), Adapt(d, |s.out| + 1, s.i == 0)))
    ensures s.i + d <= MAX_UINT32 && Advance(s, d).n <= MAX_UINT32
  {
    hide ParseDelta, Digits, Adapt, Advance, Insert;
    d := ParsedIsCanonical(text, s.i, 1, BASE, bias);
    var (i, rest) := ParseDelta(text, s.i, 1, BASE, bias).value;
    assert i - s.i == d;
    assert forall k :: 0 <= k < |rest| ==> rest[k] == text[|text| - |rest| + k];
  }

  /** A decoded text is the encoding of the deltas that were read. */
  lemma {:induction false} DecodedTextIsCanonical(text: Bytes, s: State, bias: nat) returns (ds: seq<nat>)
    requires s.i <= |s.out| && NoUpper(text) && DecodeText(text, s, bias).Success?
    ensures DecodeText(text, s, bias).value == Apply(ds, s).out
    ensures text == EncodeText(ds, |s.out|, bias, s.i == 0)
    ensures Fits(ds, s)
    decreases |text|
  {
    hide DecodeTurn, Digits, Adapt, Advance;
    if text == [] {
      ds := [];
    } else {
      var d := TurnIsCanonical(text, s, bias);
      var turn := DecodeTurn(text, s, bias).value;
      var ds' := DecodedTextIsCanonical(turn.rest, turn.s, turn.bias);
      ds := [d] + ds';
      assert ds[1..] == ds';
    }
  }

  lemma InsertKeepsBasics(at: State)
    requires at.i <= |at.out| && at.n >= INITIAL_N
    ensures Lt(Insert(at).out, INITIAL_N) == Lt(at.out, INITIAL_N)
  {
    var front, back := at.out[..at.i], at.out[at.i..];
    assert Lt([at.n], INITIAL_N) == [];
    hide Lt;
    assert at.out == front + back;
    LtConcat(front, back, INITIAL_N);
    LtConcat(front, [at.n], INITIAL_N);
    LtConcat(front + [at.n], back, INITIAL_N);
  }

  lemma {:induction false} ApplyKeepsBasics(ds: seq<nat>, s: State)
    requires s.i <= |s.out| && s.n >= INITIAL_N
    ensures Lt(Apply(ds, s).out, INITIAL_N) == Lt(s.out, INITIAL_N)
    decreases |ds|
  {
    hide Lt, Advance;
    if ds != [] {
      InsertKeepsBasics(Advance(s, ds[0]));
      ApplyKeepsBasics(ds[1..], Insert(Advance(s, ds[0])));
    }
  }

  lemma JoinOfSplit(s: Bytes, basics: seq<nat>)
    requires basics == s[..LastDelimiter(s)]
    requires forall k :: 0 <= k < |basics| ==> basics[k] < INITIAL_N
    ensures s == BasicPart(basics) + Extended(s)
  {
    var index := LastDelimiter(s);
    if index > 0 {
      assert s == s[..index] + [s[index]] + s[index + 1..];
      assert ToBytes(basics) == s[..index];
    }
  }

  /** A string that decodes and has no capital among its digits is what encoding its code points produces. */
  lemma EncodeUndoesDecode(s: Bytes)
    requires DecodePoints(s).Success? && NoUpper(Extended(s))
    ensures EncodePoints(DecodePoints(s).value) == Success(s)
    ensures Decodable(DecodePoints(s).value)
  {
    var index := LastDelimiter(s);
    var basics: seq<nat> := s[..index];
    var st := Start(basics);
    var cps := DecodePoints(s).value;
    var ds := DecodedTextIsCanonical(Extended(s), st, INITIAL_BIAS);
    DeltasOfApply(ds, st);
    ApplyKeepsBasics(ds, st);
    LtAll(basics, INITIAL_N);
    assert Lt(cps, INITIAL_N) == basics;
    FitsImpliesAllFit(ds, st);
    assert DeltasOf(cps) == ds;
    JoinOfSplit(s, basics);
  }

  /** Two such strings never decode alike. */
  lemma DecodeIsInjective(s: Bytes, s': Bytes)
    requires DecodePoints(s).Success? && NoUpper(Extended(s))
    requires NoUpper(Extended(s')) && DecodePoints(s') == DecodePoints(s)
    ensures s == s'
  {
    EncodeUndoesDecode(s);
    EncodeUndoesDecode(s');
  }
}
