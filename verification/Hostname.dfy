/** `encodeHostname` and `decodeHostname`: Punycode label by label. */
module Hostname {
  import opened Basics
  import opened Splitting
  import opened Utf8
  import opened PunycodeDigits
  import opened PunycodeStates
  import opened Punycode
  import opened PunycodePositions
  import opened PunycodeCodec
  import opened PunycodeEncoder

  const DOT: byte := 46

  /** "xn--" */
  const PREFIX: Bytes := [120, 110, 45, 45]

  // ---------- What the two functions compute ----------

  predicate NeedsPunycoding(s: Bytes) {
    exists k :: 0 <= k < |s| && s[k] >= 0x80
  }

  predicate HasPrefix(s: Bytes) {
    PREFIX <= s
  }

  ghost function EncodeLabel(part: Bytes): Result<Bytes, Error> {
    if NeedsPunycoding(part) then
      match Encoded(part) case Failure(e) => Failure(e) case Success(s) => Success(PREFIX + s)
    else Success(part)
  }

  function DecodeLabel(part: Bytes): Result<Bytes, Error> {
    if HasPrefix(part) then Decoded(part[4..]) else Success(part)
  }

  ghost function EncodeLabels(labels: seq<Bytes>): (r: Result<seq<Bytes>, Error>)
    ensures r.Success? ==> |r.value| == |labels|
  {
    if labels == [] then Success([])
    else
      match EncodeLabel(labels[0])
      case Failure(e) => Failure(e)
      case Success(first) =>
        match EncodeLabels(labels[1..])
        case Failure(e) => Failure(e)
        case Success(rest) => Success([first] + rest)
  }

  function DecodeLabels(labels: seq<Bytes>): (r: Result<seq<Bytes>, Error>)
    ensures r.Success? ==> |r.value| == |labels|
  {
    if labels == [] then Success([])
    else
      match DecodeLabel(labels[0])
      case Failure(e) => Failure(e)
      case Success(first) =>
        match DecodeLabels(labels[1..])
        case Failure(e) => Failure(e)
        case Success(rest) => Success([first] + rest)
  }

  ghost function EncodedHostname(hostname: Bytes): Result<Bytes, Error> {
    match EncodeLabels(Split(DOT, hostname))
    case Failure(e) => Failure(e)
    case Success(labels) => Success(Join(DOT, labels))
  }

  function DecodedHostname(hostname: Bytes): Result<Bytes, Error> {
    match DecodeLabels(Split(DOT, hostname))
    case Failure(e) => Failure(e)
    case Success(labels) => Success(Join(DOT, labels))
  }

  // ---------- Facts about one label ----------

  predicate Ascii(s: Bytes) {
    forall k :: 0 <= k < |s| ==> s[k] < 0x80
  }

  lemma {:induction false} AsciiIsShortestForm(s: Bytes)
    requires Ascii(s)
    ensures ShortestForm(s)
    decreases |s|
  {
    if s != [] {
      AsciiIsShortestForm(s[1..]);
    }
  }

  /** An encoded label is ASCII, and has no dot if its code points have none. */
  lemma EncodedIsAscii(cps: seq<nat>)
    requires EncodePoints(cps).Success?
    ensures Ascii(EncodePoints(cps).value)
    ensures 46 !in cps ==> Free(DOT, EncodePoints(cps).value)
  {
    hide Lt, DeltasOf;
    var basics := Lt(cps, INITIAL_N);
    var text := EncodeText(DeltasOf(cps), |basics|, INITIAL_BIAS, true);
    EncodeTextIsBasic(DeltasOf(cps), |basics|, INITIAL_BIAS, true);
    hide EncodeText;
    assert Free(DOT, text) && Ascii(text);
    forall k | 0 <= k < |basics|
      ensures basics[k] in cps
    {
      LtFrom(cps, INITIAL_N, k);
    }
    assert 46 !in cps ==> Free(DOT, BasicPart(basics));
  }

  /** A byte below 128 in a written string is a code point of its own, and the other way round. */
  lemma {:induction false} SmallBytesArePoints(cps: seq<nat>, b: nat)
    requires WriteAll(cps).Success? && b < 0x80
    ensures b in cps <==> b in WriteAll(cps).value
  {
    if cps != [] {
      SmallBytesArePoints(cps[1..], b);
      FormBytes(cps[0], b);
      assert cps == [cps[0]] + cps[1..];
    }
  }

  lemma FormBytes(v: nat, b: nat)
    requires v <= MAX_CODEPOINT && b < 0x80
    ensures v == b <==> b in Form(v)
  {
    if v > 0x7F {
      FormSplit(v);
      TailFormUnrolled(v);
      LeadBits(v);
      assert Lead(v) >= 0xC0;
    }
  }

  /** No dot in shortest-form bytes, no dot among the code points. */
  lemma EncodedPartIsDotFree(part: Bytes)
    requires Free(DOT, part) && ShortestForm(part) && Encoded(part).Success?
    ensures Free(DOT, Encoded(part).value) && Ascii(Encoded(part).value)
  {
    WriteAllOfReadAll(part);
    var cps := ReadAll(part).value;
    SmallBytesArePoints(cps, 46);
    EncodedIsAscii(cps);
  }

  /** Decoding inserts only code points from 128 up: no dot appears, and no string decodes to its own prefixed form. */
  lemma DecodedPartIsDotFree(part: Bytes)
    requires Free(DOT, part) && Decoded(part).Success?
    ensures Free(DOT, Decoded(part).value)
  {
    var cps := DecodePoints(part).value;
    DecodedBasics(part);
    forall k | 0 <= k < |cps|
      ensures cps[k] != 46
    {
      if cps[k] < INITIAL_N {
        LtKeeps(cps, INITIAL_N, k);
      }
    }
    SmallBytesArePoints(cps, 46);
  }

  lemma DecodedBasics(s: Bytes)
    requires DecodePoints(s).Success?
    ensures Lt(DecodePoints(s).value, INITIAL_N) == s[..LastDelimiter(s)]
  {
    var basics: seq<nat> := s[..LastDelimiter(s)];
    BasicsSurvive(Extended(s), Start(basics), INITIAL_BIAS);
    LtAll(basics, INITIAL_N);
  }

  lemma {:induction false} BasicsSurvive(text: Bytes, s: State, bias: nat)
    requires s.i <= |s.out| && s.n >= INITIAL_N && DecodeText(text, s, bias).Success?
    ensures Lt(DecodeText(text, s, bias).value, INITIAL_N) == Lt(s.out, INITIAL_N)
    decreases |text|
  {
    if text != [] {
      hide Lt, ParseDelta, Advance, Adapt;
      var turn := DecodeTurn(text, s, bias).value;
      var d := ParseDelta(text, s.i, 1, BASE, bias).value.0 - s.i;
      InsertKeepsBasics(Advance(s, d));
      BasicsSurvive(turn.rest, turn.s, turn.bias);
    }
  }

  /** An ASCII result has nothing inserted in it, so it is shorter than what was decoded. */
  lemma DecodedIsNotPrefixed(part: Bytes)
    requires HasPrefix(part) && Ascii(part)
    ensures Decoded(part[4..]) != Success(part)
  {
    var s := part[4..];
    if Decoded(s) == Success(part) {
      var cps := DecodePoints(s).value;
      AsciiPoints(cps);
      LtAll(cps, INITIAL_N);
      DecodedBasics(s);
      AsciiLength(cps);
      assert false;
    }
  }

  lemma FirstByte(v: nat)
    requires v <= MAX_CODEPOINT
    ensures Form(v)[0] < 0x80 <==> v < 0x80
  {
    if v > 0x7F {
      FormSplit(v);
    }
  }

  lemma {:induction false} AsciiPoints(cps: seq<nat>)
    requires WriteAll(cps).Success? && Ascii(WriteAll(cps).value)
    ensures forall k :: 0 <= k < |cps| ==> cps[k] < INITIAL_N
  {
    if cps != [] {
      var form, tail := Form(cps[0]), WriteAll(cps[1..]).value;
      assert forall k :: 0 <= k < |tail| ==> (form + tail)[|form| + k] == tail[k];
      assert (form + tail)[0] == form[0];
      AsciiPoints(cps[1..]);
      FirstByte(cps[0]);
      assert forall k :: 1 <= k < |cps| ==> cps[k] == cps[1..][k - 1];
    }
  }

  lemma {:induction false} AsciiLength(cps: seq<nat>)
    requires WriteAll(cps).Success? && forall k :: 0 <= k < |cps| ==> cps[k] < INITIAL_N
    ensures |WriteAll(cps).value| == |cps|
  {
    if cps != [] {
      AsciiLength(cps[1..]);
    }
  }

  // ---------- The round trip ----------

  /** A label that survives: a well-formed one whose positions fit, or an ASCII one that is not already encoded. */
  ghost predicate LabelSurvives(part: Bytes) {
    if NeedsPunycoding(part) then
      ShortestForm(part) && ReadAll(part).Success? && PositionsFit(ReadAll(part).value)
    else !HasPrefix(part)
  }

  ghost predicate LabelsSurvive(labels: seq<Bytes>) {
    forall k :: 0 <= k < |labels| ==> LabelSurvives(labels[k])
  }

  /** For one label in shortest form, surviving is the round trip itself. */
  lemma LabelRoundTrip(part: Bytes)
    requires Free(DOT, part) && ShortestForm(part)
    ensures LabelSurvives(part)
            <==> EncodeLabel(part).Success? && DecodeLabel(EncodeLabel(part).value) == Success(part)
    ensures EncodeLabel(part).Success? ==> Free(DOT, EncodeLabel(part).value) && Ascii(EncodeLabel(part).value)
  {
    hide ShortestForm, PositionsFit, ReadAll, Encoded, Decoded;
    if NeedsPunycoding(part) {
      DecodeUndoesEncodeBytes(part);
      if Encoded(part).Success? {
        EncodedPartIsDotFree(part);
        var e := PREFIX + Encoded(part).value;
        assert HasPrefix(e) && e[4..] == Encoded(part).value;
      }
    } else if HasPrefix(part) {
      DecodedIsNotPrefixed(part);
    }
  }

  predicate AllShortestForm(labels: seq<Bytes>) {
    forall k :: 0 <= k < |labels| ==> ShortestForm(labels[k])
  }

  predicate AllAscii(labels: seq<Bytes>) {
    forall k :: 0 <= k < |labels| ==> Ascii(labels[k])
  }

  lemma {:induction false} LabelsRoundTrip(labels: seq<Bytes>)
    requires AllFree(DOT, labels) && AllShortestForm(labels)
    ensures LabelsSurvive(labels)
            <==> EncodeLabels(labels).Success? && DecodeLabels(EncodeLabels(labels).value) == Success(labels)
    ensures EncodeLabels(labels).Success? ==>
      AllFree(DOT, EncodeLabels(labels).value) && AllAscii(EncodeLabels(labels).value)
  {
    hide LabelSurvives, EncodeLabel, DecodeLabel, ShortestForm, Free, Ascii;
    if labels != [] {
      var first, rest := labels[0], labels[1..];
      LabelRoundTrip(first);
      LabelsRoundTrip(rest);
      assert labels == [first] + rest;
      assert LabelsSurvive(labels) <==> LabelSurvives(first) && LabelsSurvive(rest);
      if EncodeLabels(labels).Success? {
        var e, es := EncodeLabel(first).value, EncodeLabels(rest).value;
        assert EncodeLabels(labels).value == [e] + es && ([e] + es)[1..] == es;
      }
    }
  }

  // ---------- Shortest form of whole names and of their labels ----------

  lemma {:induction false} WriteAllConcat(a: seq<nat>, b: seq<nat>)
    requires WriteAll(a).Success? && WriteAll(b).Success?
    ensures WriteAll(a + b) == Success(WriteAll(a).value + WriteAll(b).value)
  {
    hide Form;
    if a == [] {
      assert a + b == b;
      assert [] + WriteAll(b).value == WriteAll(b).value;
    } else {
      WriteAllConcat(a[1..], b);
      assert (a + b)[0] == a[0] && (a + b)[1..] == a[1..] + b;
      var form, wa, wb := Form(a[0]), WriteAll(a[1..]).value, WriteAll(b).value;
      assert form + (wa + wb) == (form + wa) + wb;
    }
  }

  lemma WrittenIsShortestForm(cps: seq<nat>)
    requires WriteAll(cps).Success?
    ensures ShortestForm(WriteAll(cps).value)
  {
    WriteAllInRange(cps);
    ReadAllOfWriteAll(cps);
    WriteAllOfReadAll(WriteAll(cps).value);
  }

  lemma ShortestFormConcat(a: Bytes, b: Bytes)
    requires ShortestForm(a) && ShortestForm(b)
    ensures ShortestForm(a + b)
  {
    hide ShortestForm, WriteAll, ReadAll;
    WriteAllOfReadAll(a);
    WriteAllOfReadAll(b);
    WriteAllConcat(ReadAll(a).value, ReadAll(b).value);
    WrittenIsShortestForm(ReadAll(a).value + ReadAll(b).value);
  }

  lemma {:induction false} JoinIsShortestForm(labels: seq<Bytes>)
    requires |labels| > 0 && AllShortestForm(labels)
    ensures ShortestForm(Join(DOT, labels))
  {
    hide ShortestForm;
    if |labels| > 1 {
      JoinIsShortestForm(labels[1..]);
      AsciiIsShortestForm([DOT]);
      ShortestFormConcat(labels[0], [DOT]);
      ShortestFormConcat(labels[0] + [DOT], Join(DOT, labels[1..]));
    }
  }

  lemma {:induction false} JoinIsAscii(labels: seq<Bytes>)
    requires |labels| > 0 && AllAscii(labels)
    ensures Ascii(Join(DOT, labels))
  {
    if |labels| > 1 {
      JoinIsAscii(labels[1..]);
    }
  }

  lemma {:induction false} SplitIsAscii(s: Bytes)
    requires Ascii(s)
    ensures AllAscii(Split(DOT, s))
    decreases |s|
  {
    var k := Find(DOT, s, 0);
    if k < |s| {
      SplitIsAscii(s[k + 1..]);
    }
  }

  /** A dot is never part of a longer form, so cutting at one leaves shortest form on both sides. */
  lemma {:induction false} CutAtDot(cps: seq<nat>, a: Bytes, b: Bytes)
    requires WriteAll(cps) == Success(a + [DOT] + b)
    ensures ShortestForm(a) && ShortestForm(b)
    decreases |cps|
  {
    hide ShortestForm;
    var s := a + [DOT] + b;
    var form, tail := Form(cps[0]), WriteAll(cps[1..]).value;
    assert s == form + tail;
    if a == [] {
      FormStart(cps[0], s);
      assert s[1..] == b && s[1..] == tail;
      AsciiIsShortestForm(a);
      WrittenIsShortestForm(cps[1..]);
    } else {
      FormInside(cps[0], s, |a|);
      var a' := a[|form|..];
      assert a == form + a' by { assert a[..|form|] == s[..|form|] == form; }
      assert tail == s[|form|..] == a' + [DOT] + b;
      CutAtDot(cps[1..], a', b);
      FormIsShortest(cps[0]);
      ShortestFormConcat(form, a');
    }
  }

  lemma FormStart(v: nat, s: Bytes)
    requires v <= MAX_CODEPOINT && Form(v) <= s && s[0] == DOT
    ensures |Form(v)| == 1
  {
    FirstByte(v);
    assert Form(v)[0] == s[0];
  }

  lemma FormInside(v: nat, s: Bytes, k: nat)
    requires v <= MAX_CODEPOINT && Form(v) <= s && 0 < k < |s| && s[k] == DOT
    ensures |Form(v)| <= k
  {
    hide Form;
    FormBytes(v, 46);
    assert forall j :: 0 <= j < |Form(v)| ==> s[j] == Form(v)[j];
  }

  lemma FormIsShortest(v: nat)
    requires v <= MAX_CODEPOINT
    ensures ShortestForm(Form(v))
  {
    WrittenIsShortestForm([v]);
    assert WriteAll([v]).value == Form(v) + [];
  }

  lemma CutShortestForm(s: Bytes, k: nat)
    requires ShortestForm(s) && k < |s| && s[k] == DOT
    ensures ShortestForm(s[..k]) && ShortestForm(s[k + 1..])
  {
    hide ShortestForm, WriteAll, ReadAll;
    WriteAllOfReadAll(s);
    assert s == s[..k] + [DOT] + s[k + 1..];
    CutAtDot(ReadAll(s).value, s[..k], s[k + 1..]);
  }

  lemma {:induction false} SplitIsShortestForm(s: Bytes)
    requires ShortestForm(s)
    ensures AllShortestForm(Split(DOT, s))
    decreases |s|
  {
    hide ShortestForm, Find;
    var k := Find(DOT, s, 0);
    if k < |s| {
      CutShortestForm(s, k);
      SplitIsShortestForm(s[k + 1..]);
    }
  }

  lemma {:induction false} DecodedLabelsAreWellFormed(labels: seq<Bytes>)
    requires AllAscii(labels) && DecodeLabels(labels).Success?
    ensures AllShortestForm(DecodeLabels(labels).value)
    ensures AllFree(DOT, labels) ==> AllFree(DOT, DecodeLabels(labels).value)
  {
    hide ShortestForm;
    if labels != [] {
      var first, rest := labels[0], labels[1..];
      DecodedLabelsAreWellFormed(rest);
      DecodedLabelIsWellFormed(first);
      assert DecodeLabels(labels).value == [DecodeLabel(first).value] + DecodeLabels(rest).value;
    }
  }

  lemma DecodedLabelIsWellFormed(part: Bytes)
    requires Ascii(part) && DecodeLabel(part).Success?
    ensures ShortestForm(DecodeLabel(part).value)
    ensures Free(DOT, part) ==> Free(DOT, DecodeLabel(part).value)
  {
    if HasPrefix(part) {
      WrittenIsShortestForm(DecodePoints(part[4..]).value);
      if Free(DOT, part) {
        DecodedPartIsDotFree(part[4..]);
      }
    } else {
      AsciiIsShortestForm(part);
    }
  }

  lemma {:induction false} EncodedLabelsAreAscii(labels: seq<Bytes>)
    requires EncodeLabels(labels).Success?
    ensures AllAscii(EncodeLabels(labels).value)
  {
    if labels != [] {
      var first, rest := labels[0], labels[1..];
      EncodedLabelsAreAscii(rest);
      if NeedsPunycoding(first) {
        EncodedIsAscii(ReadAll(first).value);
      }
      assert Ascii(EncodeLabel(first).value);
      assert EncodeLabels(labels).value == [EncodeLabel(first).value] + EncodeLabels(rest).value;
    }
  }

  // ---------- Main results ----------

  lemma SurvivingIsWellFormed(labels: seq<Bytes>)
    requires LabelsSurvive(labels)
    ensures AllShortestForm(labels)
  {
    hide ShortestForm, PositionsFit;
    forall k | 0 <= k < |labels|
      ensures ShortestForm(labels[k])
    {
      assert LabelSurvives(labels[k]);
      if !NeedsPunycoding(labels[k]) {
        AsciiIsShortestForm(labels[k]);
      }
    }
  }

  /** A name that comes back from the round trip was in shortest form: decoding produces nothing else. */
  lemma ReturnedIsWellFormed(hostname: Bytes)
    requires EncodedHostname(hostname).Success?
    requires DecodedHostname(EncodedHostname(hostname).value) == Success(hostname)
    ensures ShortestForm(hostname)
  {
    hide ShortestForm, DecodeLabels, EncodeLabels;
    var encoded := EncodeLabels(Split(DOT, hostname)).value;
    EncodedLabelsAreAscii(Split(DOT, hostname));
    JoinIsAscii(encoded);
    SplitIsAscii(Join(DOT, encoded));
    DecodedLabelsAreWellFormed(Split(DOT, Join(DOT, encoded)));
    JoinIsShortestForm(DecodeLabels(Split(DOT, Join(DOT, encoded))).value);
  }

  /** decodeHostname(encodeHostname(h)) == h if and only if every label of h survives on its own. */
  lemma HostnameRoundTrip(hostname: Bytes)
    ensures EncodedHostname(hostname).Success? && DecodedHostname(EncodedHostname(hostname).value) == Success(hostname)
            <==> LabelsSurvive(Split(DOT, hostname))
  {
    hide ShortestForm, DecodeLabels, EncodeLabels, LabelsSurvive, Split, Join;
    var labels := Split(DOT, hostname);
    SplitProperties(DOT, hostname);
    var comesBack := EncodedHostname(hostname).Success?
      && DecodedHostname(EncodedHostname(hostname).value) == Success(hostname);
    if LabelsSurvive(labels) {
      SurvivingIsWellFormed(labels);
      LabelsRoundTrip(labels);
      SplitOfJoined(DOT, EncodeLabels(labels).value);
      assert comesBack;
    }
    if comesBack {
      ReturnedIsWellFormed(hostname);
      SplitIsShortestForm(hostname);
      LabelsRoundTrip(labels);
      var encoded := EncodeLabels(labels).value;
      SplitOfJoined(DOT, encoded);
      DecodedLabelsAreWellFormed(encoded);
      SplitOfJoined(DOT, DecodeLabels(encoded).value);
      assert LabelsSurvive(labels);
    }
  }

  // ---------- The loops ----------

  function Continue(prefix: Bytes, rest: Result<seq<Bytes>, Error>): Result<Bytes, Error>
    requires rest.Success? ==> |rest.value| > 0
  {
    match rest
    case Failure(e) => Failure(e)
    case Success(labels) => Success(prefix + Join(DOT, labels))
  }

  lemma ContinueFirst(prefix: Bytes, first: Bytes, rest: Result<seq<Bytes>, Error>)
    requires rest.Success? ==> |rest.value| > 0
    ensures rest.Success? ==>
      Continue(prefix, Success([first] + rest.value)) == Continue(prefix + first + [DOT], rest)
  {
    if rest.Success? {
      assert ([first] + rest.value)[1..] == rest.value;
      assert prefix + (first + [DOT] + Join(DOT, rest.value)) == prefix + first + [DOT] + Join(DOT, rest.value);
    }
  }

  lemma {:induction false} NothingToEncode(labels: seq<Bytes>)
    requires forall k :: 0 <= k < |labels| ==> !NeedsPunycoding(labels[k])
    ensures EncodeLabels(labels) == Success(labels)
  {
    hide Encoded;
    if labels != [] {
      assert EncodeLabel(labels[0]) == Success(labels[0]);
      hide EncodeLabel, NeedsPunycoding;
      NothingToEncode(labels[1..]);
      assert labels == [labels[0]] + labels[1..];
    }
  }

  lemma EncodeTurn(h: Bytes, start: nat, end: nat, encoded: Bytes)
    requires start <= |h| && end == Find(DOT, h, start)
    ensures Continue(encoded, EncodeLabels(Split(DOT, h[start..])))
            == match EncodeLabel(h[start..end])
               case Failure(e) => Failure(e)
               case Success(first) =>
                 if end == |h| then Success(encoded + first)
                 else Continue(encoded + first + [DOT], EncodeLabels(Split(DOT, h[end + 1..])))
  {
    hide EncodeLabel, Split, Find;
    SplitFrom(DOT, h, start, end);
    var labels := Split(DOT, h[start..]);
    assert labels[0] == h[start..end];
    if end < |h| {
      assert labels[1..] == Split(DOT, h[end + 1..]);
      if EncodeLabel(labels[0]).Success? {
        ContinueFirst(encoded, EncodeLabel(labels[0]).value, EncodeLabels(labels[1..]));
      }
    } else {
      assert EncodeLabels(labels[1..]) == Success([]);
    }
  }

  lemma DecodeTurnOfHostname(h: Bytes, start: nat, end: nat, unencoded: Bytes)
    requires start <= |h| && end == Find(DOT, h, start)
    ensures Continue(unencoded, DecodeLabels(Split(DOT, h[start..])))
            == match DecodeLabel(h[start..end])
               case Failure(e) => Failure(e)
               case Success(first) =>
                 if end == |h| then Success(unencoded + first)
                 else Continue(unencoded + first + [DOT], DecodeLabels(Split(DOT, h[end + 1..])))
  {
    hide DecodeLabel, Split, Find;
    SplitFrom(DOT, h, start, end);
    var labels := Split(DOT, h[start..]);
    assert labels[0] == h[start..end];
    if end < |h| {
      assert labels[1..] == Split(DOT, h[end + 1..]);
      if DecodeLabel(labels[0]).Success? {
        ContinueFirst(unencoded, DecodeLabel(labels[0]).value, DecodeLabels(labels[1..]));
      }
    } else {
      assert DecodeLabels(labels[1..]) == Success([]);
    }
  }

  method EncodeHostname(hostname: Bytes) returns (r: Result<Bytes, Error>)
    requires |hostname| < MAX_UINT32
    ensures r == EncodedHostname(hostname)
  {
    hide Encoded, Join, EncodeLabels, Split, Find;
    if !NeedsPunycoding(hostname) {
      SplitProperties(DOT, hostname);
      SplitIsAscii(hostname);
      NothingToEncode(Split(DOT, hostname));
      return Success(hostname);
    }
    var encoded: Bytes := [];
    var start, end := 0, Find(DOT, hostname, 0);
    assert hostname[0..] == hostname;
    assert forall s: Bytes :: [] + s == s;
    while true
      invariant start <= end <= |hostname| && end == Find(DOT, hostname, start)
      invariant Continue(encoded, EncodeLabels(Split(DOT, hostname[start..]))) == EncodedHostname(hostname)
      decreases |hostname| - start
    {
      hide Continue;
      EncodeTurn(hostname, start, end, encoded);
      var segment := hostname[start..end];
      if NeedsPunycoding(segment) {
        var coded := Encode(segment);
        if coded.Failure? {
          return Failure(coded.error);
        }
        encoded := encoded + (PREFIX + coded.value);
      } else {
        encoded := encoded + segment;
      }
      if end == |hostname| {
        return Success(encoded);
      }
      encoded := encoded + [DOT];
      start := end + 1;
      end := Find(DOT, hostname, start);
    }
  }

  method DecodeHostname(hostname: Bytes) returns (r: Result<Bytes, Error>)
    requires |hostname| < MAX_UINT32
    ensures r == DecodedHostname(hostname)
  {
    hide Decoded, Join, DecodeLabels, Split, Find;
    var unencoded: Bytes := [];
    var start, end := 0, Find(DOT, hostname, 0);
    assert hostname[0..] == hostname;
    assert forall s: Bytes :: [] + s == s;
    while true
      invariant start <= end <= |hostname| && end == Find(DOT, hostname, start)
      invariant Continue(unencoded, DecodeLabels(Split(DOT, hostname[start..]))) == DecodedHostname(hostname)
      decreases |hostname| - start
    {
      hide Continue;
      DecodeTurnOfHostname(hostname, start, end, unencoded);
      var segment := hostname[start..end];
      if HasPrefix(segment) {
        var coded := Decode(segment[4..]);
        if coded.Failure? {
          return Failure(coded.error);
        }
        unencoded := unencoded + coded.value;
      } else {
        unencoded := unencoded + segment;
      }
      if end == |hostname| {
        return Success(unencoded);
      }
      unencoded := unencoded + [DOT];
      start := end + 1;
      end := Find(DOT, hostname, start);
    }
  }
}
