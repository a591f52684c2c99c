/** The other way round: which host names decodeHostname and then encodeHostname leave as they were. */
module HostnameReturn {
  import opened Basics
  import opened Splitting
  import opened Utf8
  import opened PunycodeDigits
  import opened PunycodeStates
  import opened Punycode
  import opened PunycodeCodec
  import opened Hostname

  // ---------- One label ----------

  /**
    * An encoded label that decodes, in lower case after its last delimiter and with something there; or an ASCII
    * label without the prefix.
    */
  ghost predicate LabelReturns(part: Bytes) {
    if HasPrefix(part) then
      Decoded(part[4..]).Success? && Extended(part[4..]) != [] && NoUpper(Extended(part[4..]))
    else Ascii(part)
  }

  /** Every number read inserts a code point. */
  lemma {:induction false} DecodeTextGrows(text: Bytes, s: State, bias: nat)
    requires s.i <= |s.out| && DecodeText(text, s, bias).Success?
    ensures if text == [] then DecodeText(text, s, bias).value == s.out else |DecodeText(text, s, bias).value| > |s.out|
    decreases |text|
  {
    if text != [] {
      var turn := DecodeTurn(text, s, bias).value;
      assert |turn.s.out| == |s.out| + 1 by {
        TurnGrows(text, s, bias);
      }
      hide DecodeTurn;
      DecodeTextGrows(turn.rest, turn.s, turn.bias);
    }
  }

  lemma TurnGrows(text: Bytes, s: State, bias: nat)
    requires s.i <= |s.out| && DecodeTurn(text, s, bias).Success?
    ensures |DecodeTurn(text, s, bias).value.s.out| == |s.out| + 1
  {
    hide ParseDelta, Adapt, Advance;
  }

  /** What is decoded is ASCII exactly when nothing was inserted. */
  lemma DecodedIsAsciiIff(s: Bytes)
    requires Decoded(s).Success?
    ensures Ascii(Decoded(s).value) <==> Extended(s) == []
  {
    hide DecodeText, WriteAll, Lt;
    var cps := DecodePoints(s).value;
    DecodeTextGrows(Extended(s), Start(s[..LastDelimiter(s)]), INITIAL_BIAS);
    DecodedBasics(s);
    if Ascii(Decoded(s).value) {
      AsciiPoints(cps);
      LtAll(cps, INITIAL_N);
    }
    if Extended(s) == [] {
      AsciiIsWritten(cps);
    }
  }

  lemma {:induction false} AsciiIsWritten(cps: seq<nat>)
    requires WriteAll(cps).Success? && forall k :: 0 <= k < |cps| ==> cps[k] < INITIAL_N
    ensures Ascii(WriteAll(cps).value)
  {
    if cps != [] {
      AsciiIsWritten(cps[1..]);
    }
  }

  lemma AsciiNeedsNone(s: Bytes)
    ensures Ascii(s) <==> !NeedsPunycoding(s)
  {
  }

  /** What the encoder writes after the delimiter has no capital. */
  lemma EncodedIsLower(cps: seq<nat>)
    requires EncodePoints(cps).Success?
    ensures NoUpper(Extended(EncodePoints(cps).value))
  {
    hide DeltasOf, Lt, EncodeText, LastDelimiter, Extended;
    var basics := Lt(cps, INITIAL_N);
    var text := EncodeText(DeltasOf(cps), |basics|, INITIAL_BIAS, true);
    EncodeTextIsBasic(DeltasOf(cps), |basics|, INITIAL_BIAS, true);
    assert DELIMITER !in text;
    Punycode.SplitOfJoin(basics, text);
  }

  /** Re-encoding what was decoded restores it exactly when it had no capital among its digits. */
  lemma DecodedReturnsIff(s: Bytes)
    requires Decoded(s).Success?
    ensures Encoded(Decoded(s).value) == Success(s) <==> NoUpper(Extended(s))
  {
    hide EncodePoints, WriteAll, ReadAll, DecodePoints, Extended;
    var cps := DecodePoints(s).value;
    WriteAllInRange(cps);
    ReadAllOfWriteAll(cps);
    if NoUpper(Extended(s)) {
      EncodeUndoesDecodeBytes(s);
    }
    if EncodePoints(cps) == Success(s) {
      EncodedIsLower(cps);
    }
  }

  lemma LabelReturnsIff(part: Bytes)
    ensures LabelReturns(part)
            <==> DecodeLabel(part).Success? && EncodeLabel(DecodeLabel(part).value) == Success(part)
  {
    hide Encoded, Decoded, Extended, NoUpper, NeedsPunycoding, Ascii;
    if HasPrefix(part) {
      var s := part[4..];
      assert part == PREFIX + s;
      if Decoded(s).Success? {
        var u := Decoded(s).value;
        DecodedIsAsciiIff(s);
        AsciiNeedsNone(u);
        DecodedReturnsIff(s);
        if Ascii(u) {
          if u == part {
            DecodedIsNotPrefixed(part);
          }
        } else if Encoded(u).Success? {
          assert (PREFIX + Encoded(u).value)[4..] == Encoded(u).value;
        }
      }
    } else {
      AsciiNeedsNone(part);
      if NeedsPunycoding(part) && Encoded(part).Success? {
        assert HasPrefix(PREFIX + Encoded(part).value);
      }
    }
  }

  // ---------- The whole name ----------

  ghost predicate LabelsReturn(labels: seq<Bytes>) {
    forall k :: 0 <= k < |labels| ==> LabelReturns(labels[k])
  }

  lemma {:induction false} LabelsReturnIff(labels: seq<Bytes>)
    ensures LabelsReturn(labels)
            <==> DecodeLabels(labels).Success? && EncodeLabels(DecodeLabels(labels).value) == Success(labels)
    decreases |labels|
  {
    hide LabelReturns, EncodeLabel, DecodeLabel;
    if labels != [] {
      var first, rest := labels[0], labels[1..];
      LabelReturnsIff(first);
      LabelsReturnIff(rest);
      assert labels == [first] + rest;
      assert LabelsReturn(labels) <==> LabelReturns(first) && LabelsReturn(rest);
      if DecodeLabels(labels).Success? {
        var d, ds := DecodeLabel(first).value, DecodeLabels(rest).value;
        assert DecodeLabels(labels).value == [d] + ds && ([d] + ds)[1..] == ds;
      }
    }
  }

  lemma {:induction false} DecodedLabelsAreDotFree(labels: seq<Bytes>)
    requires AllFree(DOT, labels) && DecodeLabels(labels).Success?
    ensures AllFree(DOT, DecodeLabels(labels).value)
    decreases |labels|
  {
    hide Decoded, Free;
    if labels != [] {
      DecodedLabelsAreDotFree(labels[1..]);
      if HasPrefix(labels[0]) {
        SuffixIsFree(labels[0]);
        DecodedPartIsDotFree(labels[0][4..]);
      }
      assert DecodeLabels(labels).value == [DecodeLabel(labels[0]).value] + DecodeLabels(labels[1..]).value;
    }
  }

  lemma SuffixIsFree(part: Bytes)
    requires Free(DOT, part) && |part| >= 4
    ensures Free(DOT, part[4..])
  {
  }

  /** encodeHostname(decodeHostname(h)) == h if and only if every label of h comes back on its own. */
  lemma HostnameReturnsIff(hostname: Bytes)
    ensures DecodedHostname(hostname).Success? && EncodedHostname(DecodedHostname(hostname).value) == Success(hostname)
            <==> LabelsReturn(Split(DOT, hostname))
  {
    hide DecodeLabels, EncodeLabels, LabelsReturn, Split, Join, ShortestForm, AllShortestForm, AllAscii;
    var labels := Split(DOT, hostname);
    SplitProperties(DOT, hostname);
    LabelsReturnIff(labels);
    if DecodeLabels(labels).Success? {
      var decoded := DecodeLabels(labels).value;
      DecodedLabelsAreDotFree(labels);
      SplitOfJoined(DOT, decoded);
      if EncodeLabels(decoded).Success? && Join(DOT, EncodeLabels(decoded).value) == hostname {
        OnlyAsciiReturns(hostname, decoded);
      }
    }
  }

  /** The encoder writes ASCII, so a name that comes back was ASCII, and its labels come back one by one. */
  lemma OnlyAsciiReturns(hostname: Bytes, decoded: seq<Bytes>)
    requires DecodeLabels(Split(DOT, hostname)) == Success(decoded) && |decoded| > 0 && AllFree(DOT, decoded)
    requires EncodeLabels(decoded).Success? && Join(DOT, EncodeLabels(decoded).value) == hostname
    ensures EncodeLabels(decoded) == Success(Split(DOT, hostname))
  {
    hide DecodeLabels, EncodeLabels, Split, Join, ShortestForm;
    var encoded := EncodeLabels(decoded).value;
    EncodedLabelsAreAscii(decoded);
    JoinIsAscii(encoded);
    SplitIsAscii(hostname);
    DecodedLabelsAreWellFormed(Split(DOT, hostname));
    LabelsRoundTrip(decoded);
    SplitOfJoined(DOT, encoded);
  }

  // ---------- A name that neither round trip keeps ----------

  /** "abc" */
  const ABC: Bytes := [97, 98, 99]

  /** "xn--abc-" */
  const CODED_ABC: Bytes := PREFIX + ABC + [DELIMITER]

  lemma {:induction false} WriteAscii(s: Bytes)
    requires Ascii(s)
    ensures WriteAll(s) == Success(s)
    decreases |s|
  {
    if s != [] {
      WriteAscii(s[1..]);
      assert Form(s[0]) == [s[0]] && [s[0]] + s[1..] == s;
    }
  }

  lemma DecodedAbc()
    ensures Decoded(ABC + [DELIMITER]) == Success(ABC)
  {
    var s := ABC + [DELIMITER];
    hide LastDelimiter, WriteAll;
    assert s[3] == DELIMITER && LastDelimiter(s) == 3;
    assert s[..3] == ABC && s[4..] == [] && Extended(s) == [];
    WriteAscii(ABC);
  }

  lemma OneLabel(s: Bytes)
    requires Free(DOT, s)
    ensures Split(DOT, s) == [s]
  {
  }

  lemma OneDecoded(part: Bytes)
    requires DecodeLabel(part).Success?
    ensures DecodeLabels([part]) == Success([DecodeLabel(part).value])
  {
    hide DecodeLabel;
    assert [part][1..] == [] && DecodeLabels([]) == Success([]);
    assert [DecodeLabel(part).value] + [] == [DecodeLabel(part).value];
  }

  /** "xn--abc-" decodes to "abc", and both "abc" and itself are encoded as they stand: it does not come back. */
  lemma NamesThatDoNotComeBack()
    ensures DecodedHostname(CODED_ABC) == Success(ABC)
    ensures EncodedHostname(ABC) == Success(ABC) && EncodedHostname(CODED_ABC) == Success(CODED_ABC)
    ensures ABC != CODED_ABC
  {
    hide Decoded, Encoded, DecodeLabels, EncodeLabels, Split;
    DecodedAbc();
    OneLabel(ABC);
    OneLabel(CODED_ABC);
    assert CODED_ABC[4..] == ABC + [DELIMITER];
    OneDecoded(CODED_ABC);
    NothingToEncode([ABC]);
    NothingToEncode([CODED_ABC]);
  }
}
