/** Strings whose encodings are known: a German word, and sample (B) of section 7.1 of RFC 3492. */
module PunycodeSamples {
  import opened Basics
  import opened Arithmetic
  import opened Utf8
  import opened PunycodeDigits
  import opened PunycodeStates
  import opened Punycode
  import opened PunycodePositions
  import opened Splitting
  import opened Hostname

  // ---------- Digits ----------

  /** Digits are the letters and then the decimal digits; capitals are read as their letters. */
  lemma DigitTable(d: nat)
    requires d < 36
    ensures DigitToBasic(d) == if d < 26 then 'a' as int + d else '0' as int + (d - 26)
    ensures BasicToDigit(DigitToBasic(d)) == d && (d < 26 ==> BasicToDigit('A' as int + d) == d)
  {
  }

  /** A number below its threshold is one digit. */
  lemma LastDigit(q: nat, k: nat, bias: nat)
    requires q < Threshold(k, bias)
    ensures Digits(q, k, bias) == [DigitToBasic(q)]
  {
  }

  /** Any other is a digit d and the number q' of units of 36 - t above it. */
  lemma NextDigit(q: nat, k: nat, bias: nat, d: nat, q': nat, rest: Bytes)
    requires Threshold(k, bias) <= d < 36
    requires q == d + q' * (36 - Threshold(k, bias)) && Digits(q', k + 36, bias) == rest
    ensures Digits(q, k, bias) == [DigitToBasic(d)] + rest
  {
    var t := Threshold(k, bias);
    hide Digits;
    MulMonotone(0, q', 36 - t);
    DivModUnique(q - t, 36 - t, q', d - t);
    MoreDigits(q, k, bias);
  }

  lemma MoreDigits(q: nat, k: nat, bias: nat)
    requires q >= Threshold(k, bias)
    ensures
      var t := Threshold(k, bias);
      && 0 <= (q - t) % (36 - t) < 36 - t && 0 <= (q - t) / (36 - t)
      && Digits(q, k, bias)
         == [DigitToBasic(t + (q - t) % (36 - t))] + Digits((q - t) / (36 - t), k + 36, bias)
  {
    QuotientAtMost(q - Threshold(k, bias), 36 - Threshold(k, bias));
  }

  // ---------- Building a string and its digits together ----------

  /** The string that the deltas build from s, and the digits that are written for them. */
  ghost predicate Gives(ds: seq<nat>, s: State, bias: nat, first: bool, cps: seq<nat>, text: Bytes) {
    Apply(ds, s).out == cps && EncodeText(ds, |s.out|, bias, first) == text
  }

  lemma NoDeltas(s: State, bias: nat)
    ensures Gives([], s, bias, false, s.out, [])
  {
  }

  /** One delta more, in front: d leads from s to the insertion that leaves s'. */
  lemma OneDelta(d: nat, ds: seq<nat>, s: State, s': State, bias: nat, next: nat, first: bool,
                 cps: seq<nat>, digits: Bytes, text: Bytes)
    requires 0 < s'.i <= |s.out| + 1 && s'.n >= s.n
    requires s.i + d == (s'.n - s.n) * (|s.out| + 1) + s'.i - 1
    requires s'.out == s.out[..s'.i - 1] + [s'.n] + s.out[s'.i - 1..]
    requires Digits(d, BASE, bias) == digits && Adapt(d, |s.out| + 1, first) == next
    requires Gives(ds, s', next, false, cps, text)
    ensures Gives([d] + ds, s, bias, first, cps, digits + text)
  {
    hide Adapt, Digits;
    AdvanceTo(s, d, s'.n, s'.i - 1);
    assert ([d] + ds)[0] == d && ([d] + ds)[1..] == ds;
  }

  /** Then the string encodes to that text, and decodes from it. */
  lemma GivesEncoding(ds: seq<nat>, basics: seq<nat>, cps: seq<nat>, text: Bytes)
    requires forall k :: 0 <= k < |basics| ==> basics[k] < INITIAL_N
    requires Gives(ds, Start(basics), INITIAL_BIAS, true, cps, text)
    requires |cps| <= 3855 && forall k :: 0 <= k < |cps| ==> cps[k] <= 0x10FFFF
    ensures EncodePoints(cps) == Success(BasicPart(basics) + text)
    ensures DecodePoints(BasicPart(basics) + text) == Success(cps)
  {
    hide DecodePoints, EncodeText, Apply;
    var s := Start(basics);
    DeltasOfApply(ds, s);
    ApplyKeepsBasics(ds, s);
    LtAll(basics, INITIAL_N);
    UnicodeStringsRoundTrip(cps);
  }

  // ---------- "gre-6ka8i" ----------

  /** g, r, U+00F6, U+00DF, e */
  const WORD: seq<nat> := [0x67, 0x72, 0xF6, 0xDF, 0x65]

  lemma WordDigits()
    ensures Digits(382, 36, 72) == [54, 107, 97] && Digits(114, 36, 0) == [56, 105]
  {
    hide Digits;
    LastDigit(0, 108, 72);
    NextDigit(10, 72, 72, 10, 0, [97]);
    NextDigit(382, 36, 72, 32, 10, [107, 97]);
    LastDigit(8, 72, 0);
    NextDigit(114, 36, 0, 34, 8, [105]);
  }

  lemma WordBiases()
    ensures Adapt(382, 4, true) == 0 && Adapt(114, 5, false) == 23
  {
    assert AdaptLoop(0, 0) == 0 && AdaptLoop(68, 0) == 23;
  }

  lemma WordGives()
    ensures Gives([382, 114], Start([0x67, 0x72, 0x65]), 72, true, WORD, [54, 107, 97] + [56, 105])
  {
    hide Digits, Adapt, Gives;
    WordDigits();
    WordBiases();
    var s0, s1, s2 := Start([0x67, 0x72, 0x65]), State(0xDF, 3, [0x67, 0x72, 0xDF, 0x65]), State(0xF6, 3, WORD);
    NoDeltas(s2, 23);
    OneDelta(114, [], s1, s2, 0, 23, false, WORD, [56, 105], []);
    assert [114] + [] == [114] && [56, 105] + [] == [56, 105];
    OneDelta(382, [114], s0, s1, 72, 0, true, WORD, [54, 107, 97], [56, 105]);
    assert [382] + [114] == [382, 114];
  }

  lemma WordEncodes()
    ensures EncodePoints(WORD) == Success(Chars("gre-6ka8i")) && DecodePoints(Chars("gre-6ka8i")) == Success(WORD)
  {
    hide Gives, EncodePoints, DecodePoints;
    WordGives();
    GivesEncoding([382, 114], [0x67, 0x72, 0x65], WORD, [54, 107, 97] + [56, 105]);
    assert BasicPart([0x67, 0x72, 0x65]) + ([54, 107, 97] + [56, 105]) == Chars("gre-6ka8i");
  }

  /** The same in UTF-8. */
  const WORD_BYTES: Bytes := [0x67, 0x72, 0xC3, 0xB6, 0xC3, 0x9F, 0x65]

  lemma OneWritten(v: nat, values: seq<nat>, rest: Bytes, all: seq<nat>, whole: Bytes)
    requires v <= MAX_CODEPOINT && WriteAll(values) == Success(rest)
    requires all == [v] + values && whole == Form(v) + rest
    ensures WriteAll(all) == Success(whole)
  {
    assert all[1..] == values;
  }

  lemma WordIsWritten()
    ensures WriteAll(WORD) == Success(WORD_BYTES)
  {
    assert WriteAll([]) == Success([]);
    hide WriteAll;
    var s2, s1: Bytes := [0xC3, 0xB6, 0xC3, 0x9F, 0x65], [0x72, 0xC3, 0xB6, 0xC3, 0x9F, 0x65];
    OneWritten(0x65, [], [], [0x65], [0x65]);
    OneWritten(0xDF, [0x65], [0x65], [0xDF, 0x65], [0xC3, 0x9F, 0x65]);
    OneWritten(0xF6, [0xDF, 0x65], [0xC3, 0x9F, 0x65], [0xF6, 0xDF, 0x65], s2);
    OneWritten(0x72, [0xF6, 0xDF, 0x65], s2, [0x72, 0xF6, 0xDF, 0x65], s1);
    OneWritten(0x67, [0x72, 0xF6, 0xDF, 0x65], s1, WORD, WORD_BYTES);
  }

  lemma WordLabel()
    ensures EncodeLabel(WORD_BYTES) == Success(Chars("xn--gre-6ka8i"))
    ensures DecodeLabel(Chars("xn--gre-6ka8i")) == Success(WORD_BYTES)
  {
    hide EncodePoints, DecodePoints, ReadAll, WriteAll;
    WordEncodes();
    WordIsWritten();
    ReadAllOfWriteAll(WORD);
    assert WORD_BYTES[2] >= 0x80;
    var coded := Chars("xn--gre-6ka8i");
    assert PREFIX + Chars("gre-6ka8i") == coded && coded[4..] == Chars("gre-6ka8i");
  }

  lemma TwoLabels(a: Bytes, b: Bytes, a': Bytes)
    requires Free(DOT, a) && Free(DOT, b) && Free(DOT, a')
    requires EncodeLabel(a) == Success(a') && DecodeLabel(a') == Success(a)
    requires EncodeLabel(b) == Success(b) && DecodeLabel(b) == Success(b)
    ensures EncodedHostname(a + [DOT] + b) == Success(a' + [DOT] + b)
    ensures DecodedHostname(a' + [DOT] + b) == Success(a + [DOT] + b)
  {
    hide EncodeLabel, DecodeLabel;
    assert [a, b][1..] == [b] && [a', b][1..] == [b] && [b][1..] == [];
    SplitOfJoined(DOT, [a, b]);
    SplitOfJoined(DOT, [a', b]);
    assert Join(DOT, [b]) == b;
    assert EncodeLabels([]) == Success([]) && DecodeLabels([]) == Success([]) && [b] + [] == [b];
    assert EncodeLabels([b]) == Success([b]) && DecodeLabels([b]) == Success([b]);
    hide Split, Join;
    assert EncodeLabels([a, b]) == Success([a'] + [b]) && DecodeLabels([a', b]) == Success([a] + [b]);
  }

  lemma HostnameText()
    ensures Chars("xn--gre-6ka8i") + [DOT] + Chars("de") == Chars("xn--gre-6ka8i.de")
    ensures [DOT] + Chars("de") == Chars(".de")
    ensures Free(DOT, Chars("xn--gre-6ka8i")) && Free(DOT, WORD_BYTES)
    ensures Free(DOT, Chars("de")) && Ascii(Chars("de")) && |Chars("de")| == 2
  {
  }

  /** The host name of the word under "de". */
  lemma WordHostname()
    ensures EncodedHostname(WORD_BYTES + Chars(".de")) == Success(Chars("xn--gre-6ka8i.de"))
    ensures DecodedHostname(Chars("xn--gre-6ka8i.de")) == Success(WORD_BYTES + Chars(".de"))
  {
    hide EncodedHostname, DecodedHostname, DecodeLabel, EncodeLabel, Chars, WORD_BYTES, Free, Ascii;
    WordLabel();
    HostnameText();
    NotCoded(Chars("de"));
    TwoLabels(WORD_BYTES, Chars("de"), Chars("xn--gre-6ka8i"));
    assert WORD_BYTES + [DOT] + Chars("de") == WORD_BYTES + ([DOT] + Chars("de"));
  }

  lemma NotCoded(part: Bytes)
    requires Ascii(part) && |part| < 4
    ensures EncodeLabel(part) == Success(part) && DecodeLabel(part) == Success(part)
  {
  }

  // ---------- "ihqwcrb4cv8a8dqg056pqjye" ----------

  /** "Why don't they just speak Chinese?", in simplified characters. */
  const QUESTION: seq<nat> := [0x4ED6, 0x4EEC, 0x4E3A, 0x4EC0, 0x4E48, 0x4E0D, 0x8BF4, 0x4E2D, 0x6587]

  /** What each of its nine insertions leaves. */
  function Stage(k: nat): State
    requires k <= 9
  {
    if k == 0 then Start([])
    else if k == 1 then State(0x4E0D, 1, [0x4E0D])
    else if k == 2 then State(0x4E2D, 2, [0x4E0D, 0x4E2D])
    else if k == 3 then State(0x4E3A, 1, [0x4E3A, 0x4E0D, 0x4E2D])
    else if k == 4 then State(0x4E48, 2, [0x4E3A, 0x4E48, 0x4E0D, 0x4E2D])
    else if k == 5 then State(0x4EC0, 2, [0x4E3A, 0x4EC0, 0x4E48, 0x4E0D, 0x4E2D])
    else if k == 6 then State(0x4ED6, 1, [0x4ED6, 0x4E3A, 0x4EC0, 0x4E48, 0x4E0D, 0x4E2D])
    else if k == 7 then State(0x4EEC, 2, [0x4ED6, 0x4EEC, 0x4E3A, 0x4EC0, 0x4E48, 0x4E0D, 0x4E2D])
    else if k == 8 then State(0x6587, 8, [0x4ED6, 0x4EEC, 0x4E3A, 0x4EC0, 0x4E48, 0x4E0D, 0x4E2D, 0x6587])
    else State(0x8BF4, 7, QUESTION)
  }

  /** The delta of each, the bias with which it is written, and its digits. */
  datatype Piece = Piece(delta: nat, bias: nat, digits: Bytes)

  function PieceAt(k: nat): Piece
    requires k < 9
  {
    if k == 0 then Piece(19853, 72, [105, 104, 113])
    else if k == 1 then Piece(64, 21, [119, 99])
    else if k == 2 then Piece(37, 20, [114, 98])
    else if k == 3 then Piece(56, 13, [52, 99])
    else if k == 4 then Piece(599, 17, [118, 56, 97])
    else if k == 5 then Piece(130, 32, [56, 100])
    else if k == 6 then Piece(154, 23, [113, 103])
    else if k == 7 then Piece(46301, 25, [48, 53, 54, 112])
    else Piece(88531, 84, [113, 106, 121, 101])
  }

  function Bias(k: nat): nat
    requires k <= 9
  {
    if k < 9 then PieceAt(k).bias else 90
  }

  function DeltasFrom(k: nat): seq<nat>
    requires k <= 9
    decreases 9 - k
  {
    if k == 9 then [] else [PieceAt(k).delta] + DeltasFrom(k + 1)
  }

  function TextFrom(k: nat): Bytes
    requires k <= 9
    decreases 9 - k
  {
    if k == 9 then [] else PieceAt(k).digits + TextFrom(k + 1)
  }

  lemma StageMoves(k: nat)
    requires k < 9
    ensures
      var s, s', d := Stage(k), Stage(k + 1), PieceAt(k).delta;
      && |s.out| == k && 0 < s'.i <= k + 1 && s'.n >= s.n
      && s.i + d == (s'.n - s.n) * (k + 1) + s'.i - 1
      && s'.out == s.out[..s'.i - 1] + [s'.n] + s.out[s'.i - 1..]
  {
  }

  lemma EarlyQuestionDigits()
    ensures Digits(19853, 36, 72) == [105, 104, 113]
    ensures Digits(64, 36, 21) == [119, 99]
    ensures Digits(37, 36, 20) == [114, 98]
    ensures Digits(56, 36, 13) == [52, 99]
    ensures Digits(599, 36, 17) == [118, 56, 97]
  {
    hide Digits;
    LastDigit(16, 108, 72);
    NextDigit(567, 72, 72, 7, 16, [113]);
    NextDigit(19853, 36, 72, 8, 567, [104, 113]);
    LastDigit(2, 72, 21);
    NextDigit(64, 36, 21, 22, 2, [99]);
    LastDigit(1, 72, 20);
    NextDigit(37, 36, 20, 17, 1, [98]);
    LastDigit(2, 72, 13);
    NextDigit(56, 36, 13, 30, 2, [99]);
    LastDigit(0, 108, 17);
    NextDigit(34, 72, 17, 34, 0, [97]);
    NextDigit(599, 36, 17, 21, 34, [56, 97]);
  }

  lemma LateQuestionDigits()
    ensures Digits(130, 36, 32) == [56, 100]
    ensures Digits(154, 36, 23) == [113, 103]
    ensures Digits(46301, 36, 25) == [48, 53, 54, 112]
    ensures Digits(88531, 36, 84) == [113, 106, 121, 101]
  {
    hide Digits;
    LastDigit(3, 72, 32);
    NextDigit(130, 36, 32, 34, 3, [100]);
    LastDigit(6, 72, 23);
    NextDigit(154, 36, 23, 16, 6, [103]);
    LastDigit(15, 144, 25);
    NextDigit(182, 108, 25, 32, 15, [112]);
    NextDigit(1851, 72, 25, 31, 182, [54, 112]);
    NextDigit(46301, 36, 25, 26, 1851, [53, 54, 112]);
    LastDigit(4, 144, 84);
    NextDigit(72, 108, 84, 24, 4, [101]);
    NextDigit(2529, 72, 84, 9, 72, [121, 101]);
    NextDigit(88531, 36, 84, 16, 2529, [106, 121, 101]);
  }

  lemma EarlyQuestionBiases()
    ensures Adapt(19853, 1, true) == 21
    ensures Adapt(64, 2, false) == 20
    ensures Adapt(37, 3, false) == 13
    ensures Adapt(56, 4, false) == 17
    ensures Adapt(599, 5, false) == 32
    ensures Adapt(130, 6, false) == 23
    ensures Adapt(154, 7, false) == 25
  {
    assert AdaptLoop(56, 0) == 21;
    assert AdaptLoop(48, 0) == 20;
    assert AdaptLoop(24, 0) == 13;
    assert AdaptLoop(35, 0) == 17;
    assert AdaptLoop(358, 0) == 32;
    assert AdaptLoop(75, 0) == 23;
    assert AdaptLoop(88, 0) == 25;
  }

  lemma LateQuestionBiases()
    ensures Adapt(46301, 8, false) == 84
    ensures Adapt(88531, 9, false) == 90
  {
    assert AdaptLoop(21, 72) == 84;
    assert AdaptLoop(744, 36) == 84;
    assert AdaptLoop(26043, 0) == 84;
    assert AdaptLoop(40, 72) == 90;
    assert AdaptLoop(1405, 36) == 90;
    assert AdaptLoop(49183, 0) == 90;
  }

  lemma PieceFits(k: nat)
    requires k < 9
    ensures Digits(PieceAt(k).delta, 36, PieceAt(k).bias) == PieceAt(k).digits
    ensures Adapt(PieceAt(k).delta, k + 1, k == 0) == Bias(k + 1)
  {
    hide Digits, Adapt;
    EarlyQuestionDigits();
    LateQuestionDigits();
    EarlyQuestionBiases();
    LateQuestionBiases();
  }

  lemma {:induction false} QuestionGives(k: nat)
    requires k <= 9
    ensures Gives(DeltasFrom(k), Stage(k), Bias(k), k == 0, QUESTION, TextFrom(k))
    decreases 9 - k
  {
    hide Digits, Adapt, Gives, PieceAt;
    if k == 9 {
      NoDeltas(Stage(9), 90);
    } else {
      QuestionGives(k + 1);
      StageMoves(k);
      PieceFits(k);
      hide Stage;
      OneDelta(PieceAt(k).delta, DeltasFrom(k + 1), Stage(k), Stage(k + 1), Bias(k), Bias(k + 1), k == 0,
               QUESTION, PieceAt(k).digits, TextFrom(k + 1));
    }
  }

  lemma LateText()
    ensures TextFrom(5) == [56, 100, 113, 103, 48, 53, 54, 112, 113, 106, 121, 101]
  {
    assert TextFrom(9) == [];
    assert TextFrom(7) == [48, 53, 54, 112, 113, 106, 121, 101];
  }

  lemma QuestionText()
    ensures TextFrom(0) == Chars("ihqwcrb4cv8a8dqg056pqjye")
  {
    LateText();
    hide TextFrom;
    TextSteps();
    QuestionCode();
  }

  lemma QuestionCode()
    ensures Chars("ihqwcrb4cv8a8dqg056pqjye")
            == [105, 104, 113, 119, 99, 114, 98, 52, 99, 118, 56, 97, 56,
                100, 113, 103, 48, 53, 54, 112, 113, 106, 121, 101]
  {
  }

  lemma TextSteps()
    ensures TextFrom(3) == [52, 99, 118, 56, 97] + TextFrom(5)
    ensures TextFrom(0) == [105, 104, 113, 119, 99, 114, 98] + TextFrom(3)
  {
  }

  /** Sample (B) of section 7.1. */
  lemma QuestionEncodes()
    ensures EncodePoints(QUESTION) == Success(Chars("ihqwcrb4cv8a8dqg056pqjye"))
    ensures DecodePoints(Chars("ihqwcrb4cv8a8dqg056pqjye")) == Success(QUESTION)
  {
    hide Gives, EncodePoints, DecodePoints, TextFrom;
    QuestionGives(0);
    QuestionText();
    GivesEncoding(DeltasFrom(0), [], QUESTION, TextFrom(0));
    assert [] + TextFrom(0) == TextFrom(0);
  }
}
