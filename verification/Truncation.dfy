/** Chunked bodies that are cut short, as httplib's reader sees them. */
module Truncation {
  import opened Basics
  import opened CStrings
  import opened HttplibChunked
  import opened ChunkedCoding

  // ---------- Cut inside the size line ----------

  lemma {:induction false} DigitRunGrows(s: Bytes, acc: nat)
    ensures DigitRun(s, 16, acc) >= acc
    decreases |s|
  {
    if s != [] && HexDigit(s[0]) != -1 {
      DigitRunGrows(s[1..], acc * 16 + HexDigit(s[0]));
    }
  }

  lemma {:induction false} DigitRunOfPrefix(s: Bytes, c: nat, acc: nat)
    requires c <= |s|
    ensures DigitRun(s[..c], 16, acc) <= DigitRun(s, 16, acc)
    decreases c
  {
    if c == 0 {
      DigitRunGrows(s, acc);
    } else if HexDigit(s[0]) != -1 {
      assert s[..c][1..] == s[1..][..c - 1];
      DigitRunOfPrefix(s[1..], c - 1, acc * 16 + HexDigit(s[0]));
    }
  }

  /** The first digits of a hexadecimal numeral are one, of a number that is no larger. */
  lemma PrefixOfHex(n: nat, c: nat)
    requires 0 < c <= |Hex(n)|
    ensures StrToL16(Hex(n)[..c]).Some? && 0 <= StrToL16(Hex(n)[..c]).value <= n
  {
    hide Hex;
    var s, t := Hex(n), Hex(n)[..c];
    HexDigitsOnly(n);
    HexRun(n, []);
    assert s + [] == s;
    DigitRunOfPrefix(s, c, 0);
    assert HexDigit(t[0]) != -1;
    assert SkipSpace(t) == t && DropSign(t) == t;
    assert |t| >= 2 ==> HexDigit(t[1]) != -1;
    assert DropPrefix(t) == t;
  }

  predicate Refused(o: ReadOutcome, out: Bytes) {
    o.Done? && !o.ok && o.out == out
  }

  /** A number and nothing after it. */
  lemma NothingFollows(n: int, fails: bool, out: Bytes)
    requires n >= 0
    ensures Refused(AfterLength(n, [], fails, out), out)
  {
  }

  lemma NoLineFeed(text: Bytes, fails: bool)
    requires LF !in text && text != []
    ensures NextLine(text, fails) == if fails then None else Some(Line(text, []))
  {
    assert text + [] == text;
    LineFrom(text, [], fails);
  }

  lemma CutInSizeLine(data: Bytes, cut: nat, fails: bool, out: Bytes)
    requires |data| <= MAX_INT && cut < |Hex(|data|)| + 2
    ensures Refused(ReadChunked((Hex(|data|) + CRLF)[..cut], fails, out), out)
  {
    hide NextLine, AfterLength, StrToL16, Hex, CStr;
    var hex := Hex(|data|);
    var s := (hex + CRLF)[..cut];
    if cut == 0 {
      NothingIsNoLine(fails);
    } else {
      HexHasNoLf(|data|);
      var n: int;
      if cut <= |hex| {
        assert s == hex[..cut];
        PrefixOfHex(|data|, cut);
        n := StrToL16(s).value;
      } else {
        assert s == hex + [CR];
        HexParses(|data|, [CR]);
        n := |data|;
      }
      NoLineFeed(s, fails);
      CStrOfNulFree(s);
      NothingFollows(n, fails, out);
    }
  }

  lemma NothingIsNoLine(fails: bool)
    ensures NextLine([], fails) == None
  {
  }

  // ---------- Cut later ----------

  /** The size line is whole: what is left is some of the data and of its CRLF. */
  lemma CutAfterSizeLine(data: Bytes, s: Bytes, fails: bool, out: Bytes)
    requires |data| <= MAX_INT && |s| < |data| + 2 && s == (data + CRLF)[..|s|]
    ensures
      var o := ReadChunked(Hex(|data|) + CRLF + s, fails, out);
      o.Done? && o.out == out && (o.ok <==> !fails && data != [] && |s| == |data| + 1)
  {
    hide NextLine, StoI16, CStr, Hex;
    SizeLine(|data|, s, fails);
    NothingIsNoLine(fails);
    CarriageReturnAlone(fails);
    if |s| == |data| + 1 {
      assert s == data + [CR];
      assert s[..|data|] == data && s[|data|..] == [CR];
    } else if |s| == |data| {
      assert s == data && s[|data|..] == [];
    }
  }

  lemma CarriageReturnAlone(fails: bool)
    ensures NextLine([CR], fails) == (if fails then None else Some(Line([CR], []))) && CStr([CR]) == [CR] != CRLF
  {
    hide NextLine;
    NoLineFeed([CR], fails);
    CStrOfNulFree([CR]);
  }

  /** The cut falls between the CR and the LF after a chunk's data. */
  predicate CutInsideCrlf(pieces: seq<Bytes>, cut: nat)
    decreases |pieces|
  {
    && pieces != [] && pieces[0] != []
    && var n := |ChunkOf(pieces[0])|;
       (cut == n - 1 || (cut >= n && CutInsideCrlf(pieces[1..], cut - n)))
  }

  /** The data of the chunks that lie wholly before the cut. */
  function WholeChunks(pieces: seq<Bytes>, cut: nat): Bytes
    decreases |pieces|
  {
    if pieces == [] || pieces[0] == [] || cut < |ChunkOf(pieces[0])| then []
    else pieces[0] + WholeChunks(pieces[1..], cut - |ChunkOf(pieces[0])|)
  }

  lemma CutInFirstChunk(data: Bytes, cut: nat, fails: bool, out: Bytes)
    requires |data| <= MAX_INT && cut < |ChunkOf(data)|
    ensures
      var o := ReadChunked(ChunkOf(data)[..cut], fails, out);
      o.Done? && o.out == out && (o.ok <==> !fails && data != [] && cut == |ChunkOf(data)| - 1)
  {
    hide ReadChunked, Hex;
    var line := Hex(|data|) + CRLF;
    assert ChunkOf(data) == line + (data + CRLF);
    if cut < |line| {
      assert ChunkOf(data)[..cut] == line[..cut];
      CutInSizeLine(data, cut, fails, out);
    } else {
      var s := (data + CRLF)[..cut - |line|];
      assert ChunkOf(data)[..cut] == line + s;
      CutAfterSizeLine(data, s, fails, out);
    }
  }

  /**
    * httplib's reader refuses a body that is cut short, except when the stream ends in good order between the CR
    * and the LF after a chunk: then it reports success, without that chunk. It has the data of the chunks before
    * in either case.
    */
  lemma {:induction false} TruncatedBodyIsRefusedUnless(pieces: seq<Bytes>, cut: nat, fails: bool, out: Bytes)
    requires SizesFit(pieces) && cut < |Wire(pieces)|
    ensures
      var o := ReadChunked(Wire(pieces)[..cut], fails, out);
      o.Done? && o.out == out + WholeChunks(pieces, cut) && (o.ok <==> !fails && CutInsideCrlf(pieces, cut))
    decreases |pieces|
  {
    hide ReadChunked, ChunkOf;
    if pieces == [] || pieces[0] == [] {
      CutInFirstChunk([], cut, fails, out);
      assert out + [] == out;
    } else {
      var first := ChunkOf(pieces[0]);
      assert Wire(pieces) == first + Wire(pieces[1..]);
      if cut < |first| {
        assert Wire(pieces)[..cut] == first[..cut];
        CutInFirstChunk(pieces[0], cut, fails, out);
        assert out + [] == out;
      } else {
        var rest := Wire(pieces[1..])[..cut - |first|];
        assert Wire(pieces)[..cut] == first + rest;
        ReadOneChunk(pieces[0], rest, fails, out);
        TruncatedBodyIsRefusedUnless(pieces[1..], cut - |first|, fails, out + pieces[0]);
        assert out + pieces[0] + WholeChunks(pieces[1..], cut - |first|) == out + WholeChunks(pieces, cut);
      }
    }
  }

  lemma HexOfDigit(n: nat)
    requires n < 10
    ensures Hex(n) == [48 + n]
  {
  }

  /** "1", CR, LF, "a", CR, and then the end: the reader reports an empty body, complete. */
  lemma TruncationCanPass()
    ensures ChunkOf([97]) == [49, CR, LF, 97, CR, LF]
    ensures
      var o := ReadChunked([49, CR, LF, 97, CR], false, []);
      o.Done? && o.ok && o.out == []
  {
    hide ReadChunked, Hex;
    var data: Bytes := [97];
    HexOfDigit(|data|);
    CutInFirstChunk(data, 5, false, []);
    assert ChunkOf(data)[..5] == [49, CR, LF, 97, CR];
  }
}
