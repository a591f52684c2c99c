/** Chunked bodies that no writer of chunks writes: what the two decoders make of them, where they go different ways. */
module SpoiltChunks {
  import opened Basics
  import opened CStrings
  import H = HappyHttp
  import P = HappyHttpResponse
  import opened HttplibChunked
  import opened ChunkedCoding

  /** Text that fills a line: not empty, no end of line and no NUL. */
  predicate OnALine(text: Bytes) {
    text != [] && CR !in text && LF !in text && 0 !in text
  }

  lemma TextLine(text: Bytes, tail: Bytes, fails: bool)
    requires OnALine(text)
    ensures NextLine(text + CRLF + tail, fails) == Some(Line(text + CRLF, tail))
    ensures CStr(text + CRLF) == text + CRLF != CRLF
  {
    hide NextLine, CStr;
    NextCrlfLine(text, tail, fails);
    CStrOfCrlf(text);
    assert |text + CRLF| > |CRLF|;
  }

  /** What HappyHTTP does after a line that ends a chunk. */
  lemma FeedSpoiltChunk(r: H.Resp, data: Bytes, text: Bytes, tail: Bytes)
    requires AwaitsChunk(r) && data != [] && |data| <= MAX_INT && OnALine(text)
    ensures H.Feed(r, Hex(|data|) + CRLF + (data + text + CRLF + tail))
            == P.Shifted(H.Feed(AfterChunk(r, data), tail), |Hex(|data|)| + |data| + |text| + 4)
  {
    hide H.Feed, Hex, StrToL16;
    var size := Hex(|data|);
    var afterSize := data + text + CRLF + tail;
    HexHasNoLf(|data|);
    FeedLine(r, size, afterSize);
    HexParses(|data|, []);
    assert size + [] == size;
    var r1 := r.(chunkLeft := |data|, phase := H.Body);
    P.DeliverInOnePiece(r1, afterSize, |data|);
    assert afterSize[..|data|] == data && afterSize[|data|..] == text + CRLF + tail;
    var r2 := H.Deliver(r1, data);
    assert r2 == AfterChunk(r, data).(phase := H.ChunkEnd);
    FeedLine(r2, text, tail);
  }

  lemma ReadSpoiltChunk(data: Bytes, text: Bytes, tail: Bytes, fails: bool, out: Bytes)
    requires data != [] && |data| <= MAX_INT && OnALine(text)
    ensures ReadChunked(Hex(|data|) + CRLF + (data + text + CRLF + tail), fails, out) == Done(true, out, tail)
  {
    hide NextLine, StoI16, CStr, Hex, OnALine;
    var afterSize := data + text + CRLF + tail;
    SizeLine(|data|, afterSize, fails);
    assert afterSize[..|data|] == data && afterSize[|data|..] == text + CRLF + tail;
    TextLine(text, tail, fails);
  }

  /**
    * Something between the data of a chunk and the end of its line: httplib stops there, drops the chunk and reports a
    * complete body, with all that follows unread; HappyHTTP takes the data, ignores what follows, and goes on.
    */
  lemma SpoiltTerminator(r: H.Resp, data: Bytes, text: Bytes, tail: Bytes, fails: bool, out: Bytes)
    requires AwaitsChunk(r) && data != [] && |data| <= MAX_INT && OnALine(text)
    ensures
      var s := Hex(|data|) + CRLF + (data + text + CRLF + tail);
      && ReadChunked(s, fails, out) == Done(true, out, tail)
      && H.Feed(r, s)
         == P.Shifted(H.Feed(AfterChunk(r, data), tail), |Hex(|data|)| + |data| + |text| + 4)
  {
    hide H.Feed, ReadChunked, Hex, OnALine;
    FeedSpoiltChunk(r, data, text, tail);
    ReadSpoiltChunk(data, text, tail, fails, out);
  }

  lemma NegativeSize(n: nat, tail: Bytes)
    requires 0 < n
    ensures StrToL16([45] + Hex(n) + CRLF).Some? && StrToL16([45] + Hex(n) + CRLF).value + n == 0
    ensures StrToL16([45] + Hex(n)).Some? && StrToL16([45] + Hex(n)).value + n == 0
    ensures OnALine([45] + Hex(n))
  {
    SignedHex(n, CRLF);
    SignedHex(n, []);
    assert [45] + Hex(n) + [] == [45] + Hex(n);
    HexHasNoLf(n);
  }

  lemma SignedHex(n: nat, tail: Bytes)
    requires tail == [] || (HexDigit(tail[0]) == -1 && tail[0] != 120 && tail[0] != 88)
    ensures StrToL16([45] + Hex(n) + tail).Some? && StrToL16([45] + Hex(n) + tail).value + n == 0
  {
    hide Hex;
    HexDigitsOnly(n);
    HexRun(n, tail);
    var text := Hex(n) + tail;
    var s := [45] + Hex(n) + tail;
    assert s[1..] == text && text[0] == Hex(n)[0];
    assert |text| >= 2 ==> text[1] == if |Hex(n)| >= 2 then Hex(n)[1] else tail[0];
    hide DigitRun;
    assert SkipSpace(s) == s && DropSign(s) == text && DropPrefix(text) == text;
    assert DigitRun(text, 16, 0) == n;
  }

  /** A negative size: the end of a complete body for httplib, a failure for HappyHTTP. */
  lemma NegativeSizePasses(r: H.Resp, n: nat, tail: Bytes, fails: bool, out: Bytes)
    requires AwaitsChunk(r) && 0 < n <= MAX_INT
    ensures
      var s := [45] + Hex(n) + CRLF + tail;
      && ReadChunked(s, fails, out) == Done(true, out, tail)
      && H.Feed(r, s) == Failure(H.LengthOutOfRange)
  {
    hide H.Feed, NextLine, CStr, Hex, StrToL16;
    NegativeSize(n, tail);
    TextLine([45] + Hex(n), tail, fails);
    FeedLine(r, [45] + Hex(n), tail);
    CStrOfNulFree([45] + Hex(n));
  }

  /** A line without a number where a size should be: httplib throws, HappyHTTP takes it for the size 0. */
  lemma NoSizeThrows(r: H.Resp, text: Bytes, tail: Bytes, fails: bool, out: Bytes)
    requires AwaitsChunk(r) && OnALine(text) && StrToL16(text) == None && StrToL16(text + CRLF) == None
    ensures
      var s := text + CRLF + tail;
      && ReadChunked(s, fails, out) == Thrown
      && H.Feed(r, s)
         == P.Shifted(H.Feed(r.(phase := H.Trailers, chunkLeft := 0, headerAccum := []), tail), |text| + 2)
  {
    hide H.Feed, NextLine, CStr, StrToL16;
    TextLine(text, tail, fails);
    FeedLine(r, text, tail);
    CStrOfNulFree(text);
  }

  /** A trailer after the last chunk: httplib refuses the body, HappyHTTP skips the trailer. */
  lemma TrailerIsRefused(r: H.Resp, text: Bytes, tail: Bytes, fails: bool, out: Bytes)
    requires AwaitsChunk(r) && OnALine(text)
    ensures
      var s := Hex(0) + CRLF + (text + CRLF + CRLF + tail);
      && ReadChunked(s, fails, out) == Done(false, out, CRLF + tail)
      && H.Feed(r, s)
         == Success((H.Finished(r.(chunkLeft := 0, headerAccum := [])), |Hex(0)| + |text| + 6))
  {
    hide H.Feed, NextLine, CStr, Hex, StrToL16, StoI16;
    var rest := CRLF + tail;
    assert text + CRLF + CRLF + tail == text + CRLF + rest;
    SizeLine(0, text + CRLF + rest, fails);
    TextLine(text, rest, fails);
    HexHasNoLf(0);
    FeedLine(r, Hex(0), text + CRLF + rest);
    HexParses(0, []);
    assert Hex(0) + [] == Hex(0);
    var r1 := r.(phase := H.Trailers, chunkLeft := 0, headerAccum := []);
    FeedLine(r1, text, rest);
    FeedCrLf(r1, tail);
    P.NothingToFeed(H.Finished(r1), tail);
  }
}
