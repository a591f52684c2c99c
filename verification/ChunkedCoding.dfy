/** The chunked coding httplib writes, and the two decoders in the repository that read it. */
module ChunkedCoding {
  import opened Basics
  import opened CStrings
  import H = HappyHttp
  import P = HappyHttpResponse
  import opened HttplibChunked

  // ---------- Writing ----------

  function ChunkOf(data: Bytes): Bytes {
    Hex(|data|) + CRLF + data + CRLF
  }

  /** The wire form of the pieces a content provider gives, up to its first empty one (or its last). */
  function Wire(pieces: seq<Bytes>): Bytes {
    if pieces == [] || pieces[0] == [] then ChunkOf([]) else ChunkOf(pieces[0]) + Wire(pieces[1..])
  }

  /** The body that a provider's pieces make up. */
  function BodyOf(pieces: seq<Bytes>): Bytes {
    if pieces == [] || pieces[0] == [] then [] else pieces[0] + BodyOf(pieces[1..])
  }

  /** Every piece that is sent has a size that `std::stoi` can read. */
  predicate SizesFit(pieces: seq<Bytes>) {
    pieces == [] || pieces[0] == [] || (|pieces[0]| <= MAX_INT && SizesFit(pieces[1..]))
  }

  /** The loop of `write_response` over a streamed body; the i-th call of the provider gives pieces[i], or "". */
  method WriteStreamed(pieces: seq<Bytes>) returns (wire: Bytes)
    ensures wire == Wire(pieces)
  {
    wire := [];
    var i := 0;
    var dataAvailable := true;
    while dataAvailable
      invariant i <= |pieces| + 1
      invariant dataAvailable ==> i <= |pieces| && Wire(pieces) == wire + Wire(pieces[i..])
      invariant !dataAvailable ==> Wire(pieces) == wire
      decreases dataAvailable, |pieces| + 1 - i
    {
      var chunk := if i < |pieces| then pieces[i] else [];
      dataAvailable := chunk != [];
      var size := FromIToHex(|chunk|);
      if dataAvailable {
        assert pieces[i..][0] == chunk && pieces[i..][1..] == pieces[i + 1..];
      }
      wire := wire + (size + CRLF + chunk + CRLF);
      i := i + 1;
    }
  }

  // ---------- httplib reads it back ----------

  lemma HexHasNoLf(n: nat)
    ensures LF !in Hex(n) && CR !in Hex(n) && 0 !in Hex(n)
  {
    HexDigitsOnly(n);
  }

  lemma CStrOfCrlf(text: Bytes)
    requires 0 !in text
    ensures CStr(text + CRLF) == text + CRLF
  {
    CStrOfNulFree(text + CRLF);
  }

  /** A line that ends with CRLF. */
  lemma NextCrlfLine(text: Bytes, tail: Bytes, fails: bool)
    requires LF !in text
    ensures NextLine(text + CRLF + tail, fails) == Some(Line(text + CRLF, tail))
  {
    hide NextLine;
    var s := [LF] + tail;
    assert text + CRLF + tail == (text + [CR]) + s && text + CRLF == text + [CR] + [LF] && s[1..] == tail;
    LineFrom(text + [CR], s, fails);
  }

  lemma SizeLine(n: nat, tail: Bytes, fails: bool)
    ensures NextLine(Hex(n) + CRLF + tail, fails) == Some(Line(Hex(n) + CRLF, tail))
    ensures StoI16(CStr(Hex(n) + CRLF)) == if n <= MAX_INT then Some(n as int) else None
  {
    hide Hex, NextLine, StrToL16, CStr;
    HexHasNoLf(n);
    NextCrlfLine(Hex(n), tail, fails);
    CStrOfCrlf(Hex(n));
    HexParses(n, CRLF);
  }

  lemma ReadOneChunk(data: Bytes, tail: Bytes, fails: bool, out: Bytes)
    requires data != []
    ensures ReadChunked(ChunkOf(data) + tail, fails, out)
            == if |data| <= MAX_INT then ReadChunked(tail, fails, out + data) else Thrown
  {
    hide NextLine, StoI16, CStr, Hex;
    var afterSize := data + CRLF + tail;
    assert ChunkOf(data) + tail == Hex(|data|) + CRLF + afterSize;
    SizeLine(|data|, afterSize, fails);
    assert afterSize[..|data|] == data && afterSize[|data|..] == [] + CRLF + tail;
    NextCrlfLine([], tail, fails);
    CStrOfCrlf([]);
    assert [] + CRLF == CRLF;
  }

  lemma ReadLastChunk(tail: Bytes, fails: bool, out: Bytes)
    ensures ReadChunked(ChunkOf([]) + tail, fails, out) == Done(true, out, tail)
  {
    hide NextLine, StoI16, CStr, Hex;
    var afterSize := CRLF + tail;
    assert ChunkOf([]) + tail == Hex(0) + CRLF + afterSize;
    SizeLine(0, afterSize, fails);
    assert afterSize == [] + CRLF + tail;
    NextCrlfLine([], tail, fails);
    CStrOfCrlf([]);
    assert [] + CRLF == CRLF;
  }

  /**
    * `read_content_chunked` gets back exactly the body that was written, and stops exactly at its end; it throws
    * if and only if some piece is too big for `std::stoi`.
    */
  lemma {:induction false} HttplibReadsWhatItWrote(pieces: seq<Bytes>, tail: Bytes, fails: bool, out: Bytes)
    ensures ReadChunked(Wire(pieces) + tail, fails, out)
            == if SizesFit(pieces) then Done(true, out + BodyOf(pieces), tail) else Thrown
    decreases |pieces|
  {
    hide ReadChunked, ChunkOf;
    if pieces == [] || pieces[0] == [] {
      ReadLastChunk(tail, fails, out);
      assert out + [] == out;
    } else {
      assert Wire(pieces) + tail == ChunkOf(pieces[0]) + (Wire(pieces[1..]) + tail);
      ReadOneChunk(pieces[0], Wire(pieces[1..]) + tail, fails, out);
      HttplibReadsWhatItWrote(pieces[1..], tail, fails, out + pieces[0]);
      assert out + pieces[0] + BodyOf(pieces[1..]) == out + BodyOf(pieces);
    }
  }

  // ---------- HappyHTTP reads it back ----------

  type Run = Result<(H.Resp, nat), H.HttpError>

  /** The run after a line, which took so many bytes. */
  function Resume(line: Result<H.Resp, H.HttpError>, tail: Bytes, used: nat): Run {
    match line
    case Failure(e) => Failure(e)
    case Success(next) => P.Shifted(H.Feed(next.(lineBuf := []), tail), used)
  }

  lemma {:induction false} FeedText(r: H.Resp, text: Bytes, tail: Bytes)
    requires H.TakesLines(r.phase) && CR !in text && LF !in text
    ensures H.Feed(r, text + tail) == P.Shifted(H.Feed(r.(lineBuf := r.lineBuf + text), tail), |text|)
    decreases |text|
  {
    if text == [] {
      assert text + tail == tail && r.lineBuf + text == r.lineBuf;
    } else {
      assert (text + tail)[0] == text[0] && (text + tail)[1..] == text[1..] + tail;
      var r' := r.(lineBuf := r.lineBuf + [text[0]]);
      assert r'.lineBuf + text[1..] == r.lineBuf + text;
      FeedText(r', text[1..], tail);
      hide H.Feed;
    }
  }

  /** A line of text, ended by CRLF, in one go. */
  lemma FeedLine(r: H.Resp, text: Bytes, tail: Bytes)
    requires H.TakesLines(r.phase) && r.lineBuf == [] && CR !in text && LF !in text
    ensures H.Feed(r, text + CRLF + tail)
            == Resume(H.LineOf(r.(lineBuf := text), text), tail, |text| + 2)
  {
    hide H.LineOf;
    assert text + CRLF + tail == text + (CRLF + tail) && [] + text == text;
    FeedText(r, text, CRLF + tail);
    var r' := r.(lineBuf := text);
    assert (CRLF + tail)[1..] == [LF] + tail && ([LF] + tail)[1..] == tail;
    assert H.Step(r', CR) == Success(r');
    FeedCrLf(r', tail);
  }

  lemma FeedCrLf(r: H.Resp, tail: Bytes)
    requires H.TakesLines(r.phase)
    ensures H.Feed(r, CRLF + tail)
            == Resume(H.LineOf(r, r.lineBuf), tail, 2)
  {
    hide H.LineOf;
    var s := CRLF + tail;
    assert s[0] == CR && s[1] == LF && s[1..][1..] == tail;
    assert H.Feed(r, s) == P.Shifted(H.Feed(r, s[1..]), 1);
  }

  /** Between chunks, with nothing of the next line seen. */
  predicate AwaitsChunk(r: H.Resp) {
    r.phase == H.ChunkLen && r.chunked && r.lineBuf == []
  }

  function AfterChunk(r: H.Resp, data: Bytes): H.Resp {
    r.(body := r.body + data, bytesRead := r.bytesRead + |data|, chunkLeft := 0)
  }

  lemma FeedOneChunk(r: H.Resp, data: Bytes, tail: Bytes)
    requires AwaitsChunk(r) && data != []
    ensures H.Feed(r, ChunkOf(data) + tail)
            == if |data| <= MAX_INT then P.Shifted(H.Feed(AfterChunk(r, data), tail), |ChunkOf(data)|)
               else Failure(H.LengthOutOfRange)
  {
    hide H.Feed, Hex, StrToL16;
    var size := Hex(|data|);
    var afterSize := data + CRLF + tail;
    assert ChunkOf(data) + tail == size + CRLF + afterSize;
    HexHasNoLf(|data|);
    FeedLine(r, size, afterSize);
    HexParses(|data|, []);
    assert size + [] == size;
    if |data| <= MAX_INT {
      var r1 := r.(chunkLeft := |data|, phase := H.Body);
      P.DeliverInOnePiece(r1, afterSize, |data|);
      assert afterSize[..|data|] == data && afterSize[|data|..] == [] + CRLF + tail;
      var r2 := H.Deliver(r1, data);
      assert r2 == AfterChunk(r, data).(phase := H.ChunkEnd);
      FeedLine(r2, [], tail);
    }
  }

  lemma FeedLastChunk(r: H.Resp, tail: Bytes)
    requires AwaitsChunk(r)
    ensures H.Feed(r, ChunkOf([]) + tail)
            == Success((H.Finished(r.(chunkLeft := 0, headerAccum := [])), |ChunkOf([])|))
  {
    hide H.Feed, Hex, StrToL16;
    assert ChunkOf([]) + tail == Hex(0) + CRLF + (CRLF + tail);
    HexHasNoLf(0);
    FeedLine(r, Hex(0), CRLF + tail);
    HexParses(0, []);
    assert Hex(0) + [] == Hex(0);
    var r1 := r.(phase := H.Trailers, chunkLeft := 0, headerAccum := []);
    FeedCrLf(r1, tail);
    P.NothingToFeed(H.Finished(r1), tail);
  }

  /**
    * HappyHTTP completes with the body that was written, having used the coded bytes and no more; a piece whose size
    * does not fit is a length out of range.
    */
  lemma {:induction false} HappyHttpReadsChunks(r: H.Resp, pieces: seq<Bytes>, tail: Bytes)
    requires AwaitsChunk(r)
    ensures H.Feed(r, Wire(pieces) + tail)
            == if SizesFit(pieces) then
                 Success((H.Finished(AfterChunk(r, BodyOf(pieces)).(headerAccum := [])), |Wire(pieces)|))
               else Failure(H.LengthOutOfRange)
    decreases |pieces|
  {
    hide H.Feed, ChunkOf;
    if pieces == [] || pieces[0] == [] {
      FeedLastChunk(r, tail);
      assert r.body + [] == r.body;
    } else {
      assert Wire(pieces) + tail == ChunkOf(pieces[0]) + (Wire(pieces[1..]) + tail);
      FeedOneChunk(r, pieces[0], Wire(pieces[1..]) + tail);
      HappyHttpReadsChunks(AfterChunk(r, pieces[0]), pieces[1..], tail);
      assert r.body + pieces[0] + BodyOf(pieces[1..]) == r.body + BodyOf(pieces);
    }
  }

  /**
    * The two decoders agree on what httplib writes, whatever its pieces are and however the bytes (and those that
    * follow them) are cut up on the way to HappyHTTP: the same body and the same end, or both fail.
    */
  lemma DecodersAgree(r: H.Resp, pieces: seq<Bytes>, tail: Bytes, fails: bool, fragments: seq<Bytes>)
    requires AwaitsChunk(r) && Flatten(fragments) == Wire(pieces) + tail
    ensures H.FeedAll(r, fragments)
            == if SizesFit(pieces) then
                 Success((H.Finished(AfterChunk(r, BodyOf(pieces)).(headerAccum := [])), |Wire(pieces)|))
               else Failure(H.LengthOutOfRange)
    ensures ReadChunked(Wire(pieces) + tail, fails, [])
            == if SizesFit(pieces) then Done(true, BodyOf(pieces), tail) else Thrown
  {
    hide H.Feed, ReadChunked;
    H.FragmentationIndependence(r, fragments);
    HappyHttpReadsChunks(r, pieces, tail);
    HttplibReadsWhatItWrote(pieces, tail, fails, []);
    assert [] + BodyOf(pieces) == BodyOf(pieces);
  }
}
