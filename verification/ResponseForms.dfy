/**
  * Responses that HappyHTTP can read and httplib does not write: interim ones, other versions, folded headers,
  * trailers, and bodies that end with the connection.
  */
module ResponseForms {
  import opened Basics
  import opened CStrings
  import H = HappyHttp
  import P = HappyHttpResponse
  import opened ChunkedCoding
  import opened HttplibResponse
  import opened ResponseRoundTrip

  // ---------- Versions ----------

  /**
    * Of the versions only "HTTP:/1.0" counts as 1.0; whatever starts with "HTTP/1." is taken for 1.1, and so is the
    * real "HTTP/1.0".
    */
  lemma VersionIs(r: H.Resp, version: Bytes, status: nat, reason: Bytes)
    requires r.versionString == [] && version != [] && OneLine(version) && SPACE !in version
    requires GoodReason(reason) && 100 <= status <= 999
    ensures
      var after := H.StatusLineOf(r, version + [SPACE] + Dec(status) + [SPACE] + reason);
      if version == Chars("HTTP:/1.0") then after.Success? && after.value.version == 10
      else if Chars("HTTP/1.") <= version then after.Success? && after.value.version == 11
      else after == Failure(H.UnknownProtocol)
  {
    hide Dec, H.ParsedStatusLine;
    StatusWordsParse(r, version, status, reason);
    assert [] + version == version;
    assert H.VERSION_1_X == Chars("HTTP/1.") && H.VERSION_1_0 == Chars("HTTP:/1.0");
    hide Chars, H.VERSION_1_X, H.VERSION_1_0;
  }

  // ---------- Interim responses ----------

  lemma FeedInterim(isHead: bool, reason: Bytes, headers: seq<Header>, tail: Bytes)
    requires GoodReason(reason) && AllWritable(headers)
    ensures H.Feed(H.Fresh(isHead), Head(100, reason, headers) + tail)
            == P.Shifted(H.Feed(AfterHead(isHead, 100, reason, headers).(phase := H.StatusLine), tail),
                         |Head(100, reason, headers)|)
  {
    hide H.Feed, H.BeginBody, StatusText, HeadersText, HeaderMap;
    var rest := HeadersText(headers) + tail;
    assert Head(100, reason, headers) + tail == StatusText(100, reason) + CRLF + rest;
    FeedStatus(isHead, 100, reason, rest);
    FeedHeaders(AfterStatus(isHead, 100, reason), headers, tail);
  }

  /**
    * An interim response is not quite ignored: the one after it is read as if its reason stood before the other's,
    * and its headers among the other's.
    */
  lemma InterimLeavesItsMark(
    isHead: bool, interimReason: Bytes, interim: seq<Header>, status: nat, reason: Bytes, headers: seq<Header>,
    tail: Bytes)
    requires GoodReason(interimReason) && GoodReason(reason) && AllWritable(interim) && AllWritable(headers)
    requires FinalStatus(status)
    ensures
      var both := AfterHead(isHead, status, interimReason + reason, interim + headers)
        .(versionString := VERSION + VERSION);
      H.Feed(H.Fresh(isHead), Head(100, interimReason, interim) + (Head(status, reason, headers) + tail))
      == Resume(H.BeginBody(both), tail, |Head(100, interimReason, interim)| + |Head(status, reason, headers)|)
  {
    hide H.Feed, H.BeginBody, StatusText, HeadersText, HeaderMap;
    var rest := HeadersText(headers) + tail;
    assert Head(status, reason, headers) + tail == StatusText(status, reason) + CRLF + rest;
    FeedInterim(isHead, interimReason, interim, Head(status, reason, headers) + tail);
    var r := AfterHead(isHead, 100, interimReason, interim).(phase := H.StatusLine);
    FeedStatusLine(r, status, reason, rest);
    var r' := r.(versionString := VERSION + VERSION, status := status, reason := interimReason + reason,
                 phase := H.Headers);
    FeedHeaders(r', headers, tail);
    HeaderMapConcat(map[], interim, headers);
  }

  // ---------- Folded headers ----------

  /** A line that starts with white space goes on with the header before it, one space in between. */
  lemma FoldedLineJoins(r: H.Resp, h: Header, blank: byte, more: Bytes, tail: Bytes)
    requires InHeaders(r) && r.headerAccum == HeaderText(h)
    requires (blank == SPACE || blank == TAB) && OneLine(more) && more != [] && !IsSpace(more[0])
    ensures H.Feed(r, [blank] + more + CRLF + tail)
            == P.Shifted(H.Feed(r.(headerAccum := HeaderText(Header(h.name, h.value + [SPACE] + more))), tail),
                         |more| + 3)
  {
    hide H.Feed, CStr;
    var line := [blank] + more;
    CStrOfNulFree(line);
    FeedLine(r, line, tail);
    assert line[1] == more[0] && H.WhiteEnd(line, 1) == 1 && line[1..] == more;
    assert HeaderText(h) + [SPACE] + more == HeaderText(Header(h.name, h.value + [SPACE] + more));
  }

  // ---------- Trailers ----------

  function LinesText(lines: seq<Bytes>): Bytes
    decreases |lines|
  {
    if lines == [] then CRLF else lines[0] + CRLF + LinesText(lines[1..])
  }

  /** Whatever trailers come after the last chunk, the response completes at the blank line, unchanged. */
  lemma {:induction false} TrailersAreSkipped(r: H.Resp, lines: seq<Bytes>, tail: Bytes)
    requires r.phase == H.Trailers && r.lineBuf == []
    requires forall k :: 0 <= k < |lines| ==> lines[k] != [] && CR !in lines[k] && LF !in lines[k]
    ensures H.Feed(r, LinesText(lines) + tail) == Success((H.Finished(r), |LinesText(lines)|))
    decreases |lines|
  {
    if lines == [] {
      assert [] + CRLF + tail == LinesText(lines) + tail;
      FeedLine(r, [], tail);
    } else {
      var rest := LinesText(lines[1..]) + tail;
      assert LinesText(lines) + tail == lines[0] + CRLF + rest;
      FeedLine(r, lines[0], rest);
      TrailersAreSkipped(r, lines[1..], tail);
    }
  }

  // ---------- Until the connection closes ----------

  lemma FeedUntilClose(r: H.Resp, data: Bytes)
    requires H.UntilClose(r)
    ensures H.Feed(r, data) == Success((r.(body := r.body + data, bytesRead := r.bytesRead + |data|), |data|))
  {
    hide H.Feed, H.Step;
    if data == [] {
      P.NothingToFeed(r, data);
      assert r.body + data == r.body;
    } else {
      P.DeliverInOnePiece(r, data, |data|);
      assert data[..|data|] == data;
      P.NothingToFeed(H.Deliver(r, data), data[|data|..]);
    }
  }

  /** A body without a length, not called chunked: all that comes, however it is cut, and a close is its end. */
  lemma CloseDelimitedArrives(
    status: nat, reason: Bytes, headers: seq<Header>, body: Bytes, fragments: seq<Bytes>)
    requires GoodReason(reason) && MayHaveBody(status) && AllWritable(headers)
    requires !Says(headers, H.TRANSFER_ENCODING, H.CHUNKED)
    requires H.CONTENT_LENGTH !in HeaderMap(map[], headers)
    requires Flatten(fragments) == Head(status, reason, headers) + body
    ensures
      var run := H.FeedAll(H.Fresh(false), fragments);
      && run.Success? && run.value.1 == |Head(status, reason, headers) + body|
      && Received(run.value.0, status, reason, headers, body)
      && run.value.0.phase == H.Body && H.MayClose(run.value.0)
  {
    hide H.Feed, Head, HeaderMap, AToI, H.BeginBody, Says;
    H.FragmentationIndependence(H.Fresh(false), fragments);
    FeedHead(false, status, reason, headers, body);
    CountedBegins(false, status, reason, headers);
    FeedUntilClose(H.BeginBody(AfterHead(false, status, reason, headers)).value, body);
    assert [] + body == body;
  }
}
