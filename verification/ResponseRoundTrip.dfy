/**
  * End to end: a response as httplib's server writes it (status line, headers, blank line, body), as HappyHTTP
  * reads it.
  */
module ResponseRoundTrip {
  import opened Basics
  import opened CStrings
  import H = HappyHttp
  import P = HappyHttpResponse
  import opened ChunkedCoding
  import opened HttplibResponse

  // ---------- The status line ----------

  lemma {:induction false} WordEndIs(p: Bytes, from: nat, to: nat)
    requires from <= to <= |p| && (to == |p| || p[to] == SPACE)
    requires forall k :: from <= k < to ==> p[k] != SPACE
    ensures H.WordEnd(p, from) == to
    decreases |p| - from
  {
    if from < to {
      WordEndIs(p, from + 1, to);
    }
  }

  lemma {:induction false} SpacesEndIs(p: Bytes, from: nat, to: nat)
    requires from <= to <= |p| && (to == |p| || p[to] != SPACE)
    requires forall k :: from <= k < to ==> p[k] == SPACE
    ensures H.SpacesEnd(p, from) == to
    decreases |p| - from
  {
    if from < to {
      SpacesEndIs(p, from + 1, to);
    }
  }

  /** Where the words of a status line are. */
  lemma StatusTextBytes(p: Bytes, version: Bytes, code: Bytes, reason: Bytes)
    requires p == version + [SPACE] + code + [SPACE] + reason
    ensures
      var v, end := |version|, |version| + 1 + |code|;
      && |p| == end + 1 + |reason| && p[0..v] == version && p[v + 1..end] == code
      && p[end + 1..] == reason && p[v] == SPACE && p[end] == SPACE
  {
    assert p == version + ([SPACE] + code + [SPACE] + reason);
  }

  lemma StatusTextWords(p: Bytes, version: Bytes, code: Bytes, reason: Bytes)
    requires p == version + [SPACE] + code + [SPACE] + reason
    requires version != [] && SPACE !in version && code != [] && SPACE !in code
    requires reason != [] ==> reason[0] != SPACE
    ensures
      var v, end := |version|, |version| + 1 + |code|;
      && |p| == end + 1 + |reason| && H.SpacesEnd(p, 0) == 0 && H.WordEnd(p, 0) == v
      && H.SpacesEnd(p, v) == v + 1 && H.WordEnd(p, v + 1) == end && H.SpacesEnd(p, end) == end + 1
  {
    hide H.WordEnd, H.SpacesEnd;
    var v, end := |version|, |version| + 1 + |code|;
    StatusTextBytes(p, version, code, reason);
    assert forall k :: 0 <= k < v ==> p[k] == p[0..v][k] != SPACE;
    assert forall k :: v + 1 <= k < end ==> p[k] == p[v + 1..end][k - v - 1];
    assert reason != [] ==> p[end + 1] == p[end + 1..][0];
    SpacesEndIs(p, 0, 0);
    WordEndIs(p, 0, v);
    SpacesEndIs(p, v, v + 1);
    WordEndIs(p, v + 1, end);
    SpacesEndIs(p, end, end + 1);
  }

  /** The words are added to what is there; there is something when an interim response came before. */
  lemma StatusWordsParse(r: H.Resp, version: Bytes, status: nat, reason: Bytes)
    requires version != [] && OneLine(version) && SPACE !in version && GoodReason(reason)
    ensures H.ParsedStatusLine(r, version + [SPACE] + Dec(status) + [SPACE] + reason)
            == r.(versionString := r.versionString + version, reason := r.reason + reason, status := status)
  {
    hide Dec, AToI, CStr, H.WordEnd, H.SpacesEnd;
    var p := version + [SPACE] + Dec(status) + [SPACE] + reason;
    DecParses(status);
    CStrOfNulFree(p);
    StatusTextBytes(p, version, Dec(status), reason);
    StatusTextWords(p, version, Dec(status), reason);
  }

  lemma StatusTextParses(r: H.Resp, status: nat, reason: Bytes)
    requires GoodReason(reason)
    ensures H.ParsedStatusLine(r, StatusText(status, reason))
            == r.(versionString := r.versionString + VERSION, reason := r.reason + reason, status := status)
  {
    hide Dec, H.ParsedStatusLine;
    StatusWordsParse(r, VERSION, status, reason);
  }

  lemma StatusTextIsOneLine(status: nat, reason: Bytes)
    requires GoodReason(reason)
    ensures OneLine(StatusText(status, reason))
  {
    hide Dec;
    DecParses(status);
  }

  function AfterStatus(isHead: bool, status: nat, reason: Bytes): H.Resp {
    H.Fresh(isHead).(versionString := VERSION, version := 11, status := status, reason := reason, phase := H.Headers)
  }

  lemma FeedStatus(isHead: bool, status: nat, reason: Bytes, tail: Bytes)
    requires GoodReason(reason) && 100 <= status <= 999
    ensures H.Feed(H.Fresh(isHead), StatusText(status, reason) + CRLF + tail)
            == P.Shifted(H.Feed(AfterStatus(isHead, status, reason), tail), |StatusText(status, reason)| + 2)
  {
    hide H.Feed, StatusText;
    FeedStatusLine(H.Fresh(isHead), status, reason, tail);
    assert [] + VERSION == VERSION && [] + reason == reason;
  }

  lemma FeedStatusLine(r: H.Resp, status: nat, reason: Bytes, tail: Bytes)
    requires r.phase == H.StatusLine && r.lineBuf == [] && r.versionString in {[], VERSION}
    requires GoodReason(reason) && 100 <= status <= 999
    ensures H.Feed(r, StatusText(status, reason) + CRLF + tail)
            == P.Shifted(H.Feed(r.(versionString := r.versionString + VERSION, version := 11, status := status,
                                   reason := r.reason + reason, phase := H.Headers, headerAccum := []), tail),
                         |StatusText(status, reason)| + 2)
  {
    hide H.Feed, StatusText, H.ParsedStatusLine;
    var text := StatusText(status, reason);
    StatusTextIsOneLine(status, reason);
    FeedLine(r, text, tail);
    StatusTextParses(r.(lineBuf := text), status, reason);
    assert H.VERSION_1_X <= VERSION && H.VERSION_1_X <= VERSION + VERSION;
    assert [] + VERSION == VERSION != H.VERSION_1_0 && |VERSION + VERSION| != |H.VERSION_1_0|;
  }

  // ---------- Headers ----------

  lemma {:induction false} ColonAtIs(p: Bytes, from: nat, to: nat)
    requires from <= to < |p| && p[to] == COLON
    requires forall k :: from <= k < to ==> p[k] != COLON
    ensures H.ColonAt(p, from) == to
    decreases |p| - from
  {
    if from < to {
      ColonAtIs(p, from + 1, to);
    }
  }

  lemma HeaderIsStored(r: H.Resp, h: Header)
    requires Writable(h) && r.headerAccum == HeaderText(h)
    ensures H.FlushHeader(r) == r.(headers := r.headers[Lower(h.name) := h.value], headerAccum := [])
  {
    hide CStr, H.ColonAt, Lower;
    var p := HeaderText(h);
    var c := |h.name|;
    CStrOfNulFree(p);
    assert p[c] == COLON && p[c + 1] == SPACE && forall k :: 0 <= k < c ==> p[k] == h.name[k];
    ColonAtIs(p, 0, c);
    assert h.value != [] ==> p[c + 2] == h.value[0];
    assert H.BlanksEnd(p, c + 1) == H.BlanksEnd(p, c + 2) == c + 2;
    assert p[..c] == h.name && p[c + 2..] == h.value;
  }

  /** Reading headers, with the one before them (if any) still in the accumulator. */
  predicate InHeaders(r: H.Resp) {
    r.phase == H.Headers && r.lineBuf == []
  }

  /** At the blank line: on with the body, or with another status line after an interim response. */
  function HeadersDone(r: H.Resp): Result<H.Resp, H.HttpError> {
    if r.status == 100 then Success(r.(phase := H.StatusLine)) else H.BeginBody(r)
  }

  lemma FeedHeader(r: H.Resp, h: Header, tail: Bytes)
    requires InHeaders(r) && Writable(h)
    ensures H.Feed(r, HeaderText(h) + CRLF + tail)
            == P.Shifted(H.Feed(H.FlushHeader(r).(headerAccum := HeaderText(h)), tail), |HeaderText(h)| + 2)
  {
    hide H.Feed, H.FlushHeader, CStr;
    var text := HeaderText(h);
    CStrOfNulFree(text);
    assert text[0] == h.name[0];
    FeedLine(r, text, tail);
    FlushIgnoresLine(r, text);
  }

  lemma FlushIgnoresLine(r: H.Resp, text: Bytes)
    ensures H.FlushHeader(r.(lineBuf := text)) == H.FlushHeader(r).(lineBuf := text)
    ensures r.phase == H.FlushHeader(r).phase && r.status == H.FlushHeader(r).status
    ensures r.lineBuf == H.FlushHeader(r).lineBuf && H.FlushHeader(r).headerAccum == []
  {
    hide CStr, Lower, H.ColonAt, H.BlanksEnd;
  }

  /** All headers, the last of which is stored when the blank line comes. */
  lemma {:induction false} FeedHeaders(r: H.Resp, headers: seq<Header>, tail: Bytes)
    requires InHeaders(r) && AllWritable(headers)
    ensures
      var flushed := H.FlushHeader(r);
      H.Feed(r, HeadersText(headers) + tail)
      == Resume(HeadersDone(flushed.(headers := HeaderMap(flushed.headers, headers))), tail, |HeadersText(headers)|)
    decreases |headers|
  {
    hide H.Feed, H.FlushHeader, H.BeginBody, Lower, HeaderText;
    var flushed := H.FlushHeader(r);
    FlushIgnoresLine(r, []);
    if headers == [] {
      assert flushed.(headers := HeaderMap(flushed.headers, headers)) == flushed;
      FeedCrLf(r, tail);
    } else {
      var h := headers[0];
      var rest := HeadersText(headers[1..]) + tail;
      assert HeadersText(headers) + tail == HeaderText(h) + CRLF + rest;
      FeedHeader(r, h, rest);
      var r' := flushed.(headerAccum := HeaderText(h));
      HeaderIsStored(r', h);
      FeedHeaders(r', headers[1..], tail);
    }
  }

  // ---------- The whole response ----------

  /** What the parser knows when the headers are in. */
  function AfterHead(isHead: bool, status: nat, reason: Bytes, headers: seq<Header>): H.Resp {
    AfterStatus(isHead, status, reason).(headers := HeaderMap(map[], headers))
  }

  lemma FeedHead(isHead: bool, status: nat, reason: Bytes, headers: seq<Header>, tail: Bytes)
    requires GoodReason(reason) && 100 < status <= 999 && AllWritable(headers)
    ensures H.Feed(H.Fresh(isHead), Head(status, reason, headers) + tail)
            == Resume(H.BeginBody(AfterHead(isHead, status, reason, headers)), tail, |Head(status, reason, headers)|)
  {
    hide H.Feed, H.BeginBody, StatusText, HeadersText, HeaderMap;
    var rest := HeadersText(headers) + tail;
    assert Head(status, reason, headers) + tail == StatusText(status, reason) + CRLF + rest;
    FeedStatus(isHead, status, reason, rest);
    FeedHeaders(AfterStatus(isHead, status, reason), headers, tail);
  }

  /** The header is there, whatever the case of its name and value. */
  predicate Says(headers: seq<Header>, name: Bytes, value: Bytes) {
    var m := HeaderMap(map[], headers);
    name in m && Lower(m[name]) == value
  }

  predicate MayHaveBody(status: nat) {
    200 <= status <= 999 && status != 204 && status != 304
  }

  /** The parsed response has everything that was written, and its first and last callbacks have come once each. */
  predicate Received(r: H.Resp, status: nat, reason: Bytes, headers: seq<Header>, body: Bytes) {
    && r.version == 11 && r.status == status && r.reason == reason
    && r.headers == HeaderMap(map[], headers) && r.body == body && r.bytesRead == |body|
    && r.begun == 1 && r.completed == if r.phase == H.Complete then 1 else 0
  }

  /** A status that starts a response's one and only body. */
  predicate FinalStatus(status: nat) {
    100 < status <= 999
  }

  /**
    * A response that says it is chunked, in any pieces of the body and however it is cut on the way: HappyHTTP
    * completes with the same status, reason, headers and body, at its last byte, if the sizes fit, and fails if not.
    */
  lemma CodedResponseArrives(
    isHead: bool, status: nat, reason: Bytes, headers: seq<Header>, pieces: seq<Bytes>, tail: Bytes,
    fragments: seq<Bytes>)
    requires GoodReason(reason) && FinalStatus(status) && AllWritable(headers)
    requires Says(headers, H.TRANSFER_ENCODING, H.CHUNKED)
    requires Flatten(fragments) == Head(status, reason, headers) + Wire(pieces) + tail
    ensures
      var run := H.FeedAll(H.Fresh(isHead), fragments);
      if SizesFit(pieces) then
        && run.Success? && run.value.0.phase == H.Complete
        && run.value.1 == |Head(status, reason, headers) + Wire(pieces)|
        && Received(run.value.0, status, reason, headers, BodyOf(pieces))
      else run == Failure(H.LengthOutOfRange)
  {
    hide H.Feed, Head, Wire, HeaderMap, SizesFit, H.CheckClose, Lower, H.BodyLength;
    H.FragmentationIndependence(H.Fresh(isHead), fragments);
    assert Flatten(fragments) == Head(status, reason, headers) + (Wire(pieces) + tail);
    FeedHead(isHead, status, reason, headers, Wire(pieces) + tail);
    var r' := ChunkedBegins(isHead, status, reason, headers);
    HappyHttpReadsChunks(r', pieces, tail);
    assert [] + BodyOf(pieces) == BodyOf(pieces);
  }

  /** After a head that says so, the parser waits for the first chunk. */
  lemma ChunkedBegins(isHead: bool, status: nat, reason: Bytes, headers: seq<Header>) returns (r: H.Resp)
    requires Says(headers, H.TRANSFER_ENCODING, H.CHUNKED)
    ensures H.BeginBody(AfterHead(isHead, status, reason, headers)) == Success(r)
    ensures AwaitsChunk(r) && r.completed == 0 && Received(r, status, reason, headers, [])
  {
    hide HeaderMap, H.CheckClose, Lower;
    r := H.BeginBody(AfterHead(isHead, status, reason, headers)).value;
  }

  /** How much body the parser expects after a head that does not call it chunked. */
  function Expected(isHead: bool, status: nat, headers: seq<Header>): int {
    var m := HeaderMap(map[], headers);
    if isHead || !MayHaveBody(status) then 0
    else if H.CONTENT_LENGTH in m then AToI(m[H.CONTENT_LENGTH])
    else -1
  }

  lemma CountedBegins(isHead: bool, status: nat, reason: Bytes, headers: seq<Header>)
    requires !Says(headers, H.TRANSFER_ENCODING, H.CHUNKED) && FinalStatus(status)
    ensures
      var begun := H.BeginBody(AfterHead(isHead, status, reason, headers));
      var n := Expected(isHead, status, headers);
      if -1 <= n <= MAX_INT then
        && begun.Success? && begun.value.phase == H.Body && !begun.value.chunked && begun.value.length == n
        && begun.value.lineBuf == [] && begun.value.completed == 0 && Received(begun.value, status, reason, headers, [])
      else begun == Failure(H.LengthOutOfRange)
  {
    hide HeaderMap, H.CheckClose, Lower, AToI;
  }

  predicate AwaitsBody(r: H.Resp) {
    r.phase == H.Body && !r.chunked && 0 <= r.length && r.bytesRead == 0 && r.body == []
  }

  lemma FeedTooLittle(r: H.Resp, data: Bytes)
    requires AwaitsBody(r) && 0 < |data| < r.length
    ensures H.Feed(r, data) == Success((r.(body := data, bytesRead := |data|), |data|))
  {
    hide H.Feed;
    P.DeliverInOnePiece(r, data, |data|);
    assert data[..|data|] == data && [] + data == data;
    P.NothingToFeed(H.Deliver(r, data), data[|data|..]);
  }

  lemma FeedEnough(r: H.Resp, data: Bytes)
    requires AwaitsBody(r) && 0 < r.length <= |data|
    ensures H.Feed(r, data) == Success((H.Finished(r.(body := data[..r.length], bytesRead := r.length)), r.length))
  {
    hide H.Feed;
    var n := r.length;
    P.DeliverInOnePiece(r, data, n);
    assert [] + data[..n] == data[..n];
    P.NothingToFeed(H.Deliver(r, data[..n]), data[n..]);
  }

  /** A counted body, of which some bytes come, perhaps too few or more than enough. */
  lemma FeedCounted(r: H.Resp, data: Bytes)
    requires AwaitsBody(r)
    ensures H.Feed(r, data)
            == if data == [] then Success((r, 0))
               else if r.length == 0 then Success((H.Finished(r), 0))
               else if |data| < r.length then Success((r.(body := data, bytesRead := |data|), |data|))
               else Success((H.Finished(r.(body := data[..r.length], bytesRead := r.length)), r.length))
  {
    if data != [] && r.length > 0 {
      hide H.Feed;
      if |data| < r.length {
        FeedTooLittle(r, data);
      } else {
        FeedEnough(r, data);
      }
    }
  }

  /** A counted response: complete at the last byte of its body. */
  lemma CountedResponseArrives(
    status: nat, reason: Bytes, headers: seq<Header>, body: Bytes, tail: Bytes, fragments: seq<Bytes>)
    requires GoodReason(reason) && MayHaveBody(status) && AllWritable(headers)
    requires 0 < |body| <= MAX_INT
    requires !Says(headers, H.TRANSFER_ENCODING, H.CHUNKED)
    requires H.CONTENT_LENGTH in HeaderMap(map[], headers)
    requires AToI(HeaderMap(map[], headers)[H.CONTENT_LENGTH]) == |body|
    requires Flatten(fragments) == Head(status, reason, headers) + body + tail
    ensures
      var run := H.FeedAll(H.Fresh(false), fragments);
      && run.Success? && run.value.0.phase == H.Complete
      && run.value.1 == |Head(status, reason, headers) + body|
      && Received(run.value.0, status, reason, headers, body)
  {
    hide H.Feed, Head, HeaderMap, AToI, H.BeginBody, Says;
    H.FragmentationIndependence(H.Fresh(false), fragments);
    assert Flatten(fragments) == Head(status, reason, headers) + (body + tail);
    FeedHead(false, status, reason, headers, body + tail);
    CountedBegins(false, status, reason, headers);
    FeedCounted(H.BeginBody(AfterHead(false, status, reason, headers)).value, body + tail);
    assert (body + tail)[..|body|] == body;
  }

  /**
    * A response of which the parser expects no body is complete only when pump is called again with a further byte,
    * which it leaves.
    */
  lemma EmptyResponseWaitsForAByte(isHead: bool, status: nat, reason: Bytes, headers: seq<Header>, tail: Bytes)
    requires GoodReason(reason) && FinalStatus(status) && AllWritable(headers)
    requires !Says(headers, H.TRANSFER_ENCODING, H.CHUNKED) && Expected(isHead, status, headers) == 0
    ensures
      var run := H.Feed(H.Fresh(isHead), Head(status, reason, headers) + tail);
      && run.Success? && run.value.1 == |Head(status, reason, headers)|
      && run.value.0.phase == (if tail == [] then H.Body else H.Complete)
      && Received(run.value.0, status, reason, headers, [])
  {
    hide Head, HeaderMap, Expected, H.BeginBody, H.Feed, Says;
    FeedHead(isHead, status, reason, headers, tail);
    CountedBegins(isHead, status, reason, headers);
    FeedCounted(H.BeginBody(AfterHead(isHead, status, reason, headers)).value, tail);
  }
}
