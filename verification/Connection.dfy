/** Whether the connection stays open after a response: what httplib writes about it, and what HappyHTTP makes of it. */
module Connection {
  import opened Basics
  import opened CStrings
  import H = HappyHttp
  import opened HttplibResponse
  import opened ResponseRoundTrip
  import opened Arrival

  // ---------- What is written ----------

  lemma ConnectionNames()
    ensures Lower(CONNECTION) == H.CONNECTION && Lower(CLOSE) == H.CLOSE && Lower(KEEP_ALIVE) != H.CLOSE
    ensures H.CONNECTION == Chars("connection") && H.CLOSE == Chars("close")
    ensures CLOSE == Chars("close") && KEEP_ALIVE == Chars("Keep-Alive")
  {
    assert |KEEP_ALIVE| == 10;
  }

  lemma OtherNamesDiffer()
    ensures Lower(TRANSFER_ENCODING) != Lower(CONNECTION) && Lower(CONTENT_LENGTH) != Lower(CONNECTION)
    ensures Lower(CONTENT_TYPE) != Lower(CONNECTION)
  {
    assert |CONNECTION| == 10 && |TRANSFER_ENCODING| == 17 && |CONTENT_LENGTH| == 14 && |CONTENT_TYPE| == 12;
  }

  /** The Connection header that counts: the writer's "close" or "Keep-Alive", or else the handler's own. */
  lemma ConnectionWritten(res: Response, ctx: Context)
    ensures
      var own, m := HeaderMap(map[], res.headers), HeaderMap(map[], FinalHeaders(res, ctx));
      var key := Lower(CONNECTION);
      if ctx.lastConnection || ctx.connection == CLOSE then key in m && m[key] == CLOSE
      else if ctx.connection == KEEP_ALIVE then key in m && m[key] == KEEP_ALIVE
      else (key in m <==> key in own) && (key in m ==> m[key] == own[key])
  {
    hide SetHeader, HeaderMap, HasHeader, Lower, Dec, CONNECTION, TRANSFER_ENCODING, CONTENT_LENGTH, CONTENT_TYPE,
      TEXT_PLAIN, CHUNKED;
    OtherNamesDiffer();
    SetHeaderCounts(res.headers, CONNECTION, CLOSE);
    SetHeaderCounts(res.headers, CONNECTION, KEEP_ALIVE);
    SetHeaderCounts(SetHeader(res.headers, CONNECTION, CLOSE), CONNECTION, KEEP_ALIVE);
    var h := ConnectionHeaders(res, ctx);
    SetHeaderCounts(h, TRANSFER_ENCODING, CHUNKED);
    SetHeaderCounts(h, CONTENT_LENGTH, Dec(0));
    SetHeaderCounts(h, CONTENT_TYPE, TEXT_PLAIN);
    var typed := if HasHeader(h, CONTENT_TYPE) then h else SetHeader(h, CONTENT_TYPE, TEXT_PLAIN);
    SetHeaderCounts(typed, CONTENT_LENGTH, Dec(|res.body|));
  }

  /** The written response says "close" exactly when the server is to close, or leaves it to a handler that says so. */
  lemma SaysCloseIff(res: Response, ctx: Context)
    ensures Says(FinalHeaders(res, ctx), H.CONNECTION, H.CLOSE)
            <==> || ctx.lastConnection
                 || ctx.connection == Chars("close")
                 || (ctx.connection != Chars("Keep-Alive") && Says(res.headers, Chars("connection"), Chars("close")))
  {
    hide HeaderMap, FinalHeaders, Lower, Chars, CONNECTION, CLOSE, KEEP_ALIVE;
    ConnectionNames();
    ConnectionWritten(res, ctx);
  }

  // ---------- What is read ----------

  /** Nothing after the headers changes what they said about the connection. */
  lemma {:induction false} FeedKeepsWillClose(r: H.Resp, data: Bytes)
    requires r.phase != H.StatusLine && r.phase != H.Headers && H.Feed(r, data).Success?
    ensures H.Feed(r, data).value.0.willClose == r.willClose
    decreases |data|
  {
    hide CStr, StrToL16;
    if data != [] && r.phase != H.Complete && !H.AtBodyEnd(r) {
      FeedKeepsWillClose(H.Step(r, data[0]).value, data[1..]);
    }
  }

  lemma BeginBodyCloses(isHead: bool, status: nat, reason: Bytes, headers: seq<Header>)
    requires FinalStatus(status)
    ensures
      var begun := H.BeginBody(AfterHead(isHead, status, reason, headers));
      var chunked := Says(headers, H.TRANSFER_ENCODING, H.CHUNKED);
      begun.Success? ==>
        && begun.value.phase != H.StatusLine && begun.value.phase != H.Headers
        && (begun.value.willClose
            <==> Says(headers, H.CONNECTION, H.CLOSE) || (!chunked && Expected(isHead, status, headers) == -1))
  {
    hide HeaderMap, Lower, AToI;
  }

  /**
    * After reading what `write_response` wrote, however much follows, HappyHTTP expects the connection to close
    * exactly when the server says that it will, or no length is known.
    */
  lemma WillCloseIff(res: Response, ctx: Context, tail: Bytes)
    requires AllWritable(res.headers) && FinalStatus(res.status) && Read(res, ctx, tail).Success?
    ensures Read(res, ctx, tail).value.0.willClose
            <==> || ctx.lastConnection
                 || ctx.connection == Chars("close")
                 || (ctx.connection != Chars("Keep-Alive") && Says(res.headers, Chars("connection"), Chars("close")))
                 || (!Coded(res) && !Says(res.headers, H.TRANSFER_ENCODING, H.CHUNKED)
                     && !ctx.isHead && MayHaveBody(res.status) && DeclaredLength(res) == -1)
  {
    hide H.Feed, H.BeginBody, Head, FinalHeaders, StatusMessage, AllWritable, Says, HasHeader, HeaderMap, AToI, Coded;
    hide DeclaredLength, BodyText, Printed, Chars;
    var headers := FinalHeaders(res, ctx);
    ReadHead(res, ctx, tail);
    SaysCloseIff(res, ctx);
    BeginBodyCloses(ctx.isHead, res.status, StatusMessage(res.status), headers);
    var r := H.BeginBody(AfterHead(ctx.isHead, res.status, StatusMessage(res.status), headers)).value;
    FeedKeepsWillClose(r.(lineBuf := []), BodyText(res, ctx) + tail);
    if Coded(res) {
      StreamedFraming(res, ctx);
    } else {
      CountedFraming(res, ctx);
    }
  }
}
