/**
  * Which responses arrive: what httplib's `write_response` writes, read by HappyHTTP, for every response with
  * headers that can be written at all.
  */
module Arrival {
  import opened Basics
  import opened CStrings
  import H = HappyHttp
  import P = HappyHttpResponse
  import opened ChunkedCoding
  import opened HttplibResponse
  import opened ResponseRoundTrip

  // ---------- What the written headers say ----------

  /** The names httplib sets, as HappyHTTP looks them up. */
  lemma NamesAreLooked()
    ensures Lower(TRANSFER_ENCODING) == H.TRANSFER_ENCODING && Lower(CHUNKED) == H.CHUNKED
    ensures Lower(CONTENT_LENGTH) == H.CONTENT_LENGTH
  {
  }

  lemma NamesDiffer()
    ensures Lower(CONNECTION) != Lower(TRANSFER_ENCODING) && Lower(CONNECTION) != Lower(CONTENT_LENGTH)
    ensures Lower(CONTENT_TYPE) != Lower(TRANSFER_ENCODING) && Lower(CONTENT_TYPE) != Lower(CONTENT_LENGTH)
    ensures Lower(CONTENT_LENGTH) != Lower(TRANSFER_ENCODING)
  {
    assert |CONNECTION| == 10 && |TRANSFER_ENCODING| == 17 && |CONTENT_LENGTH| == 14 && |CONTENT_TYPE| == 12;
  }

  /** The two headers the parser takes the body's form from are left alone. */
  predicate SameFraming(m: map<Bytes, Bytes>, m': map<Bytes, Bytes>) {
    && (Lower(TRANSFER_ENCODING) in m <==> Lower(TRANSFER_ENCODING) in m')
    && (Lower(TRANSFER_ENCODING) in m ==> m[Lower(TRANSFER_ENCODING)] == m'[Lower(TRANSFER_ENCODING)])
    && (Lower(CONTENT_LENGTH) in m <==> Lower(CONTENT_LENGTH) in m')
    && (Lower(CONTENT_LENGTH) in m ==> m[Lower(CONTENT_LENGTH)] == m'[Lower(CONTENT_LENGTH)])
  }

  lemma ConnectionKeepsFraming(res: Response, ctx: Context)
    ensures SameFraming(HeaderMap(map[], res.headers), HeaderMap(map[], ConnectionHeaders(res, ctx)))
  {
    hide SetHeader, HeaderMap, Lower, CONNECTION, CLOSE, KEEP_ALIVE, TRANSFER_ENCODING, CONTENT_LENGTH;
    NamesDiffer();
    SetHeaderCounts(res.headers, CONNECTION, CLOSE);
    SetHeaderCounts(res.headers, CONNECTION, KEEP_ALIVE);
    SetHeaderCounts(SetHeader(res.headers, CONNECTION, CLOSE), CONNECTION, KEEP_ALIVE);
  }

  /** The writer codes in chunks what a handler streams without a length of its own. */
  predicate Coded(res: Response) {
    res.body == [] && res.streamcb.Some? && !HasHeader(res.headers, CONTENT_LENGTH)
  }

  /** A streamed response without a length of its own says that it is chunked. */
  lemma StreamedFraming(res: Response, ctx: Context)
    requires Coded(res)
    ensures Says(FinalHeaders(res, ctx), H.TRANSFER_ENCODING, H.CHUNKED)
    ensures !HasHeader(FinalHeaders(res, ctx), CONTENT_LENGTH)
  {
    hide SetHeader, HeaderMap, HasHeader, Lower, ConnectionHeaders, TRANSFER_ENCODING, CONTENT_LENGTH, CHUNKED;
    NamesAreLooked();
    NamesDiffer();
    var h := ConnectionHeaders(res, ctx);
    ConnectionKeepsFraming(res, ctx);
    HasHeaderIff(res.headers, CONTENT_LENGTH);
    HasHeaderIff(h, CONTENT_LENGTH);
    SetHeaderCounts(h, TRANSFER_ENCODING, CHUNKED);
    HasHeaderIff(FinalHeaders(res, ctx), CONTENT_LENGTH);
  }

  /** The length that any other response declares: of its body, or as its handler has it. */
  function DeclaredLength(res: Response): int {
    var m := HeaderMap(map[], res.headers);
    if res.body == [] && H.CONTENT_LENGTH in m then AToI(m[H.CONTENT_LENGTH]) else |res.body|
  }

  /** The writer gives every other response that length, and calls it chunked only if its handler did. */
  lemma CountedFraming(res: Response, ctx: Context)
    requires !Coded(res)
    ensures
      var m := HeaderMap(map[], FinalHeaders(res, ctx));
      H.CONTENT_LENGTH in m && AToI(m[H.CONTENT_LENGTH]) == DeclaredLength(res)
    ensures Says(FinalHeaders(res, ctx), H.TRANSFER_ENCODING, H.CHUNKED)
            <==> Says(res.headers, H.TRANSFER_ENCODING, H.CHUNKED)
  {
    hide SetHeader, HeaderMap, HasHeader, Lower, ConnectionHeaders, Dec, AToI,
      TRANSFER_ENCODING, CONTENT_LENGTH, CONTENT_TYPE, TEXT_PLAIN, CHUNKED;
    NamesAreLooked();
    NamesDiffer();
    DecParses(|res.body|);
    var h := ConnectionHeaders(res, ctx);
    ConnectionKeepsFraming(res, ctx);
    HasHeaderIff(res.headers, CONTENT_LENGTH);
    HasHeaderIff(h, CONTENT_LENGTH);
    SetHeaderCounts(h, CONTENT_TYPE, TEXT_PLAIN);
    var typed := if HasHeader(h, CONTENT_TYPE) then h else SetHeader(h, CONTENT_TYPE, TEXT_PLAIN);
    SetHeaderCounts(if res.body == [] then h else typed, CONTENT_LENGTH, Dec(|res.body|));
  }

  lemma SetHeaderIsWritable(headers: seq<Header>, name: Bytes, value: Bytes)
    requires AllWritable(headers) && Writable(Header(name, value))
    ensures AllWritable(SetHeader(headers, name, value))
  {
    hide Writable, Place;
  }

  lemma LengthIsWritable(n: nat)
    ensures Writable(Header(CONTENT_LENGTH, Dec(n)))
  {
    hide Dec, AToI;
    DecParses(n);
    hide CONTENT_LENGTH, Token;
    NamesAreTokens();
    TokenIsGood(CONTENT_LENGTH);
    DigitsAreOneLine(Dec(n));
  }

  lemma DigitsAreOneLine(s: Bytes)
    requires AllDigits(s)
    ensures OneLine(s) && (s != [] ==> s[0] != SPACE && s[0] != TAB)
  {
  }

  /** Letters, digits, "-" and "/" alone. */
  predicate Token(s: Bytes) {
    s != [] && forall k :: 0 <= k < |s| ==> 45 <= s[k] <= 122 && s[k] != COLON
  }

  lemma TokenIsGood(s: Bytes)
    requires Token(s)
    ensures s != [] && OneLine(s) && COLON !in s && !IsSpace(s[0]) && s[0] != SPACE && s[0] != TAB
  {
  }

  lemma NamesAreTokens()
    ensures Token(CONNECTION) && Token(CONTENT_TYPE) && Token(CONTENT_LENGTH)
  {
  }

  lemma LongNameIsToken()
    ensures Token(TRANSFER_ENCODING)
  {
  }

  lemma ValuesAreTokens()
    ensures Token(CLOSE) && Token(KEEP_ALIVE) && Token(TEXT_PLAIN) && Token(CHUNKED)
  {
  }

  lemma TokensAreWritable(name: Bytes, value: Bytes)
    requires Token(name) && Token(value)
    ensures Writable(Header(name, value))
  {
    hide Token;
    TokenIsGood(name);
    TokenIsGood(value);
  }

  lemma FinalHeadersAreWritable(res: Response, ctx: Context)
    requires AllWritable(res.headers)
    ensures AllWritable(FinalHeaders(res, ctx)) && Printed(FinalHeaders(res, ctx)) == FinalHeaders(res, ctx)
  {
    hide SetHeader, HasHeader, AllWritable, Writable, Dec, Printed, Token,
      CONNECTION, CLOSE, KEEP_ALIVE, TRANSFER_ENCODING, CONTENT_LENGTH, CONTENT_TYPE, TEXT_PLAIN, CHUNKED;
    NamesAreTokens();
    LongNameIsToken();
    ValuesAreTokens();
    TokensAreWritable(CONNECTION, CLOSE);
    TokensAreWritable(CONNECTION, KEEP_ALIVE);
    TokensAreWritable(CONTENT_TYPE, TEXT_PLAIN);
    TokensAreWritable(TRANSFER_ENCODING, CHUNKED);
    LengthIsWritable(0);
    LengthIsWritable(|res.body|);
    SetHeaderIsWritable(res.headers, CONNECTION, CLOSE);
    SetHeaderIsWritable(res.headers, CONNECTION, KEEP_ALIVE);
    SetHeaderIsWritable(SetHeader(res.headers, CONNECTION, CLOSE), CONNECTION, KEEP_ALIVE);
    var h := ConnectionHeaders(res, ctx);
    assert AllWritable(h);
    SetHeaderIsWritable(h, TRANSFER_ENCODING, CHUNKED);
    SetHeaderIsWritable(h, CONTENT_LENGTH, Dec(0));
    SetHeaderIsWritable(h, CONTENT_TYPE, TEXT_PLAIN);
    var typed := if HasHeader(h, CONTENT_TYPE) then h else SetHeader(h, CONTENT_TYPE, TEXT_PLAIN);
    SetHeaderIsWritable(typed, CONTENT_LENGTH, Dec(|res.body|));
    WritableIsPrinted(FinalHeaders(res, ctx));
  }

  /** The handler's own headers are among those written, under every name that the writer does not set. */
  lemma HandlersHeadersAreKept(res: Response, ctx: Context, key: Bytes)
    requires key !in {Lower(CONNECTION), Lower(TRANSFER_ENCODING), Lower(CONTENT_LENGTH), Lower(CONTENT_TYPE)}
    ensures
      var m, m' := HeaderMap(map[], res.headers), HeaderMap(map[], FinalHeaders(res, ctx));
      (key in m <==> key in m') && (key in m ==> m[key] == m'[key])
  {
    hide SetHeader, HeaderMap, HasHeader, Lower, Dec,
      CONNECTION, CLOSE, KEEP_ALIVE, TRANSFER_ENCODING, CONTENT_LENGTH, CONTENT_TYPE, TEXT_PLAIN, CHUNKED;
    SetHeaderCounts(res.headers, CONNECTION, CLOSE);
    SetHeaderCounts(res.headers, CONNECTION, KEEP_ALIVE);
    SetHeaderCounts(SetHeader(res.headers, CONNECTION, CLOSE), CONNECTION, KEEP_ALIVE);
    var h := ConnectionHeaders(res, ctx);
    SetHeaderCounts(h, TRANSFER_ENCODING, CHUNKED);
    SetHeaderCounts(h, CONTENT_LENGTH, Dec(0));
    SetHeaderCounts(h, CONTENT_TYPE, TEXT_PLAIN);
    var typed := if HasHeader(h, CONTENT_TYPE) then h else SetHeader(h, CONTENT_TYPE, TEXT_PLAIN);
    SetHeaderCounts(typed, CONTENT_LENGTH, Dec(|res.body|));
  }

  // ---------- Arriving ----------

  /** The body that the handler gave, at once or piece by piece. */
  function Sent(res: Response): Bytes {
    if res.body != [] || res.streamcb.None? then res.body else BodyOf(res.streamcb.value)
  }

  function Read(res: Response, ctx: Context, tail: Bytes): Run {
    H.Feed(H.Fresh(ctx.isHead), Written(res, ctx) + tail)
  }

  /** The client has everything, with that body, and knows it at the last byte written. */
  predicate Arrives(res: Response, ctx: Context, body: Bytes) {
    var run := Read(res, ctx, []);
    && run.Success? && run.value.0.phase == H.Complete && run.value.1 == |Written(res, ctx)|
    && Received(run.value.0, res.status, StatusMessage(res.status), FinalHeaders(res, ctx), body)
  }

  /** A response that arrives does so in any fragments and with anything after it. */
  lemma ArrivesInFragments(res: Response, ctx: Context, body: Bytes, tail: Bytes, fragments: seq<Bytes>)
    requires Arrives(res, ctx, body) && Flatten(fragments) == Written(res, ctx) + tail
    ensures H.FeedAll(H.Fresh(ctx.isHead), fragments) == Read(res, ctx, [])
  {
    hide H.Feed, Written, Received;
    var data := Written(res, ctx);
    assert data + [] == data;
    H.FragmentationIndependence(H.Fresh(ctx.isHead), fragments);
    H.FeedConcat(H.Fresh(ctx.isHead), data, tail);
    H.FeedComplete(Read(res, ctx, []).value.0, tail);
  }

  /** One that is cut short anywhere is refused when the connection closes. */
  lemma TruncatedResponseIsRefused(res: Response, ctx: Context, body: Bytes, cut: nat)
    requires Arrives(res, ctx, body) && cut < |Written(res, ctx)|
    ensures
      var run := H.Feed(H.Fresh(ctx.isHead), Written(res, ctx)[..cut]);
      run.Success? && !H.MayClose(run.value.0)
  {
    hide H.Feed, Written, Received;
    var data := Written(res, ctx);
    assert data + [] == data;
    H.TruncationIsNoticed(H.Fresh(ctx.isHead), data, cut);
  }

  // ---------- The head ----------

  /** With a final status, reading goes on with the body as the written headers have it. */
  lemma ReadHead(res: Response, ctx: Context, tail: Bytes)
    requires AllWritable(res.headers) && FinalStatus(res.status)
    ensures
      var headers := FinalHeaders(res, ctx);
      var head := Head(res.status, StatusMessage(res.status), headers);
      && Written(res, ctx) == head + BodyText(res, ctx)
      && AllWritable(headers) && GoodReason(StatusMessage(res.status))
      && Read(res, ctx, tail)
         == Resume(H.BeginBody(AfterHead(ctx.isHead, res.status, StatusMessage(res.status), headers)),
                   BodyText(res, ctx) + tail, |head|)
  {
    hide H.Feed, H.BeginBody, Head, BodyText, FinalHeaders, StatusMessage, AllWritable, Printed;
    MessagesAreGood(res.status);
    FinalHeadersAreWritable(res, ctx);
    var headers := FinalHeaders(res, ctx);
    var head := Head(res.status, StatusMessage(res.status), headers);
    assert Written(res, ctx) + tail == head + (BodyText(res, ctx) + tail);
    FeedHead(ctx.isHead, res.status, StatusMessage(res.status), headers, BodyText(res, ctx) + tail);
  }

  /** The parser refuses other statuses, or skips the response as an interim one. */
  lemma OtherStatusDoesNotArrive(res: Response, ctx: Context, body: Bytes)
    requires !FinalStatus(res.status)
    ensures !Arrives(res, ctx, body)
  {
    hide H.Feed, Written, StatusMessage, FinalHeaders, HeaderMap;
    if Arrives(res, ctx, body) {
      H.FeedKeepsInv(H.Fresh(ctx.isHead), Written(res, ctx) + []);
      H.FeedKeepsStatus(H.Fresh(ctx.isHead), Written(res, ctx) + []);
      assert false;
    }
  }

  // ---------- The body ----------

  /** A coded stream is read back unless it was asked for by HEAD, when the parser waits for a first chunk in vain. */
  lemma CodedArrivesIff(res: Response, ctx: Context)
    requires AllWritable(res.headers) && FinalStatus(res.status) && Coded(res)
    ensures Arrives(res, ctx, Sent(res)) <==> !ctx.isHead && SizesFit(res.streamcb.value)
  {
    hide H.Feed, H.BeginBody, Head, FinalHeaders, StatusMessage, AllWritable, Wire, SizesFit, Says, HasHeader, Written;
    var headers := FinalHeaders(res, ctx);
    ReadHead(res, ctx, []);
    StreamedFraming(res, ctx);
    var r := ChunkedBegins(ctx.isHead, res.status, StatusMessage(res.status), headers);
    if ctx.isHead {
      P.NothingToFeed(r, BodyText(res, ctx) + []);
    } else {
      HappyHttpReadsChunks(r, res.streamcb.value, []);
      assert BodyText(res, ctx) == Wire(res.streamcb.value);
      assert [] + Sent(res) == Sent(res);
    }
  }

  /** A body that is not coded but called so by its handler never arrives. */
  lemma CalledChunkedDoesNotArrive(res: Response, ctx: Context)
    requires AllWritable(res.headers) && FinalStatus(res.status) && !Coded(res)
    requires Says(res.headers, H.TRANSFER_ENCODING, H.CHUNKED)
    ensures !Arrives(res, ctx, Sent(res))
  {
    hide H.Feed, H.BeginBody, Head, FinalHeaders, StatusMessage, AllWritable, Says, HasHeader, Written;
    var text := BodyText(res, ctx);
    ReadHead(res, ctx, []);
    assert text + [] == text;
    CountedFraming(res, ctx);
    var r := ChunkedBegins(ctx.isHead, res.status, StatusMessage(res.status), FinalHeaders(res, ctx));
    if text == [] {
      P.NothingToFeed(r, text);
    } else {
      UncodedText(res, ctx);
      if H.Feed(r, text).Success? {
        H.DeliversLess(r, text);
      }
    }
  }

  /** What is not coded is written as it is, but for HEAD. */
  lemma UncodedText(res: Response, ctx: Context)
    requires !Coded(res)
    ensures BodyText(res, ctx) == if ctx.isHead then [] else Sent(res)
  {
    hide SetHeader, HeaderMap, HasHeader, Lower, ConnectionHeaders, CONTENT_LENGTH;
    if !ctx.isHead && res.body == [] && res.streamcb.Some? {
      ConnectionKeepsFraming(res, ctx);
      HasHeaderIff(res.headers, CONTENT_LENGTH);
      HasHeaderIff(ConnectionHeaders(res, ctx), CONTENT_LENGTH);
    }
  }

  /** Any other body arrives if the parser expects just as many bytes, and at least one. */
  lemma CountedArrivesIff(res: Response, ctx: Context)
    requires AllWritable(res.headers) && FinalStatus(res.status) && !Coded(res)
    requires !Says(res.headers, H.TRANSFER_ENCODING, H.CHUNKED)
    ensures Arrives(res, ctx, Sent(res))
            <==> !ctx.isHead && MayHaveBody(res.status)
                 && 0 < |Sent(res)| <= MAX_INT && DeclaredLength(res) == |Sent(res)|
  {
    hide H.Feed, H.BeginBody, Head, FinalHeaders, StatusMessage, AllWritable, Says, HasHeader, Written, HeaderMap, AToI;
    hide DeclaredLength;
    var headers := FinalHeaders(res, ctx);
    var text := BodyText(res, ctx);
    ReadHead(res, ctx, []);
    assert text + [] == text;
    CountedFraming(res, ctx);
    UncodedText(res, ctx);
    CountedBegins(ctx.isHead, res.status, StatusMessage(res.status), headers);
    var n := Expected(ctx.isHead, res.status, headers);
    if -1 <= n <= MAX_INT {
      var r := H.BeginBody(AfterHead(ctx.isHead, res.status, StatusMessage(res.status), headers)).value;
      if n == -1 {
        H.UntilCloseGoesOn(r, text);
      } else {
        FeedCounted(r, text);
        assert |text| == n ==> text[..n] == text;
      }
    }
  }

  /**
    * Exactly which responses arrive. A stream that the writer codes: unless the request was HEAD or a piece is too
    * big. Any other body: if the request was not HEAD, the status may have one, its handler did not call it chunked,
    * it is not empty, and the length it declares is its own.
    */
  lemma ArrivesIff(res: Response, ctx: Context)
    requires AllWritable(res.headers)
    ensures Arrives(res, ctx, Sent(res))
            <==> && FinalStatus(res.status) && !ctx.isHead
                 && if Coded(res) then SizesFit(res.streamcb.value)
                    else && MayHaveBody(res.status) && !Says(res.headers, H.TRANSFER_ENCODING, H.CHUNKED)
                         && 0 < |Sent(res)| <= MAX_INT && DeclaredLength(res) == |Sent(res)|
  {
    hide Arrives, Coded, Says, AllWritable, SizesFit, DeclaredLength, Sent;
    if !FinalStatus(res.status) {
      OtherStatusDoesNotArrive(res, ctx, Sent(res));
    } else if Coded(res) {
      CodedArrivesIff(res, ctx);
    } else if Says(res.headers, H.TRANSFER_ENCODING, H.CHUNKED) {
      CalledChunkedDoesNotArrive(res, ctx);
    } else {
      CountedArrivesIff(res, ctx);
    }
  }

  // ---------- What happens otherwise ----------

  /**
    * A response of which the parser expects no body, though one may have been written: everything else arrives, but
    * the response is complete only when a further byte comes, and that and any body are left unread.
    */
  lemma NothingExpectedWaits(res: Response, ctx: Context, tail: Bytes)
    requires AllWritable(res.headers) && FinalStatus(res.status) && !Coded(res)
    requires !Says(res.headers, H.TRANSFER_ENCODING, H.CHUNKED)
    requires ctx.isHead || !MayHaveBody(res.status) || DeclaredLength(res) == 0
    ensures
      var run := Read(res, ctx, tail);
      var rest := BodyText(res, ctx) + tail;
      && run.Success? && run.value.1 == |Written(res, ctx)| - |BodyText(res, ctx)|
      && run.value.0.phase == (if rest == [] then H.Body else H.Complete)
      && Received(run.value.0, res.status, StatusMessage(res.status), FinalHeaders(res, ctx), [])
  {
    hide H.Feed, H.BeginBody, Head, FinalHeaders, StatusMessage, AllWritable, Says, HasHeader, HeaderMap, AToI;
    hide DeclaredLength, BodyText, Printed;
    var headers := FinalHeaders(res, ctx);
    ReadHead(res, ctx, tail);
    CountedFraming(res, ctx);
    CountedBegins(ctx.isHead, res.status, StatusMessage(res.status), headers);
    var r := H.BeginBody(AfterHead(ctx.isHead, res.status, StatusMessage(res.status), headers)).value;
    FeedCounted(r, BodyText(res, ctx) + tail);
  }

  /** A coded stream asked for by HEAD: nothing follows the head, and the parser waits for a chunk. */
  lemma HeadOfStreamWaitsForAChunk(res: Response, ctx: Context)
    requires AllWritable(res.headers) && FinalStatus(res.status) && Coded(res) && ctx.isHead
    ensures
      var run := Read(res, ctx, []);
      run.Success? && run.value.1 == |Written(res, ctx)| && AwaitsChunk(run.value.0) && !H.MayClose(run.value.0)
  {
    hide H.Feed, H.BeginBody, Head, FinalHeaders, StatusMessage, AllWritable, Says, HasHeader, Written;
    ReadHead(res, ctx, []);
    StreamedFraming(res, ctx);
    var r := ChunkedBegins(ctx.isHead, res.status, StatusMessage(res.status), FinalHeaders(res, ctx));
    P.NothingToFeed(r, BodyText(res, ctx) + []);
  }

  // ---------- Responses that do not arrive ----------

  /** The simplest requests. */
  function Asked(isHead: bool): Context {
    Context(isHead, false, [])
  }

  lemma NoHeaders()
    ensures AllWritable([]) && !HasHeader([], CONTENT_LENGTH) && !Says([], H.TRANSFER_ENCODING, H.CHUNKED)
  {
  }

  /** HEAD for an empty stream: the response is not complete at its end, nor may the connection close. */
  lemma HeadOfStreamDoesNotArrive()
    ensures
      var res := Response(200, [], [], Some([]));
      && !Arrives(res, Asked(true), Sent(res))
      && Read(res, Asked(true), []).Success? && !H.MayClose(Read(res, Asked(true), []).value.0)
  {
    hide AllWritable, HasHeader, Says, Arrives, Read;
    var res := Response(200, [], [], Some([]));
    NoHeaders();
    ArrivesIff(res, Asked(true));
    HeadOfStreamWaitsForAChunk(res, Asked(true));
  }

  /** "a" with status 204: the byte is left unread, at the head of whatever comes next. */
  lemma BodyOf204DoesNotArrive()
    ensures
      var res := Response(204, [], [97], None);
      var run := Read(res, Asked(false), []);
      && !Arrives(res, Asked(false), Sent(res))
      && run.Success? && run.value.0.phase == H.Complete && run.value.0.body == []
      && run.value.1 == |Written(res, Asked(false))| - 1
  {
    hide AllWritable, HasHeader, Says, Arrives, Read, Written;
    var res := Response(204, [], [97], None);
    NoHeaders();
    ArrivesIff(res, Asked(false));
    NothingExpectedWaits(res, Asked(false), []);
  }

  /** "a", streamed under a Content-Length of 2: the parser waits for another byte. */
  lemma ShortStreamDoesNotArrive()
    ensures
      var res := Response(200, [Header(CONTENT_LENGTH, [50])], [], Some([[97]]));
      DeclaredLength(res) == 2 && Sent(res) == [97] && !Arrives(res, Asked(false), Sent(res))
  {
    hide Arrives, AllWritable, Says, HeaderMap, HasHeader, Writable, AToI, Dec, BodyOf;
    hide CONTENT_LENGTH, H.CONTENT_LENGTH;
    var headers := [Header(CONTENT_LENGTH, [50])];
    var res := Response(200, headers, [], Some([[97]]));
    TwoIsWritten();
    LengthIsWritable(2);
    OneWritable(headers);
    LengthHeader(headers);
    OnePiece([97]);
    ArrivesIff(res, Asked(false));
  }

  lemma OnePiece(piece: Bytes)
    requires piece != []
    ensures BodyOf([piece]) == piece
  {
    assert [piece][1..] == [];
    assert BodyOf([piece]) == piece + BodyOf([]);
  }

  lemma TwoIsWritten()
    ensures Dec(2) == [50] && AToI([50]) == 2
  {
    DecParses(2);
  }

  lemma OneWritable(headers: seq<Header>)
    requires |headers| == 1 && Writable(headers[0])
    ensures AllWritable(headers)
  {
    hide Writable;
  }

  lemma LengthHeader(headers: seq<Header>)
    requires |headers| == 1 && headers[0].name == CONTENT_LENGTH
    ensures HeaderMap(map[], headers) == map[H.CONTENT_LENGTH := headers[0].value]
    ensures HasHeader(headers, CONTENT_LENGTH) && !Says(headers, H.TRANSFER_ENCODING, H.CHUNKED)
  {
    hide Lower, HasHeader;
    NamesAreLooked();
    OneHeader(map[], headers[0]);
    assert headers == [headers[0]];
    HasHeaderIff(headers, CONTENT_LENGTH);
  }
}
