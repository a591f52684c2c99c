/** `Response::pump` and the handlers it drives, proved to be the byte machine of HappyHttp. */
module HappyHttpResponse {
  import opened Basics
  import opened CStrings
  import opened HappyHttp

  // ---------- Runs from the middle of a buffer ----------

  /** The same run, counted from k bytes earlier. */
  function Shifted(f: Result<(Resp, nat), HttpError>, k: nat): Result<(Resp, nat), HttpError> {
    match f
    case Failure(e) => Failure(e)
    case Success((r, n)) => Success((r, n + k))
  }

  lemma FeedByte(r: Resp, data: Bytes, k: nat)
    requires k < |data| && TakesLines(r.phase)
    ensures Feed(r, data[k..])
            == match Step(r, data[k])
               case Failure(e) => Failure(e)
               case Success(r') => Shifted(Feed(r', data[k + 1..]), 1)
  {
    hide Step;
    assert data[k..][0] == data[k] && data[k..][1..] == data[k + 1..];
  }

  lemma DeliverConcat(r: Resp, a: Bytes, b: Bytes)
    requires r.phase == Body
    requires if r.chunked then |a| < r.chunkLeft else r.length == -1 || |a| < r.length - r.bytesRead
    ensures Deliver(Deliver(r, a), b) == Deliver(r, a + b)
    ensures
      var r' := Deliver(r, a);
      r'.phase == Body && r'.chunked == r.chunked && r'.length == r.length
      && r'.bytesRead == r.bytesRead + |a| && (r.chunked ==> r'.chunkLeft == r.chunkLeft - |a|)
  {
    assert (r.body + a) + b == r.body + (a + b);
  }

  lemma DeliverFirst(r: Resp, data: Bytes)
    requires r.phase == Body && data != [] && !AtBodyEnd(r)
    ensures Feed(r, data) == Shifted(Feed(Deliver(r, [data[0]]), data[1..]), 1)
  {
    hide Deliver;
  }

  lemma FirstAndRest(data: Bytes, n: nat)
    requires 0 < n <= |data|
    ensures [data[0]] + data[1..][..n - 1] == data[..n] && data[1..][n - 1..] == data[n..]
  {
  }

  /** Body data may be handed over in one piece as long as the piece fits the chunk or the counted body. */
  lemma {:induction false} DeliverInOnePiece(r: Resp, data: Bytes, n: nat)
    requires r.phase == Body && 0 < n <= |data|
    requires if r.chunked then n <= r.chunkLeft else r.length == -1 || n <= r.length - r.bytesRead
    ensures Feed(r, data) == Shifted(Feed(Deliver(r, data[..n]), data[n..]), n)
    decreases n
  {
    hide Feed, Deliver;
    DeliverFirst(r, data);
    FirstAndRest(data, n);
    if n > 1 {
      var first, rest := [data[0]], data[1..][..n - 1];
      DeliverConcat(r, first, rest);
      DeliverInOnePiece(Deliver(r, first), data[1..], n - 1);
    } else {
      assert data[..n] == [data[0]];
    }
  }

  method SkipSpaces(p: Bytes, from: nat) returns (i: nat)
    requires from <= |p|
    ensures i == SpacesEnd(p, from)
  {
    i := from;
    while i < |p| && p[i] == SPACE
      invariant from <= i <= |p| && SpacesEnd(p, i) == SpacesEnd(p, from)
    {
      i := i + 1;
    }
  }

  method TakeWord(p: Bytes, from: nat) returns (word: Bytes, i: nat)
    requires from <= |p|
    ensures i == WordEnd(p, from) && word == p[from..i]
  {
    word, i := [], from;
    while i < |p| && p[i] != SPACE
      invariant from <= i <= |p| && WordEnd(p, i) == WordEnd(p, from)
      invariant word == p[from..i]
    {
      word := word + [p[i]];
      i := i + 1;
    }
  }

  method TakeName(p: Bytes) returns (header: Bytes, i: nat)
    ensures i == ColonAt(p, 0) && header == Lower(p[..i])
  {
    header, i := [], 0;
    while i < |p| && p[i] != COLON
      invariant i <= |p| && ColonAt(p, i) == ColonAt(p, 0) && header == Lower(p[..i])
    {
      header := header + [ToLower(p[i])];
      i := i + 1;
    }
  }

  method SkipBlanks(p: Bytes, from: nat) returns (i: nat)
    requires from <= |p|
    ensures i == BlanksEnd(p, from)
  {
    i := from;
    while i < |p| && (p[i] == SPACE || p[i] == TAB)
      invariant from <= i <= |p| && BlanksEnd(p, i) == BlanksEnd(p, from)
    {
      i := i + 1;
    }
  }

  method SkipWhite(p: Bytes, from: nat) returns (i: nat)
    requires from <= |p|
    ensures i == WhiteEnd(p, from)
  {
    i := from;
    while i < |p| && IsSpace(p[i])
      invariant from <= i <= |p| && WhiteEnd(p, i) == WhiteEnd(p, from)
    {
      i := i + 1;
    }
  }

  /** A handler threw what it should have, or left the response as it should be. */
  predicate Outcome(expected: Result<Resp, HttpError>, thrown: Option<HttpError>, r: Resp) {
    match expected
    case Failure(e) => thrown == Some(e)
    case Success(r') => thrown == None && r == r'
  }

  predicate LineOutcome(expected: Result<Resp, HttpError>, thrown: Option<HttpError>, r: Resp) {
    match expected
    case Failure(e) => thrown == Some(e)
    case Success(r') => thrown == None && r == r'.(lineBuf := [])
  }

  class Response {
    const isHead: bool
    var phase: Phase
    var versionString: Bytes
    var version: int
    var status: int
    var reason: Bytes
    var headers: map<Bytes, Bytes>
    var bytesRead: nat
    var chunked: bool
    var chunkLeft: int
    var length: int
    var willClose: bool
    var lineBuf: Bytes
    var headerAccum: Bytes
    /** What the data callback has been given. */
    var body: Bytes
    /** How often the other two callbacks have been invoked. */
    var begun: nat
    var completed: nat

    ghost function AsResp(): Resp
      reads this
    {
      Resp(isHead, phase, versionString, version, status, reason, headers, bytesRead, chunked, chunkLeft, length,
           willClose, lineBuf, headerAccum, body, begun, completed)
    }

    constructor (isHead: bool)
      ensures AsResp() == Fresh(isHead) && Inv(AsResp())
    {
      this.isHead := isHead;
      phase, versionString, version, status, reason := StatusLine, [], 0, 0, [];
      headers, bytesRead, chunked, chunkLeft, length := map[], 0, false, 0, -1;
      willClose, lineBuf, headerAccum, body, begun, completed := false, [], [], [], 0, 0;
    }

    // ---------- Lines ----------

    method ParseStatusLine(line: Bytes)
      modifies this
      ensures AsResp() == ParsedStatusLine(old(AsResp()), line)
    {
      hide AToI, CStr, SpacesEnd, WordEnd;
      var p := CStr(line);
      var word: Bytes;
      var i := SkipSpaces(p, 0);
      word, i := TakeWord(p, i);
      versionString := versionString + word;
      i := SkipSpaces(p, i);
      word, i := TakeWord(p, i);
      i := SkipSpaces(p, i);
      reason := reason + p[i..];
      status := AToI(word);
    }

    method ProcessStatusLine(line: Bytes) returns (thrown: Option<HttpError>)
      modifies this
      ensures Outcome(StatusLineOf(old(AsResp()), line), thrown, AsResp())
    {
      hide ParsedStatusLine, VERSION_1_0, VERSION_1_X;
      ParseStatusLine(line);
      if status < 100 || status > 999 {
        return Some(BadStatusLine);
      }
      if versionString == VERSION_1_0 {
        version := 10;
      } else if VERSION_1_X <= versionString {
        version := 11;
      } else {
        return Some(UnknownProtocol);
      }
      phase, headerAccum := Headers, [];
      return None;
    }

    method FlushHeader()
      modifies this
      ensures AsResp() == HappyHttp.FlushHeader(old(AsResp()))
    {
      hide CStr, ColonAt, BlanksEnd, Lower;
      if headerAccum == [] {
        return;
      }
      var p := CStr(headerAccum);
      var header, i := TakeName(p);
      if i < |p| {
        i := i + 1;
      }
      i := SkipBlanks(p, i);
      headers := headers[header := p[i..]];
      headerAccum := [];
    }

    function GetHeader(name: Bytes): Option<Bytes>
      reads this
    {
      if Lower(name) in headers then Some(headers[Lower(name)]) else None
    }

    /** The header is present and equals the lowercase text, case ignored. */
    predicate HeaderEquals(name: Bytes, text: Bytes)
      reads this
    {
      match GetHeader(name)
      case None => false
      case Some(value) => Lower(value) == text
    }

    method CheckClose() returns (close: bool)
      ensures close == HappyHttp.CheckClose(AsResp())
    {
      HeaderNamesAreLowercase();
      hide Lower, CONNECTION, CLOSE, KEEP_ALIVE;
      if version == 11 {
        return HeaderEquals(CONNECTION, CLOSE);
      }
      if GetHeader(KEEP_ALIVE).Some? {
        return false;
      }
      return true;
    }

    method CheckTransferCoding()
      modifies this
      ensures
        var r := old(AsResp());
        var c := HeaderIs(r, TRANSFER_ENCODING, CHUNKED);
        AsResp() == r.(chunked := c, chunkLeft := if c then -1 else r.chunkLeft, length := -1, willClose := false)
    {
      HeaderNamesAreLowercase();
      hide Lower, TRANSFER_ENCODING, CHUNKED;
      chunked, length, willClose := false, -1, false;
      if HeaderEquals(TRANSFER_ENCODING, CHUNKED) {
        chunked, chunkLeft := true, -1;
      }
    }

    method CheckContentLength()
      requires length == -1
      modifies this`length
      ensures length == BodyLength(old(AsResp()), chunked)
    {
      HeaderNamesAreLowercase();
      hide Lower, CONTENT_LENGTH, AToI;
      var contentLength := GetHeader(CONTENT_LENGTH);
      if contentLength.Some? && !chunked {
        length := AToI(contentLength.value);
      }
      if status == 204 || status == 304 || (status >= 100 && status < 200) || isHead {
        length := 0;
      }
    }

    method BeginBody() returns (thrown: Option<HttpError>)
      modifies this
      ensures Outcome(HappyHttp.BeginBody(old(AsResp())), thrown, AsResp())
    {
      hide BodyLength, HappyHttp.CheckClose, HeaderIs;
      ghost var r := AsResp();
      CheckTransferCoding();
      SameHeaders(r, AsResp(), chunked);
      willClose := CheckClose();
      SameHeaders(r, AsResp(), chunked);
      CheckContentLength();
      if !(-1 <= length <= MAX_INT) {
        return Some(LengthOutOfRange);
      }
      if !willClose && !chunked && length == -1 {
        willClose := true;
      }
      begun := begun + 1;
      phase := if chunked then ChunkLen else Body;
      return None;
    }

    method ProcessHeaderLine(line: Bytes) returns (thrown: Option<HttpError>)
      modifies this
      ensures Outcome(HeaderLineOf(old(AsResp()), line), thrown, AsResp())
    {
      hide HappyHttp.BeginBody, HappyHttp.FlushHeader, WhiteEnd, CStr;
      FlushKeepsBody(AsResp());
      if line == [] {
        FlushHeader();
        if status == 100 {
          phase := StatusLine;
          return None;
        }
        thrown := BeginBody();
        return;
      }
      var p := CStr(line);
      if p != [] && IsSpace(p[0]) {
        var i := SkipWhite(p, 1);
        headerAccum := headerAccum + [SPACE];
        headerAccum := headerAccum + p[i..];
      } else {
        FlushHeader();
        headerAccum := p;
      }
      return None;
    }

    method ProcessChunkLenLine(line: Bytes) returns (thrown: Option<HttpError>)
      modifies this
      ensures Outcome(ChunkLenLineOf(old(AsResp()), line), thrown, AsResp())
    {
      hide StrToL16;
      var left := StrToL16(line);
      chunkLeft := if left.Some? then left.value else 0;
      if !(0 <= chunkLeft <= MAX_INT) {
        return Some(LengthOutOfRange);
      }
      if chunkLeft == 0 {
        phase, headerAccum := Trailers, [];
      } else {
        phase := Body;
      }
      return None;
    }

    method Finish()
      modifies this`phase, this`completed
      ensures AsResp() == Finished(old(AsResp()))
    {
      phase := Complete;
      completed := completed + 1;
    }

    method ProcessTrailerLine(line: Bytes)
      modifies this
      ensures AsResp() == TrailerLineOf(old(AsResp()), line)
    {
      if line == [] {
        Finish();
      }
    }

    // ---------- Body ----------

    method ProcessDataChunked(data: Bytes) returns (n: nat)
      requires phase == Body && chunked && chunkLeft > 0 && data != []
      modifies this
      ensures 0 < n <= |data| && n <= old(chunkLeft)
      ensures AsResp() == Deliver(old(AsResp()), data[..n])
    {
      n := |data|;
      if n > chunkLeft {
        n := chunkLeft;
      }
      body := body + data[..n];
      bytesRead := bytesRead + n;
      chunkLeft := chunkLeft - n;
      if chunkLeft == 0 {
        phase := ChunkEnd;
      }
    }

    /** With nothing left to read, uses no byte and completes. */
    method ProcessDataNonChunked(data: Bytes) returns (n: nat)
      requires phase == Body && !chunked && data != [] && (length == -1 || bytesRead <= length)
      modifies this
      ensures n <= |data| && (old(length) == -1 || n <= old(length) - old(bytesRead))
      ensures n == 0 <==> AtBodyEnd(old(AsResp()))
      ensures AsResp() == if n == 0 then Finished(old(AsResp())) else Deliver(old(AsResp()), data[..n])
    {
      n := |data|;
      if length != -1 {
        var remaining := length - bytesRead;
        if n > remaining {
          n := remaining;
        }
      }
      body := body + data[..n];
      bytesRead := bytesRead + n;
      if length != -1 && bytesRead == length {
        Finish();
      }
    }

    // ---------- The pump ----------

    /** The line buffer holds a whole line: hand it to the phase's handler. */
    method ProcessLine() returns (thrown: Option<HttpError>)
      requires TakesLines(phase)
      modifies this
      ensures LineOutcome(LineOf(old(AsResp()), old(lineBuf)), thrown, AsResp())
    {
      hide StatusLineOf, HeaderLineOf, ChunkLenLineOf, TrailerLineOf;
      thrown := None;
      match phase {
        case StatusLine => thrown := ProcessStatusLine(lineBuf);
        case Headers => thrown := ProcessHeaderLine(lineBuf);
        case Trailers => ProcessTrailerLine(lineBuf);
        case ChunkLen => thrown := ProcessChunkLenLine(lineBuf);
        case ChunkEnd => phase := ChunkLen;
      }
      lineBuf := [];
    }

    /**
      * Accumulates a line, from byte `from` of the data on, and processes it when it is complete.
      * Returns where it stopped.
      */
    method PumpLine(data: Bytes, from: nat) returns (thrown: Option<HttpError>, at: nat)
      requires from < |data| && TakesLines(phase) && Inv(AsResp())
      modifies this
      ensures match thrown
              case Some(e) => Feed(old(AsResp()), data[from..]) == Failure(e)
              case None =>
                from < at <= |data| && Inv(AsResp())
                && Feed(old(AsResp()), data[from..]) == Shifted(Feed(AsResp(), data[at..]), at - from)
    {
      hide Inv, LineOf, Feed;
      at := from;
      while at < |data|
        invariant from <= at <= |data| && TakesLines(phase) && Inv(AsResp())
        invariant Feed(old(AsResp()), data[from..]) == Shifted(Feed(AsResp(), data[at..]), at - from)
      {
        var c := data[at];
        FeedByte(AsResp(), data, at);
        ghost var r := AsResp();
        at := at + 1;
        if c == LF {
          thrown := ProcessLine();
          if thrown == None {
            StepKeepsInv(r, c);
          }
          return;
        } else {
          StepKeepsInv(r, c);
          if c != CR {
            lineBuf := lineBuf + [c];
          }
        }
      }
      return None, at;
    }

    method PumpBody(data: Bytes, from: nat) returns (at: nat)
      requires from < |data| && phase == Body && Inv(AsResp())
      modifies this
      ensures from <= at <= |data| && Inv(AsResp()) && (at == from ==> phase == Complete)
      ensures Feed(old(AsResp()), data[from..]) == Shifted(Feed(AsResp(), data[at..]), at - from)
    {
      hide Deliver, Inv, Feed;
      var n: nat;
      ghost var r := AsResp();
      BodyHasRoom(r);
      if chunked {
        n := ProcessDataChunked(data[from..]);
      } else {
        n := ProcessDataNonChunked(data[from..]);
      }
      DeliverPiece(r, data, from, n);
      at := from + n;
    }

    /** One call of `pump`: the number of bytes used, or what was thrown. */
    method Pump(data: Bytes) returns (used: Result<nat, HttpError>)
      requires data != [] && Inv(AsResp())
      modifies this
      ensures match Feed(old(AsResp()), data)
              case Failure(e) => used == Failure(e)
              case Success((r, n)) => used == Success(n) && AsResp() == r && Inv(r)
    {
      hide Inv, Feed;
      var at := 0;
      assert data[at..] == data;
      while at < |data| && phase != Complete
        invariant at <= |data| && Inv(AsResp())
        invariant Feed(old(AsResp()), data) == Shifted(Feed(AsResp(), data[at..]), at)
        decreases |data| - at, phase != Complete
      {
        if phase != Body {
          var thrown;
          thrown, at := PumpLine(data, at);
          if thrown.Some? {
            return Failure(thrown.value);
          }
        } else {
          at := PumpBody(data, at);
        }
      }
      NothingToFeed(AsResp(), data[at..]);
      used := Success(at);
    }

    /** The connection has closed: a good end only for a body that was to run until then. */
    method NotifyConnectionClosed() returns (thrown: Option<HttpError>)
      requires Inv(AsResp())
      modifies this
      ensures Inv(AsResp())
      ensures thrown == None <==> phase == Complete
      ensures thrown == None <==> MayClose(old(AsResp()))
      ensures AsResp() == if thrown == None && old(phase) != Complete then Finished(old(AsResp())) else old(AsResp())
    {
      if phase == Complete {
        return None;
      }
      if phase == Body && !chunked && length == -1 {
        Finish();
        return None;
      }
      return Some(ClosedUnexpectedly);
    }
  }

  lemma HeaderNamesAreLowercase()
    ensures Lower(TRANSFER_ENCODING) == TRANSFER_ENCODING && Lower(CONTENT_LENGTH) == CONTENT_LENGTH
    ensures Lower(CONNECTION) == CONNECTION && Lower(KEEP_ALIVE) == KEEP_ALIVE
  {
  }

  lemma SameHeaders(r: Resp, r': Resp, chunked: bool)
    requires r.version == r'.version && r.headers == r'.headers && r.status == r'.status && r.isHead == r'.isHead
    ensures HappyHttp.CheckClose(r) == HappyHttp.CheckClose(r') && BodyLength(r, chunked) == BodyLength(r', chunked)
  {
  }

  lemma NothingToFeed(r: Resp, data: Bytes)
    requires data == [] || r.phase == Complete
    ensures Feed(r, data) == Success((r, 0))
  {
  }

  lemma BodyHasRoom(r: Resp)
    requires Inv(r) && r.phase == Body
    ensures if r.chunked then r.chunkLeft > 0 && !AtBodyEnd(r) else r.length == -1 || r.bytesRead <= r.length
  {
  }

  /** One pass of the pump over body data. */
  lemma DeliverPiece(r: Resp, data: Bytes, at: nat, n: nat)
    requires at < |data| && n <= |data| - at && r.phase == Body && Inv(r)
    requires if r.chunked then 0 < n <= r.chunkLeft else r.length == -1 || n <= r.length - r.bytesRead
    requires n == 0 <==> AtBodyEnd(r)
    ensures
      var r' := if n == 0 then Finished(r) else Deliver(r, data[at..][..n]);
      Inv(r') && Feed(r, data[at..]) == Shifted(Feed(r', data[at + n..]), n)
  {
    if n > 0 {
      DeliverInOnePiece(r, data[at..], n);
      assert data[at..][n..] == data[at + n..];
    }
  }
}
