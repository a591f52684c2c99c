/**
  * HappyHTTP's incremental response parser as a machine that takes one byte at a time.
  *
  * The library's own code takes a buffer, accumulates lines and copies body data in bulk; the class in
  * HappyHttpResponse does that and is proved to be this machine.
  */
module HappyHttp {
  import opened Basics
  import opened CStrings

  datatype Phase = StatusLine | Headers | Body | ChunkLen | ChunkEnd | Trailers | Complete

  datatype HttpError = BadStatusLine | UnknownProtocol | LengthOutOfRange | ClosedUnexpectedly

  /**
    * The fields of `Response`; and of its callbacks, how often the first and the last have been invoked and what the
    * data callback has been given.
    */
  datatype Resp = Resp(
    isHead: bool,
    phase: Phase,
    versionString: Bytes, version: int, status: int, reason: Bytes,
    headers: map<Bytes, Bytes>,
    bytesRead: nat, chunked: bool, chunkLeft: int, length: int, willClose: bool,
    lineBuf: Bytes, headerAccum: Bytes,
    body: Bytes, begun: nat, completed: nat)

  function Fresh(isHead: bool): Resp {
    Resp(isHead, StatusLine, [], 0, 0, [], map[], 0, false, 0, -1, false, [], [], [], 0, 0)
  }

  // ---------- Splitting text ----------

  /** The index of the first byte from i on that is (not) a space. */
  function SpacesEnd(s: Bytes, i: nat): (j: nat)
    requires i <= |s|
    ensures i <= j <= |s|
    decreases |s| - i
  {
    if i < |s| && s[i] == SPACE then SpacesEnd(s, i + 1) else i
  }

  function WordEnd(s: Bytes, i: nat): (j: nat)
    requires i <= |s|
    ensures i <= j <= |s|
    decreases |s| - i
  {
    if i < |s| && s[i] != SPACE then WordEnd(s, i + 1) else i
  }

  function ColonAt(s: Bytes, i: nat): (j: nat)
    requires i <= |s|
    ensures i <= j <= |s|
    decreases |s| - i
  {
    if i < |s| && s[i] != COLON then ColonAt(s, i + 1) else i
  }

  function BlanksEnd(s: Bytes, i: nat): (j: nat)
    requires i <= |s|
    ensures i <= j <= |s|
    decreases |s| - i
  {
    if i < |s| && (s[i] == SPACE || s[i] == TAB) then BlanksEnd(s, i + 1) else i
  }

  function WhiteEnd(s: Bytes, i: nat): (j: nat)
    requires i <= |s|
    ensures i <= j <= |s|
    decreases |s| - i
  {
    if i < |s| && IsSpace(s[i]) then WhiteEnd(s, i + 1) else i
  }

  // ---------- Lines ----------

  /** "HTTP:/1.0", as the source spells it. */
  const VERSION_1_0: Bytes := [72, 84, 84, 80, 58, 47, 49, 46, 48]

  /** "HTTP/1." */
  const VERSION_1_X: Bytes := [72, 84, 84, 80, 47, 49, 46]

  /** Version, status code and reason, separated by spaces. */
  function ParsedStatusLine(r: Resp, line: Bytes): Resp {
    var p := CStr(line);
    var v0 := SpacesEnd(p, 0);
    var v1 := WordEnd(p, v0);
    var s0 := SpacesEnd(p, v1);
    var s1 := WordEnd(p, s0);
    var t := SpacesEnd(p, s1);
    r.(versionString := r.versionString + p[v0..v1], reason := r.reason + p[t..], status := AToI(p[s0..s1]))
  }

  function StatusLineOf(r: Resp, line: Bytes): Result<Resp, HttpError> {
    var r' := ParsedStatusLine(r, line);
    if r'.status < 100 || r'.status > 999 then Failure(BadStatusLine)
    else if r'.versionString == VERSION_1_0 then Success(r'.(version := 10, phase := Headers, headerAccum := []))
    else if VERSION_1_X <= r'.versionString then Success(r'.(version := 11, phase := Headers, headerAccum := []))
    else Failure(UnknownProtocol)
  }

  /** The accumulated header, split at its colon and stored under its lowercase name. */
  function FlushHeader(r: Resp): Resp {
    if r.headerAccum == [] then r
    else
      var p := CStr(r.headerAccum);
      var c := ColonAt(p, 0);
      var v := BlanksEnd(p, if c < |p| then c + 1 else c);
      r.(headers := r.headers[Lower(p[..c]) := p[v..]], headerAccum := [])
  }

  const TRANSFER_ENCODING: Bytes := [116, 114, 97, 110, 115, 102, 101, 114, 45, 101, 110, 99, 111, 100, 105, 110, 103]
  const CONTENT_LENGTH: Bytes := [99, 111, 110, 116, 101, 110, 116, 45, 108, 101, 110, 103, 116, 104]
  const CONNECTION: Bytes := [99, 111, 110, 110, 101, 99, 116, 105, 111, 110]
  const KEEP_ALIVE: Bytes := [107, 101, 101, 112, 45, 97, 108, 105, 118, 101]
  const CHUNKED: Bytes := [99, 104, 117, 110, 107, 101, 100]
  const CLOSE: Bytes := [99, 108, 111, 115, 101]

  /** The header is present and equals the (lowercase) text, case ignored. */
  predicate HeaderIs(r: Resp, name: Bytes, text: Bytes) {
    name in r.headers && Lower(r.headers[name]) == text
  }

  function CheckClose(r: Resp): bool {
    if r.version == 11 then HeaderIs(r, CONNECTION, CLOSE) else KEEP_ALIVE !in r.headers
  }

  predicate HasNoBody(r: Resp) {
    r.status == 204 || r.status == 304 || 100 <= r.status < 200 || r.isHead
  }

  function BodyLength(r: Resp, chunked: bool): int {
    if HasNoBody(r) then 0
    else if CONTENT_LENGTH in r.headers && !chunked then AToI(r.headers[CONTENT_LENGTH])
    else -1
  }

  /** All headers are in: chunked, counted, or until the connection closes. */
  function BeginBody(r: Resp): Result<Resp, HttpError> {
    var chunked := HeaderIs(r, TRANSFER_ENCODING, CHUNKED);
    var length := BodyLength(r, chunked);
    if !(-1 <= length <= MAX_INT) then Failure(LengthOutOfRange)
    else
      var willClose := CheckClose(r) || (!chunked && length == -1);
      Success(r.(chunked := chunked, chunkLeft := if chunked then -1 else r.chunkLeft, length := length,
                 willClose := willClose, phase := if chunked then ChunkLen else Body, begun := r.begun + 1))
  }

  function HeaderLineOf(r: Resp, line: Bytes): Result<Resp, HttpError> {
    var p := CStr(line);
    if line == [] then
      var flushed := FlushHeader(r);
      if r.status == 100 then Success(flushed.(phase := StatusLine)) else BeginBody(flushed)
    else if p != [] && IsSpace(p[0]) then
      Success(r.(headerAccum := r.headerAccum + [SPACE] + p[WhiteEnd(p, 1)..]))
    else Success(FlushHeader(r).(headerAccum := p))
  }

  function ChunkLenLineOf(r: Resp, line: Bytes): Result<Resp, HttpError> {
    var left := match StrToL16(line) case None => 0 case Some(n) => n;
    if !(0 <= left <= MAX_INT) then Failure(LengthOutOfRange)
    else if left == 0 then Success(r.(chunkLeft := 0, phase := Trailers, headerAccum := []))
    else Success(r.(chunkLeft := left, phase := Body))
  }

  /** The response is complete, and says so. */
  function Finished(r: Resp): Resp {
    r.(phase := Complete, completed := r.completed + 1)
  }

  function TrailerLineOf(r: Resp, line: Bytes): Resp {
    if line == [] then Finished(r) else r
  }

  predicate TakesLines(phase: Phase) {
    phase != Body && phase != Complete
  }

  /** What a finished line does, before the line buffer is cleared. */
  function LineOf(r: Resp, line: Bytes): Result<Resp, HttpError>
    requires TakesLines(r.phase)
  {
    match r.phase
    case StatusLine => StatusLineOf(r, line)
    case Headers => HeaderLineOf(r, line)
    case Trailers => Success(TrailerLineOf(r, line))
    case ChunkLen => ChunkLenLineOf(r, line)
    case ChunkEnd => Success(r.(phase := ChunkLen))
  }

  // ---------- Bytes ----------

  /** What holds of every response between two calls. */
  predicate Inv(r: Resp) {
    && r.bytesRead == |r.body|
    && r.begun == (if r.phase == StatusLine || r.phase == Headers then 0 else 1)
    && r.completed == (if r.phase == Complete then 1 else 0)
    && (r.begun > 0 ==> r.status != 100)
    && (r.phase == StatusLine || r.phase == Headers ==> r.body == [])
    && (r.phase == ChunkLen || r.phase == ChunkEnd || r.phase == Trailers ==> r.chunked)
    && (r.phase == Body && r.chunked ==> r.chunkLeft > 0)
    && (r.phase == Body && !r.chunked ==> r.length == -1 || r.bytesRead <= r.length)
    && (r.phase == Complete && !r.chunked ==> r.length == -1 || r.length == r.bytesRead)
  }

  /** A counted body that is complete: the next byte, whatever it is, ends the response unread. */
  predicate AtBodyEnd(r: Resp) {
    r.phase == Body && !r.chunked && r.length != -1 && r.bytesRead >= r.length
  }

  /** The first n bytes of body data, passed on in one piece. */
  function Deliver(r: Resp, data: Bytes): Resp {
    var r' := r.(body := r.body + data, bytesRead := r.bytesRead + |data|);
    if r.chunked then r'.(chunkLeft := r.chunkLeft - |data|, phase := if r.chunkLeft == |data| then ChunkEnd else Body)
    else if r.length != -1 && r'.bytesRead == r.length then Finished(r')
    else r'
  }

  function Step(r: Resp, c: byte): Result<Resp, HttpError>
    requires r.phase != Complete
  {
    if r.phase == Body then Success(Deliver(r, [c]))
    else if c == LF then
      match LineOf(r, r.lineBuf)
      case Failure(e) => Failure(e)
      case Success(r') => Success(r'.(lineBuf := []))
    else Success(if c == CR then r else r.(lineBuf := r.lineBuf + [c]))
  }

  /** A run over some bytes: the response afterwards and how many of them it used. */
  function Feed(r: Resp, data: Bytes): (f: Result<(Resp, nat), HttpError>)
    ensures f.Success? ==> f.value.1 <= |data|
    decreases |data|
  {
    if data == [] || r.phase == Complete then Success((r, 0))
    else if AtBodyEnd(r) then Success((Finished(r), 0))
    else
      match Step(r, data[0])
      case Failure(e) => Failure(e)
      case Success(r') =>
        match Feed(r', data[1..])
        case Failure(e) => Failure(e)
        case Success((r'', n)) => Success((r'', n + 1))
  }

  /** The pieces one after the other; a complete response takes no more. */
  function FeedAll(r: Resp, pieces: seq<Bytes>): Result<(Resp, nat), HttpError>
    decreases |pieces|
  {
    if pieces == [] then Success((r, 0))
    else
      match Feed(r, pieces[0])
      case Failure(e) => Failure(e)
      case Success((r', n)) =>
        match FeedAll(r', pieces[1..])
        case Failure(e) => Failure(e)
        case Success((r'', n')) => Success((r'', n + n'))
  }

  // ---------- Fragmentation ----------

  /** A run that does not complete uses every byte. */
  lemma {:induction false} IncompleteUsesAll(r: Resp, data: Bytes)
    requires Feed(r, data).Success?
    ensures Feed(r, data).value.0.phase == Complete || Feed(r, data).value.1 == |data|
    decreases |data|
  {
    hide Step;
    if data != [] && r.phase != Complete && !AtBodyEnd(r) {
      IncompleteUsesAll(Step(r, data[0]).value, data[1..]);
    }
  }

  /** Running on a then, if not complete, on b, is running on both. */
  lemma {:induction false} FeedConcat(r: Resp, a: Bytes, b: Bytes)
    ensures Feed(r, a + b)
            == match Feed(r, a)
               case Failure(e) => Failure(e)
               case Success((r', n)) =>
                 match Feed(r', b)
                 case Failure(e) => Failure(e)
                 case Success((r'', n')) => Success((r'', n + n'))
    decreases |a|
  {
    hide Step, AtBodyEnd;
    if a == [] {
      assert a + b == b;
    } else if r.phase != Complete && !AtBodyEnd(r) {
      assert (a + b)[0] == a[0] && (a + b)[1..] == a[1..] + b;
      if Step(r, a[0]).Success? {
        FeedConcat(Step(r, a[0]).value, a[1..], b);
      }
    }
  }

  /**
    * How a byte stream is cut does not matter: the same fields, the same body data, the same number of bytes
    * used, the same failure.
    */
  lemma {:induction false} FragmentationIndependence(r: Resp, pieces: seq<Bytes>)
    ensures FeedAll(r, pieces) == Feed(r, Flatten(pieces))
    decreases |pieces|
  {
    if pieces != [] {
      FeedConcat(r, pieces[0], Flatten(pieces[1..]));
      if Feed(r, pieces[0]).Success? {
        FragmentationIndependence(Feed(r, pieces[0]).value.0, pieces[1..]);
      }
    }
  }

  // ---------- Closed connections ----------

  /** A body that runs until the connection closes. */
  predicate UntilClose(r: Resp) {
    r.phase == Body && !r.chunked && r.length == -1
  }

  /** A close is the proper end of this response. */
  predicate MayClose(r: Resp) {
    r.phase == Complete || UntilClose(r)
  }

  lemma {:induction false} UntilCloseGoesOn(r: Resp, data: Bytes)
    requires UntilClose(r)
    ensures Feed(r, data).Success? && UntilClose(Feed(r, data).value.0)
    decreases |data|
  {
    if data != [] {
      UntilCloseGoesOn(Step(r, data[0]).value, data[1..]);
    }
  }

  /** A connection that closes before the last byte of a complete response is noticed, wherever it is cut off. */
  lemma TruncationIsNoticed(r: Resp, data: Bytes, cut: nat)
    requires Feed(r, data).Success? && Feed(r, data).value.0.phase == Complete && Feed(r, data).value.1 == |data|
    requires cut < |data|
    ensures Feed(r, data[..cut]).Success? && !MayClose(Feed(r, data[..cut]).value.0)
  {
    hide Feed;
    var a, b := data[..cut], data[cut..];
    assert a + b == data;
    FeedConcat(r, a, b);
    var (r', n) := Feed(r, a).value;
    if r'.phase == Complete {
      FeedComplete(r', b);
      UsesAtMost(r, a);
    } else if UntilClose(r') {
      UntilCloseGoesOn(r', b);
    }
  }

  lemma FeedComplete(r: Resp, data: Bytes)
    requires r.phase == Complete
    ensures Feed(r, data) == Success((r, 0))
  {
  }

  lemma UsesAtMost(r: Resp, data: Bytes)
    requires Feed(r, data).Success?
    ensures Feed(r, data).value.1 <= |data|
  {
  }

  // ---------- Body accounting ----------

  lemma BeginBodyKeepsInv(r: Resp)
    requires r.bytesRead == 0 && r.body == [] && r.begun == 0 && r.completed == 0 && r.status != 100
    requires BeginBody(r).Success?
    ensures Inv(BeginBody(r).value) && BeginBody(r).value.body == []
  {
    hide BodyLength, CheckClose, HeaderIs;
  }

  lemma StatusLineKeepsInv(r: Resp, line: Bytes)
    requires r.bytesRead == 0 && r.body == [] && r.begun == 0 && r.completed == 0 && StatusLineOf(r, line).Success?
    ensures Inv(StatusLineOf(r, line).value) && StatusLineOf(r, line).value.body == []
  {
    hide CStr, AToI, SpacesEnd, WordEnd;
  }

  lemma HeaderLineKeepsInv(r: Resp, line: Bytes)
    requires r.phase == Headers && r.bytesRead == 0 && r.body == [] && r.begun == 0 && r.completed == 0
    requires HeaderLineOf(r, line).Success?
    ensures Inv(HeaderLineOf(r, line).value) && HeaderLineOf(r, line).value.body == []
  {
    hide CStr, BeginBody, FlushHeader, WhiteEnd;
    FlushKeepsBody(r);
    var flushed := FlushHeader(r);
    if line == [] && r.status != 100 {
      assert flushed.bytesRead == 0 && flushed.body == [];
      BeginBodyKeepsInv(flushed);
    }
  }

  lemma FlushKeepsBody(r: Resp)
    ensures FlushHeader(r).body == r.body && FlushHeader(r).bytesRead == r.bytesRead
            && FlushHeader(r).phase == r.phase && FlushHeader(r).status == r.status
            && FlushHeader(r).begun == r.begun && FlushHeader(r).completed == r.completed
  {
  }

  lemma LineKeepsInv(r: Resp)
    requires Inv(r) && TakesLines(r.phase) && LineOf(r, r.lineBuf).Success?
    ensures Inv(LineOf(r, r.lineBuf).value) && LineOf(r, r.lineBuf).value.body == r.body
  {
    hide StrToL16, StatusLineOf, HeaderLineOf;
    match r.phase {
      case StatusLine => StatusLineKeepsInv(r, r.lineBuf);
      case Headers => HeaderLineKeepsInv(r, r.lineBuf);
      case _ =>
    }
  }

  lemma StepKeepsInv(r: Resp, c: byte)
    requires Inv(r) && r.phase != Complete && !AtBodyEnd(r) && Step(r, c).Success?
    ensures Inv(Step(r, c).value)
  {
    hide LineOf;
    if r.phase != Body && c == LF {
      LineKeepsInv(r);
    }
  }

  /** Every run keeps the invariant: what was delivered is what was counted, and a counted body is exact. */
  lemma {:induction false} FeedKeepsInv(r: Resp, data: Bytes)
    requires Inv(r) && Feed(r, data).Success?
    ensures Inv(Feed(r, data).value.0)
    decreases |data|
  {
    hide Step;
    if data != [] && r.phase != Complete && !AtBodyEnd(r) {
      StepKeepsInv(r, data[0]);
      FeedKeepsInv(Step(r, data[0]).value, data[1..]);
    }
  }

  // ---------- Statuses ----------

  /** A status that was accepted. */
  predicate StatusOk(r: Resp) {
    r.phase != StatusLine || r.begun > 0 ==> 100 <= r.status <= 999
  }

  lemma StepKeepsStatus(r: Resp, c: byte)
    requires Inv(r) && StatusOk(r) && r.phase != Complete && Step(r, c).Success?
    ensures StatusOk(Step(r, c).value)
  {
    hide CStr, StrToL16, ParsedStatusLine, FlushHeader, BodyLength, CheckClose, HeaderIs, WhiteEnd;
    FlushKeepsBody(r);
  }

  lemma {:induction false} FeedKeepsStatus(r: Resp, data: Bytes)
    requires Inv(r) && StatusOk(r) && Feed(r, data).Success?
    ensures StatusOk(Feed(r, data).value.0)
    decreases |data|
  {
    hide Step;
    if data != [] && r.phase != Complete && !AtBodyEnd(r) {
      StepKeepsInv(r, data[0]);
      StepKeepsStatus(r, data[0]);
      FeedKeepsStatus(Step(r, data[0]).value, data[1..]);
    }
  }

  // ---------- No more delivered than used ----------

  lemma LineDelivers(r: Resp, line: Bytes)
    requires TakesLines(r.phase) && LineOf(r, line).Success?
    ensures LineOf(r, line).value.body == r.body
  {
    hide CStr, StrToL16, AToI, SpacesEnd, WordEnd, FlushHeader, BodyLength, CheckClose, HeaderIs, WhiteEnd;
    FlushKeepsBody(r);
  }

  lemma StepDelivers(r: Resp, c: byte)
    requires r.phase != Complete && Step(r, c).Success?
    ensures |Step(r, c).value.body| == |r.body| + if r.phase == Body then 1 else 0
  {
    hide LineOf;
    if r.phase != Body && c == LF {
      LineDelivers(r, r.lineBuf);
    }
  }

  lemma {:induction false} DeliversAtMost(r: Resp, data: Bytes)
    requires Feed(r, data).Success?
    ensures |Feed(r, data).value.0.body| <= |r.body| + Feed(r, data).value.1
    decreases |data|
  {
    hide Step;
    if data != [] && r.phase != Complete && !AtBodyEnd(r) {
      StepDelivers(r, data[0]);
      DeliversAtMost(Step(r, data[0]).value, data[1..]);
    }
  }

  /** A parser that waits for a line uses some bytes for that. */
  lemma DeliversLess(r: Resp, data: Bytes)
    requires TakesLines(r.phase) && data != [] && Feed(r, data).Success?
    ensures |Feed(r, data).value.0.body| < |r.body| + |data|
  {
    hide Step;
    StepDelivers(r, data[0]);
    DeliversAtMost(Step(r, data[0]).value, data[1..]);
  }
}
