/** A response as httplib's server writes it: status line, headers, blank line and body. */
module HttplibResponse {
  import opened Basics
  import opened CStrings
  import opened ChunkedCoding

  // ---------- Decimal numbers ----------

  /** `%d` of a natural number, and `std::to_string`. */
  function Dec(n: nat): (s: Bytes)
    ensures |s| > 0
  {
    (if n < 10 then [] else Dec(n / 10)) + [HexChar(n % 10)]
  }

  predicate AllDigits(s: Bytes) {
    forall k :: 0 <= k < |s| ==> 48 <= s[k] <= 57
  }

  lemma {:induction false} DecRun(n: nat, tail: Bytes)
    ensures AllDigits(Dec(n)) && DigitRun(Dec(n) + tail, 10, 0) == DigitRun(tail, 10, n)
    decreases n
  {
    var last := [HexChar(n % 10)] + tail;
    assert last[1..] == tail;
    if n < 10 {
      assert Dec(n) + tail == last;
    } else {
      assert Dec(n) + tail == Dec(n / 10) + last;
      DecRun(n / 10, last);
    }
  }

  lemma DecParses(n: nat)
    ensures AllDigits(Dec(n)) && AToI(Dec(n)) == n
  {
    var s := Dec(n);
    DecRun(n, []);
    assert s + [] == s;
    assert SkipSpace(s) == s && DropSign(s) == s;
  }

  // ---------- What is written ----------

  /** "HTTP/1.1" */
  const VERSION: Bytes := [72, 84, 84, 80, 47, 49, 46, 49]

  datatype Header = Header(name: Bytes, value: Bytes)

  function StatusText(status: nat, reason: Bytes): Bytes {
    VERSION + [SPACE] + Dec(status) + [SPACE] + reason
  }

  function HeaderText(h: Header): Bytes {
    h.name + [COLON, SPACE] + h.value
  }

  function HeadersText(headers: seq<Header>): Bytes
    decreases |headers|
  {
    if headers == [] then CRLF else HeaderText(headers[0]) + CRLF + HeadersText(headers[1..])
  }

  function Head(status: nat, reason: Bytes, headers: seq<Header>): Bytes {
    StatusText(status, reason) + CRLF + HeadersText(headers)
  }

  /** Text that stays on its line and in its C string. */
  predicate OneLine(s: Bytes) {
    CR !in s && LF !in s && 0 !in s
  }

  predicate Writable(h: Header) {
    && OneLine(h.name) && OneLine(h.value)
    && COLON !in h.name && h.name != [] && !IsSpace(h.name[0])
    && (h.value != [] ==> h.value[0] != SPACE && h.value[0] != TAB)
  }

  predicate AllWritable(headers: seq<Header>) {
    forall k :: 0 <= k < |headers| ==> Writable(headers[k])
  }

  predicate GoodReason(reason: Bytes) {
    OneLine(reason) && (reason != [] ==> reason[0] != SPACE)
  }

  /** The headers as a map from lowercase names; of several with one name the last counts. */
  function HeaderMap(m: map<Bytes, Bytes>, headers: seq<Header>): map<Bytes, Bytes>
    decreases |headers|
  {
    if headers == [] then m else HeaderMap(m[Lower(headers[0].name) := headers[0].value], headers[1..])
  }

  /** `status_message`. */
  function StatusMessage(status: nat): Bytes {
    // OK
    if status == 200 then [79, 75]
    // Moved Permanently
    else if status == 301 then [77, 111, 118, 101, 100, 32, 80, 101, 114, 109, 97, 110, 101, 110, 116, 108, 121]
    // Found
    else if status == 302 then [70, 111, 117, 110, 100]
    // See Other
    else if status == 303 then [83, 101, 101, 32, 79, 116, 104, 101, 114]
    // Not Modified
    else if status == 304 then [78, 111, 116, 32, 77, 111, 100, 105, 102, 105, 101, 100]
    // Bad Request
    else if status == 400 then [66, 97, 100, 32, 82, 101, 113, 117, 101, 115, 116]
    // Forbidden
    else if status == 403 then [70, 111, 114, 98, 105, 100, 100, 101, 110]
    // Not Found
    else if status == 404 then [78, 111, 116, 32, 70, 111, 117, 110, 100]
    // Payload Too Large
    else if status == 413 then [80, 97, 121, 108, 111, 97, 100, 32, 84, 111, 111, 32, 76, 97, 114, 103, 101]
    // Request-URI Too Long
    else if status == 414 then
      [82, 101, 113, 117, 101, 115, 116, 45, 85, 82, 73, 32, 84, 111, 111, 32, 76, 111, 110, 103]
    // Unsupported Media Type
    else if status == 415 then
      [85, 110, 115, 117, 112, 112, 111, 114, 116, 101, 100, 32, 77, 101, 100, 105, 97, 32, 84, 121, 112, 101]
    // Internal Server Error
    else [73, 110, 116, 101, 114, 110, 97, 108, 32, 83, 101, 114, 118, 101, 114, 32, 69, 114, 114, 111, 114]
  }

  /** Words with spaces between them. */
  predicate Phrase(s: Bytes) {
    s != [] && s[0] != SPACE && forall k :: 0 <= k < |s| ==> s[k] >= SPACE
  }

  lemma EarlyMessages(status: nat)
    requires status < 400
    ensures Phrase(StatusMessage(status))
  {
  }

  lemma ClientMessages(status: nat)
    requires 400 <= status < 414
    ensures Phrase(StatusMessage(status))
  {
  }

  lemma LateMessages(status: nat)
    requires status >= 414
    ensures Phrase(StatusMessage(status))
  {
  }

  /** Every message stays on its line and does not start with a space. */
  lemma MessagesAreGood(status: nat)
    ensures GoodReason(StatusMessage(status))
  {
    hide StatusMessage;
    if status < 400 {
      EarlyMessages(status);
    } else if status < 414 {
      ClientMessages(status);
    } else {
      LateMessages(status);
    }
  }

  // ---------- The headers' multimap ----------

  /** `ci`: lexicographic order, case ignored. */
  predicate Less(a: Bytes, b: Bytes)
    decreases |b|
  {
    && b != []
    && (a == [] || ToLower(a[0]) < ToLower(b[0]) || (ToLower(a[0]) == ToLower(b[0]) && Less(a[1..], b[1..])))
  }

  /** Names are one key when neither comes before the other: when they are equal up to case. */
  lemma {:induction false} SameKeyIff(a: Bytes, b: Bytes)
    ensures !Less(a, b) && !Less(b, a) <==> Lower(a) == Lower(b)
    decreases |a|
  {
    if a != [] && b != [] {
      SameKeyIff(a[1..], b[1..]);
      assert Lower(a) == [ToLower(a[0])] + Lower(a[1..]) && Lower(b) == [ToLower(b[0])] + Lower(b[1..]);
    }
  }

  predicate HasHeader(headers: seq<Header>, name: Bytes) {
    exists k :: 0 <= k < |headers| && !Less(headers[k].name, name) && !Less(name, headers[k].name)
  }

  /** Where `emplace` puts a new header: after the last that it does not come before. */
  function Place(headers: seq<Header>, name: Bytes): (k: nat)
    ensures k <= |headers|
    ensures forall j :: k <= j < |headers| ==> Less(name, headers[j].name)
    decreases |headers|
  {
    if headers == [] then 0
    else if Less(name, headers[|headers| - 1].name) then Place(headers[..|headers| - 1], name)
    else |headers|
  }

  function SetHeader(headers: seq<Header>, name: Bytes, value: Bytes): seq<Header> {
    var k := Place(headers, name);
    headers[..k] + [Header(name, value)] + headers[k..]
  }

  lemma {:induction false} HeaderMapConcat(m: map<Bytes, Bytes>, a: seq<Header>, b: seq<Header>)
    ensures HeaderMap(m, a + b) == HeaderMap(HeaderMap(m, a), b)
    decreases |a|
  {
    if a == [] {
      assert a + b == b;
    } else {
      assert (a + b)[1..] == a[1..] + b;
      HeaderMapConcat(m[Lower(a[0].name) := a[0].value], a[1..], b);
    }
  }

  lemma {:induction false} HeaderMapCommutes(m: map<Bytes, Bytes>, headers: seq<Header>, key: Bytes, value: Bytes)
    requires forall j :: 0 <= j < |headers| ==> Lower(headers[j].name) != key
    ensures HeaderMap(m[key := value], headers) == HeaderMap(m, headers)[key := value]
    decreases |headers|
  {
    if headers != [] {
      var name, v := Lower(headers[0].name), headers[0].value;
      assert m[key := value][name := v] == m[name := v][key := value];
      HeaderMapCommutes(m[name := v], headers[1..], key, value);
    }
  }

  /** A header that is set counts: whatever was there under its name comes before it. */
  lemma SetHeaderCounts(headers: seq<Header>, name: Bytes, value: Bytes)
    ensures HeaderMap(map[], SetHeader(headers, name, value)) == HeaderMap(map[], headers)[Lower(name) := value]
  {
    hide HeaderMap, Less, Lower;
    var k := Place(headers, name);
    var front, back := headers[..k], headers[k..];
    assert headers == front + back;
    forall j | 0 <= j < |back|
      ensures Lower(back[j].name) != Lower(name)
    {
      SameKeyIff(name, back[j].name);
    }
    var m := HeaderMap(map[], front);
    HeaderMapConcat(map[], front, back);
    HeaderMapConcat(map[], front + [Header(name, value)], back);
    HeaderMapConcat(map[], front, [Header(name, value)]);
    OneHeader(m, Header(name, value));
    HeaderMapCommutes(m, back, Lower(name), value);
  }

  lemma OneHeader(m: map<Bytes, Bytes>, h: Header)
    ensures HeaderMap(m, [h]) == m[Lower(h.name) := h.value]
  {
    var one := [h];
    assert one[1..] == [];
  }

  lemma {:induction false} HasHeaderIff(headers: seq<Header>, name: Bytes)
    ensures HasHeader(headers, name) <==> Lower(name) in HeaderMap(map[], headers)
    decreases |headers|
  {
    hide Less, Lower;
    if headers != [] {
      var front, last := headers[..|headers| - 1], headers[|headers| - 1];
      assert headers == front + [last];
      HasHeaderIff(front, name);
      HeaderMapConcat(map[], front, [last]);
      OneHeader(HeaderMap(map[], front), last);
      SameKeyIff(last.name, name);
      assert HasHeader(headers, name) <==> HasHeader(front, name) || (!Less(last.name, name) && !Less(name, last.name));
    }
  }

  // ---------- Writing the headers ----------

  /** `%s` prints a string up to its first NUL. */
  function Printed(headers: seq<Header>): (p: seq<Header>)
    ensures |p| == |headers|
    ensures forall k :: 0 <= k < |p| ==> p[k] == Header(CStr(headers[k].name), CStr(headers[k].value))
  {
    seq(|headers|, k requires 0 <= k < |headers| => Header(CStr(headers[k].name), CStr(headers[k].value)))
  }

  lemma WritableIsPrinted(headers: seq<Header>)
    requires AllWritable(headers)
    ensures Printed(headers) == headers
  {
    forall k | 0 <= k < |headers|
      ensures Printed(headers)[k] == headers[k]
    {
      CStrOfNulFree(headers[k].name);
      CStrOfNulFree(headers[k].value);
    }
  }

  /** The headers from k on, written in order. */
  lemma HeadersTextFrom(headers: seq<Header>, k: nat)
    requires k < |headers|
    ensures HeadersText(headers[k..]) == HeaderText(headers[k]) + CRLF + HeadersText(headers[k + 1..])
  {
    assert headers[k..][1..] == headers[k + 1..];
  }

  method WriteHeaders(headers: seq<Header>) returns (text: Bytes)
    ensures text == HeadersText(Printed(headers))
  {
    hide HeadersText, CStr;
    text := [];
    ghost var printed := Printed(headers);
    assert printed[0..] == printed;
    for k := 0 to |headers|
      invariant text + HeadersText(printed[k..]) == HeadersText(printed)
    {
      HeadersTextFrom(printed, k);
      var line := CStr(headers[k].name) + [COLON, SPACE] + CStr(headers[k].value) + CRLF;
      assert text + (line + HeadersText(printed[k + 1..])) == (text + line) + HeadersText(printed[k + 1..]);
      text := text + line;
    }
    NoHeadersText(printed, |headers|);
    text := text + CRLF;
  }

  lemma NoHeadersText(headers: seq<Header>, k: nat)
    requires k == |headers|
    ensures HeadersText(headers[k..]) == CRLF
  {
  }

  // ---------- write_response ----------

  /** `streamcb` is the content provider, by the pieces it will give. */
  datatype Response = Response(status: nat, headers: seq<Header>, body: Bytes, streamcb: Option<seq<Bytes>>)

  /** What the writer is told about the request and the connection. */
  datatype Context = Context(isHead: bool, lastConnection: bool, connection: Bytes)

  const KEEP_ALIVE: Bytes := [75, 101, 101, 112, 45, 65, 108, 105, 118, 101]
  const CLOSE: Bytes := [99, 108, 111, 115, 101]
  const CONNECTION: Bytes := [67, 111, 110, 110, 101, 99, 116, 105, 111, 110]
  const CONTENT_LENGTH: Bytes := [67, 111, 110, 116, 101, 110, 116, 45, 76, 101, 110, 103, 116, 104]
  const CONTENT_TYPE: Bytes := [67, 111, 110, 116, 101, 110, 116, 45, 84, 121, 112, 101]
  const TEXT_PLAIN: Bytes := [116, 101, 120, 116, 47, 112, 108, 97, 105, 110]
  const TRANSFER_ENCODING: Bytes := [84, 114, 97, 110, 115, 102, 101, 114, 45, 69, 110, 99, 111, 100, 105, 110, 103]
  const CHUNKED: Bytes := [99, 104, 117, 110, 107, 101, 100]

  function ConnectionHeaders(res: Response, ctx: Context): seq<Header> {
    var h := if ctx.lastConnection || ctx.connection == CLOSE then SetHeader(res.headers, CONNECTION, CLOSE)
             else res.headers;
    if !ctx.lastConnection && ctx.connection == KEEP_ALIVE then SetHeader(h, CONNECTION, KEEP_ALIVE) else h
  }

  function FinalHeaders(res: Response, ctx: Context): seq<Header> {
    var h := ConnectionHeaders(res, ctx);
    if res.body == [] then
      if HasHeader(h, CONTENT_LENGTH) then h
      else if res.streamcb.Some? then SetHeader(h, TRANSFER_ENCODING, CHUNKED)
      else SetHeader(h, CONTENT_LENGTH, Dec(0))
    else
      var h' := if HasHeader(h, CONTENT_TYPE) then h else SetHeader(h, CONTENT_TYPE, TEXT_PLAIN);
      SetHeader(h', CONTENT_LENGTH, Dec(|res.body|))
  }

  function BodyText(res: Response, ctx: Context): Bytes {
    if ctx.isHead then []
    else if res.body != [] || res.streamcb.None? then res.body
    else if HasHeader(FinalHeaders(res, ctx), CONTENT_LENGTH) then BodyOf(res.streamcb.value)
    else Wire(res.streamcb.value)
  }

  function Written(res: Response, ctx: Context): Bytes {
    Head(res.status, StatusMessage(res.status), Printed(FinalHeaders(res, ctx))) + BodyText(res, ctx)
  }

  /** A streamed body under a Content-Length of the handler's own: the pieces as they are. */
  method WriteUnchunked(pieces: seq<Bytes>) returns (wire: Bytes)
    ensures wire == BodyOf(pieces)
  {
    wire := [];
    var i := 0;
    var dataAvailable := true;
    while dataAvailable
      invariant i <= |pieces| + 1
      invariant dataAvailable ==> i <= |pieces| && BodyOf(pieces) == wire + BodyOf(pieces[i..])
      invariant !dataAvailable ==> BodyOf(pieces) == wire
      decreases dataAvailable, |pieces| + 1 - i
    {
      var chunk := if i < |pieces| then pieces[i] else [];
      dataAvailable := chunk != [];
      if dataAvailable {
        assert pieces[i..][0] == chunk && pieces[i..][1..] == pieces[i + 1..];
      }
      wire := wire + chunk;
      i := i + 1;
    }
  }

  /** `write_response`, without an error handler and without compression. */
  method WriteResponse(res: Response, ctx: Context) returns (wire: Bytes)
    ensures wire == Written(res, ctx)
  {
    hide Head, StatusText, StatusMessage, SetHeader, HasHeader, Printed, Dec;
    wire := StatusText(res.status, StatusMessage(res.status)) + CRLF;
    var headers := res.headers;
    if ctx.lastConnection || ctx.connection == CLOSE {
      headers := SetHeader(headers, CONNECTION, CLOSE);
    }
    if !ctx.lastConnection && ctx.connection == KEEP_ALIVE {
      headers := SetHeader(headers, CONNECTION, KEEP_ALIVE);
    }
    if res.body == [] {
      if !HasHeader(headers, CONTENT_LENGTH) {
        if res.streamcb.Some? {
          headers := SetHeader(headers, TRANSFER_ENCODING, CHUNKED);
        } else {
          headers := SetHeader(headers, CONTENT_LENGTH, Dec(0));
        }
      }
    } else {
      if !HasHeader(headers, CONTENT_TYPE) {
        headers := SetHeader(headers, CONTENT_TYPE, TEXT_PLAIN);
      }
      headers := SetHeader(headers, CONTENT_LENGTH, Dec(|res.body|));
    }
    assert headers == FinalHeaders(res, ctx);
    hide FinalHeaders;
    var text := WriteHeaders(headers);
    HeadIs(res.status, StatusMessage(res.status), Printed(headers));
    wire := wire + text;
    if !ctx.isHead {
      if res.body != [] {
        wire := wire + res.body;
      } else if res.streamcb.Some? {
        var stream: Bytes;
        if HasHeader(headers, CONTENT_LENGTH) {
          stream := WriteUnchunked(res.streamcb.value);
        } else {
          stream := WriteStreamed(res.streamcb.value);
        }
        wire := wire + stream;
      }
    }
  }

  lemma HeadIs(status: nat, reason: Bytes, headers: seq<Header>)
    ensures Head(status, reason, headers) == StatusText(status, reason) + CRLF + HeadersText(headers)
  {
  }
}
