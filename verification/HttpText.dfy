/** The text of plain responses, letter by letter: what the names and messages of the HTTP code spell. */
module HttpText {
  import opened Basics
  import opened CStrings
  import H = HappyHttp
  import opened ChunkedCoding
  import opened HttplibResponse
  import opened Arrival

  // ---------- Names ----------

  lemma Marks()
    ensures CRLF == Chars("\r\n") && [CR] == Chars("\r") && [LF] == Chars("\n")
    ensures [SPACE] == Chars(" ") && [TAB] == Chars("\t") && [COLON] == Chars(":")
    ensures VERSION == Chars("HTTP/1.1") && H.VERSION_1_X == Chars("HTTP/1.") && H.VERSION_1_0 == Chars("HTTP:/1.0")
  {
  }

  lemma FieldNames()
    ensures CONTENT_LENGTH == Chars("Content-Length") && CONTENT_TYPE == Chars("Content-Type")
    ensures CONNECTION == Chars("Connection") && TRANSFER_ENCODING == Chars("Transfer-Encoding")
  {
  }

  lemma FieldValues()
    ensures TEXT_PLAIN == Chars("text/plain") && CHUNKED == Chars("chunked")
    ensures KEEP_ALIVE == Chars("Keep-Alive") && CLOSE == Chars("close")
  {
  }

  /** The same names as the client looks them up. */
  lemma LookedUpNames()
    ensures H.CONTENT_LENGTH == Chars("content-length") && H.TRANSFER_ENCODING == Chars("transfer-encoding")
    ensures H.CONNECTION == Chars("connection") && H.KEEP_ALIVE == Chars("keep-alive")
    ensures H.CHUNKED == Chars("chunked") && H.CLOSE == Chars("close")
  {
  }

  lemma Messages()
    ensures StatusMessage(200) == Chars("OK") && StatusMessage(302) == Chars("Found")
    ensures StatusMessage(303) == Chars("See Other") && StatusMessage(304) == Chars("Not Modified")
  {
  }

  lemma MovedMessage()
    ensures StatusMessage(301) == Chars("Moved Permanently")
  {
  }

  lemma ErrorMessages()
    ensures StatusMessage(400) == Chars("Bad Request") && StatusMessage(403) == Chars("Forbidden")
    ensures StatusMessage(404) == Chars("Not Found")
  {
  }

  lemma PayloadMessage()
    ensures StatusMessage(413) == Chars("Payload Too Large")
  {
  }

  lemma UriMessage()
    ensures StatusMessage(414) == Chars("Request-URI Too Long")
  {
  }

  lemma TypeMessage()
    ensures StatusMessage(415) == Chars("Unsupported Media Type")
  {
  }

  lemma OtherMessage(status: nat)
    requires status !in {200, 301, 302, 303, 304, 400, 403, 404, 413, 414, 415}
    ensures StatusMessage(status) == Chars("Internal Server Error")
  {
    assert StatusMessage(status) == StatusMessage(500);
  }

  // ---------- Plain responses ----------

  lemma LengthComesFirst()
    ensures Less(CONTENT_LENGTH, CONTENT_TYPE) && Lower(CONTENT_LENGTH) != Lower(CONTENT_TYPE)
  {
    var a, b := CONTENT_LENGTH[8..], CONTENT_TYPE[8..];
    assert |CONTENT_LENGTH| == 14 && |CONTENT_TYPE| == 12;
    assert Less(a, b);
    LessAfter(CONTENT_LENGTH[7..], CONTENT_TYPE[7..]);
    LessAfter(CONTENT_LENGTH[6..], CONTENT_TYPE[6..]);
    LessAfter(CONTENT_LENGTH[5..], CONTENT_TYPE[5..]);
    LessAfter(CONTENT_LENGTH[4..], CONTENT_TYPE[4..]);
    LessAfter(CONTENT_LENGTH[3..], CONTENT_TYPE[3..]);
    LessAfter(CONTENT_LENGTH[2..], CONTENT_TYPE[2..]);
    LessAfter(CONTENT_LENGTH[1..], CONTENT_TYPE[1..]);
    assert CONTENT_LENGTH[0..] == CONTENT_LENGTH;
  }

  lemma LessAfter(a: Bytes, b: Bytes)
    requires a != [] && b != [] && ToLower(a[0]) == ToLower(b[0])
    ensures Less(a, b) <==> Less(a[1..], b[1..])
  {
  }

  /** A response without headers of its own, on a connection of which nothing is said. */
  function Plain(status: nat, body: Bytes, streamcb: Option<seq<Bytes>>): Response {
    Response(status, [], body, streamcb)
  }

  function NothingSaid(): Context {
    Context(false, false, [])
  }

  lemma NoConnectionHeader(status: nat, body: Bytes, streamcb: Option<seq<Bytes>>)
    ensures ConnectionHeaders(Plain(status, body, streamcb), NothingSaid()) == []
    ensures !HasHeader([], CONTENT_TYPE) && !HasHeader([], CONTENT_LENGTH)
  {
    assert CLOSE != [] && KEEP_ALIVE != [];
  }

  lemma FirstHeader(name: Bytes, value: Bytes)
    ensures SetHeader([], name, value) == [Header(name, value)]
  {
  }

  lemma HeaderBefore(h: Header, name: Bytes, value: Bytes)
    requires Less(name, h.name)
    ensures SetHeader([h], name, value) == [Header(name, value), h]
  {
    hide Less;
    var one := [h];
    assert one[..0] == [] && Place(one, name) == 0;
  }

  lemma PlainHeaders(status: nat, body: Bytes)
    requires body != []
    ensures FinalHeaders(Plain(status, body, None), NothingSaid())
            == [Header(CONTENT_LENGTH, Dec(|body|)), Header(CONTENT_TYPE, TEXT_PLAIN)]
  {
    hide Less, Dec, Lower, CONTENT_LENGTH, CONTENT_TYPE, TEXT_PLAIN, SetHeader, HasHeader, ConnectionHeaders;
    LengthComesFirst();
    NoConnectionHeader(status, body, None);
    FirstHeader(CONTENT_TYPE, TEXT_PLAIN);
    HeaderBefore(Header(CONTENT_TYPE, TEXT_PLAIN), CONTENT_LENGTH, Dec(|body|));
  }

  lemma StreamHeaders(status: nat, pieces: seq<Bytes>)
    ensures FinalHeaders(Plain(status, [], Some(pieces)), NothingSaid()) == [Header(TRANSFER_ENCODING, CHUNKED)]
  {
    hide Dec, CONTENT_LENGTH, TRANSFER_ENCODING, CHUNKED, SetHeader, HasHeader, ConnectionHeaders;
    NoConnectionHeader(status, [], Some(pieces));
    FirstHeader(TRANSFER_ENCODING, CHUNKED);
  }

  lemma OneHeaderText(h: Header)
    ensures HeadersText([h]) == h.name + Chars(": ") + h.value + Chars("\r\n") + Chars("\r\n")
  {
    Marks();
    assert [h][1..] == [];
    assert HeadersText([]) == CRLF;
    assert [COLON, SPACE] == Chars(": ");
  }

  lemma TwoHeadersText(g: Header, h: Header)
    ensures HeadersText([g, h])
            == g.name + Chars(": ") + g.value + Chars("\r\n") + h.name + Chars(": ") + h.value + Chars("\r\n\r\n")
  {
    Marks();
    assert [g, h][1..] == [h];
    OneHeaderText(h);
    assert [COLON, SPACE] == Chars(": ");
    assert Chars("\r\n") + Chars("\r\n") == Chars("\r\n\r\n");
  }

  /** The line that every response starts with. */
  lemma FirstLine(status: nat, reason: Bytes)
    ensures StatusText(status, reason) + CRLF
            == Chars("HTTP/1.1 ") + Dec(status) + Chars(" ") + reason + Chars("\r\n")
  {
    hide Dec;
    Marks();
    assert VERSION + [SPACE] == Chars("HTTP/1.1 ");
  }

  /** A body at once: the whole text, for every status and body. */
  lemma PlainText(status: nat, body: Bytes)
    requires body != []
    ensures Written(Plain(status, body, None), NothingSaid())
            == Chars("HTTP/1.1 ") + Dec(status) + Chars(" ") + StatusMessage(status) + Chars("\r\n")
               + (Chars("Content-Length") + Chars(": ") + Dec(|body|) + Chars("\r\n")
                  + Chars("Content-Type") + Chars(": ") + Chars("text/plain") + Chars("\r\n\r\n"))
               + body
  {
    hide Dec, StatusMessage, StatusText, HeadersText, Chars, Printed, FinalHeaders;
    var res := Plain(status, body, None);
    NothingIsWritable();
    FinalHeadersAreWritable(res, NothingSaid());
    PlainHeaders(status, body);
    FirstLine(status, StatusMessage(status));
    FieldNames();
    FieldValues();
    TwoHeadersText(Header(CONTENT_LENGTH, Dec(|body|)), Header(CONTENT_TYPE, TEXT_PLAIN));
  }

  lemma NothingIsWritable()
    ensures AllWritable([])
  {
  }

  lemma LastChunkText()
    ensures CRLF + ChunkOf([]) == Chars("\r\n0\r\n\r\n")
  {
    Marks();
    assert Hex(0) == Chars("0");
  }

  lemma WireOfOne(pieces: seq<Bytes>)
    requires |pieces| == 1 && pieces[0] != []
    ensures Wire(pieces) == ChunkOf(pieces[0]) + ChunkOf([])
  {
    hide ChunkOf;
    assert pieces[1..] == [];
  }

  lemma Associates(a: Bytes, b: Bytes, c: Bytes)
    ensures a + b + c == a + (b + c)
  {
  }

  lemma OnePieceText(piece: Bytes)
    requires piece != []
    ensures Wire([piece]) == Hex(|piece|) + Chars("\r\n") + piece + Chars("\r\n0\r\n\r\n")
  {
    Marks();
    LastChunkText();
    WireOfOne([piece]);
    hide Hex, Chars, Wire;
    Associates(Hex(|piece|) + CRLF + piece, CRLF, ChunkOf([]));
  }

  lemma StreamBody(status: nat, piece: Bytes)
    ensures BodyText(Plain(status, [], Some([piece])), NothingSaid()) == Wire([piece])
  {
    hide Wire, HasHeader, FinalHeaders;
    var res := Plain(status, [], Some([piece]));
    NoConnectionHeader(status, [], Some([piece]));
    StreamedFraming(res, NothingSaid());
  }

  /** A body streamed in one piece. */
  lemma StreamedText(status: nat, piece: Bytes)
    requires piece != []
    ensures Written(Plain(status, [], Some([piece])), NothingSaid())
            == Chars("HTTP/1.1 ") + Dec(status) + Chars(" ") + StatusMessage(status) + Chars("\r\n")
               + (Chars("Transfer-Encoding") + Chars(": ") + Chars("chunked") + Chars("\r\n") + Chars("\r\n"))
               + (Hex(|piece|) + Chars("\r\n") + piece + Chars("\r\n0\r\n\r\n"))
  {
    hide Dec, StatusMessage, StatusText, HeadersText, Printed, FinalHeaders, Hex, Wire, BodyText, Chars;
    var res := Plain(status, [], Some([piece]));
    NothingIsWritable();
    FinalHeadersAreWritable(res, NothingSaid());
    StreamHeaders(status, [piece]);
    FirstLine(status, StatusMessage(status));
    FieldNames();
    FieldValues();
    OneHeaderText(Header(TRANSFER_ENCODING, CHUNKED));
    OnePieceText(piece);
    StreamBody(status, piece);
  }

  // ---------- Numbers ----------

  /** A leading blank is skipped, a sign counts, and what follows the digits does not. */
  lemma SignedNumber(n: nat, tail: Bytes)
    requires tail == [] || !('0' as int <= tail[0] <= '9' as int)
    ensures AToI(Chars(" -") + (Dec(n) + tail)) + n == 0
    ensures AToI(Chars(" +") + (Dec(n) + tail)) == n && AToI(Dec(n) + tail) == n
  {
    hide Dec;
    DecRun(n, tail);
    var text := Dec(n) + tail;
    assert DigitRun(tail, 10, n) == n;
    assert text[0] == Dec(n)[0];
    assert Chars(" -") == [SPACE, 45] && Chars(" +") == [SPACE, 43];
    hide DigitRun, Chars;
    BlankAndSign(text, 45);
    BlankAndSign(text, 43);
    assert SkipSpace(text) == text && DropSign(text) == text;
  }

  lemma BlankAndSign(text: Bytes, sign: byte)
    requires sign == 43 || sign == 45
    ensures
      var n: int := DigitRun(text, 10, 0);
      AToI([SPACE, sign] + text) == if sign == 45 then -n else n
  {
    var signed := [sign] + text;
    assert ([SPACE, sign] + text)[1..] == signed && signed[1..] == text;
    hide DigitRun;
    assert SkipSpace([SPACE, sign] + text) == SkipSpace(signed) == signed;
  }

  /** In base 16 a "0x" may stand in front. */
  lemma PrefixedNumber(n: nat, tail: Bytes)
    requires tail == [] || HexDigit(tail[0]) == -1
    ensures StrToL16(Chars("0x") + (Hex(n) + tail)) == Some(n)
  {
    hide Hex;
    HexRun(n, tail);
    HexDigitsOnly(n);
    var text := Hex(n) + tail;
    var s := Chars("0x") + text;
    assert DigitRun(tail, 16, n) == n;
    assert text[0] == Hex(n)[0] && s[0] == 48 && s[1] == 120 && s[2] == text[0] && s[2..] == text;
    hide DigitRun;
    assert SkipSpace(s) == s && DropSign(s) == s && DropPrefix(s) == text;
  }
}
