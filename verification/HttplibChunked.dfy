/** cpp-httplib's line reader, its reader of chunked bodies and the loop that writes them. */
module HttplibChunked {
  import opened Basics
  import opened CStrings

  // ---------- Specification ----------

  /** A line, with its line feed when it has one, and the bytes after it. */
  datatype Line = Line(text: Bytes, rest: Bytes)

  function UpToLf(s: Bytes): (n: nat)
    ensures n <= |s|
    ensures forall k :: 0 <= k < n - 1 ==> s[k] != LF
    ensures n == 0 || s[n - 1] == LF || n == |s|
    decreases |s|
  {
    if s == [] then 0 else if s[0] == LF then 1 else 1 + UpToLf(s[1..])
  }

  /**
    * The next line of a stream that ends after s, with an error or in good order. A last line without a line
    * feed counts only when the end is in good order.
    */
  function NextLine(s: Bytes, fails: bool): (l: Option<Line>)
    ensures l.Some? ==> l.value.text + l.value.rest == s && l.value.text != []
  {
    var n := UpToLf(s);
    if n == 0 || (fails && s[n - 1] != LF) then None else Some(Line(s[..n], s[n..]))
  }

  /** `std::stoi(text, 0, 16)`; None when it throws. */
  function StoI16(text: Bytes): Option<int> {
    match StrToL16(text)
    case None => None
    case Some(n) => if -MAX_INT - 1 <= n <= MAX_INT then Some(n) else None
  }

  /** What a read leaves: its verdict, the body so far and the bytes not yet read; or an exception. */
  datatype ReadOutcome = Done(ok: bool, out: Bytes, rest: Bytes) | Thrown

  function ReadEnd(s: Bytes, fails: bool, out: Bytes): ReadOutcome {
    match NextLine(s, fails)
    case None => Done(false, out, [])
    case Some(l) => Done(CStr(l.text) == CRLF, out, l.rest)
  }

  /** One chunk of n bytes and the line that ends it: the bytes after them, or the outcome of stopping here. */
  datatype ChunkRead = Chunk(data: Bytes, next: Bytes) | Stop(outcome: ReadOutcome)

  function ReadChunk(s: Bytes, fails: bool, out: Bytes, n: nat): (c: ChunkRead)
    ensures c.Chunk? ==> |c.next| <= |s| && |c.data| == n <= |s| && c.data == s[..n]
  {
    if |s| < n then Stop(Done(false, out, []))
    else
      match NextLine(s[n..], fails)
      case None => Stop(Done(false, out, []))
      case Some(l) => if CStr(l.text) != CRLF then Stop(Done(true, out, l.rest)) else Chunk(s[..n], l.rest)
  }

  /** The body from a chunk-size line on. */
  function ReadChunked(s: Bytes, fails: bool, out: Bytes): ReadOutcome
    decreases |s|, 1
  {
    match NextLine(s, fails)
    case None => Done(false, out, [])
    case Some(l) =>
      assert |l.text + l.rest| == |s|;
      match StoI16(CStr(l.text))
      case None => Thrown
      case Some(n) => AfterLength(n, l.rest, fails, out)
  }

  /** The body once a chunk size of n has been read. */
  function AfterLength(n: int, s: Bytes, fails: bool, out: Bytes): ReadOutcome
    decreases |s|, 2
  {
    if n < 0 then Done(true, out, s)
    else if n == 0 then ReadEnd(s, fails, out)
    else
      match ReadChunk(s, fails, out, n)
      case Stop(outcome) => outcome
      case Chunk(data, next) => ReadChunked(next, fails, out + data)
  }

  // ---------- The stream ----------

  /** A connection: the bytes still to come, and whether it ends with an error or in good order. */
  class Stream {
    var rest: Bytes
    const fails: bool

    constructor (bytes: Bytes, fails: bool)
      ensures rest == bytes && this.fails == fails
    {
      rest := bytes;
      this.fails := fails;
    }

    /** `read` may give any positive number of the bytes asked for. */
    method Read(max: nat) returns (n: int, data: Bytes)
      requires max > 0
      modifies this
      ensures data + rest == old(rest) && |data| <= max
      ensures if old(rest) == [] then n == (if fails then -1 else 0) && data == [] else n == |data| > 0
    {
      if rest == [] {
        n, data := if fails then -1 else 0, [];
      } else {
        var got: nat :| 0 < got <= max && got <= |rest|;
        n, data, rest := got, rest[..got], rest[got..];
      }
    }
  }

  // ---------- The line reader ----------

  lemma {:induction false} CStrStopsAtNul(a: Bytes, b: Bytes)
    requires b != [] && b[0] == 0
    ensures CStr(a + b) == CStr(a)
    decreases |a|
  {
    if a == [] {
      assert a + b == b;
    } else {
      assert (a + b)[0] == a[0] && (a + b)[1..] == a[1..] + b;
      CStrStopsAtNul(a[1..], b);
    }
  }

  /** Keeps a line in the fixed buffer while it fits, NUL-terminated, and in a string from then on. */
  class StreamLineReader {
    const strm: Stream
    const fixedBuffer: array<byte>
    var fixedBufferUsedSize: nat
    var glowableBuffer: Bytes

    ghost predicate Valid()
      reads this, fixedBuffer
    {
      && fixedBuffer.Length >= 2 && fixedBufferUsedSize < fixedBuffer.Length
      && (glowableBuffer != [] ==> fixedBufferUsedSize == fixedBuffer.Length - 1)
    }

    /** The line so far. */
    ghost function Text(): Bytes
      requires Valid()
      reads this, fixedBuffer
    {
      if glowableBuffer == [] then fixedBuffer[..fixedBufferUsedSize] else glowableBuffer
    }

    /** Reading from `Ptr` never runs off the fixed buffer. */
    ghost predicate Terminated()
      requires Valid()
      reads this, fixedBuffer
    {
      glowableBuffer == [] ==> fixedBuffer[fixedBufferUsedSize] == 0
    }

    constructor (strm: Stream, fixedBuffer: array<byte>)
      requires fixedBuffer.Length >= 2
      ensures Valid() && this.strm == strm && this.fixedBuffer == fixedBuffer
    {
      this.strm := strm;
      this.fixedBuffer := fixedBuffer;
      fixedBufferUsedSize := 0;
      glowableBuffer := [];
    }

    /** The text at `ptr()` as a C string. */
    method Ptr() returns (text: Bytes)
      requires Valid() && Terminated()
      ensures text == CStr(Text())
    {
      if glowableBuffer == [] {
        text := CStr(fixedBuffer[..]);
        assert fixedBuffer[..] == fixedBuffer[..fixedBufferUsedSize] + fixedBuffer[fixedBufferUsedSize..];
        CStrStopsAtNul(fixedBuffer[..fixedBufferUsedSize], fixedBuffer[fixedBufferUsedSize..]);
      } else {
        text := CStr(glowableBuffer);
      }
    }

    method Append(c: byte)
      requires Valid() && (Terminated() || Text() == [])
      modifies this, fixedBuffer
      ensures Valid() && Terminated() && Text() == old(Text()) + [c]
    {
      if fixedBufferUsedSize < fixedBuffer.Length - 1 {
        fixedBuffer[fixedBufferUsedSize] := c;
        fixedBufferUsedSize := fixedBufferUsedSize + 1;
        fixedBuffer[fixedBufferUsedSize] := 0;
      } else {
        if glowableBuffer == [] {
          glowableBuffer := fixedBuffer[..fixedBufferUsedSize];
        }
        glowableBuffer := glowableBuffer + [c];
      }
    }

    method GetLine() returns (ok: bool)
      requires Valid()
      modifies this, fixedBuffer, strm
      ensures Valid()
      ensures match NextLine(old(strm.rest), strm.fails)
              case None => !ok && strm.rest == []
              case Some(l) => ok && Terminated() && Text() == l.text && strm.rest == l.rest
    {
      hide NextLine, UpToLf;
      fixedBufferUsedSize := 0;
      glowableBuffer := [];
      var i := 0;
      ghost var text: Bytes := [];
      while true
        invariant Valid() && Text() == text && i == |text| && (i > 0 ==> Terminated())
        invariant old(strm.rest) == text + strm.rest && LF !in text
        decreases |strm.rest|
      {
        ghost var before := strm.rest;
        LineFrom(text, before, strm.fails);
        var n, data := strm.Read(1);
        if n < 0 {
          return false;
        } else if n == 0 {
          return i != 0;
        }
        Append(data[0]);
        MoveFirst(text, before);
        if data[0] == LF {
          return true;
        }
        text := text + [data[0]];
        i := i + 1;
      }
    }

    /** `getline()` and then `ptr()`. */
    method GetText() returns (ok: bool, text: Bytes)
      requires Valid()
      modifies this, fixedBuffer, strm
      ensures Valid()
      ensures match NextLine(old(strm.rest), strm.fails)
              case None => !ok && strm.rest == []
              case Some(l) => ok && text == CStr(l.text) && strm.rest == l.rest
    {
      hide NextLine, CStr;
      text := [];
      ok := GetLine();
      if ok {
        text := Ptr();
      }
    }
  }

  lemma MoveFirst(text: Bytes, s: Bytes)
    requires s != []
    ensures text + s == text + [s[0]] + s[1..]
  {
  }

  /** The line that starts with text, once text holds no line feed. */
  lemma {:induction false} LineFrom(text: Bytes, s: Bytes, fails: bool)
    requires LF !in text
    ensures UpToLf(text + s) == |text| + UpToLf(s)
    ensures s != [] && s[0] == LF ==> NextLine(text + s, fails) == Some(Line(text + [LF], s[1..]))
    ensures s == [] ==> NextLine(text + s, fails) == if fails || text == [] then None else Some(Line(text, []))
    decreases |text|
  {
    UpToLfAfter(text, s);
    if s == [] {
      assert text + s == text;
    } else if s[0] == LF {
      assert (text + s)[..|text| + 1] == text + [LF] && (text + s)[|text| + 1..] == s[1..];
    }
  }

  lemma {:induction false} UpToLfAfter(text: Bytes, s: Bytes)
    requires LF !in text
    ensures UpToLf(text + s) == |text| + UpToLf(s)
    decreases |text|
  {
    if text == [] {
      assert text + s == s;
    } else {
      assert (text + s)[0] == text[0] && (text + s)[1..] == text[1..] + s;
      UpToLfAfter(text[1..], s);
    }
  }

  // ---------- Reading ----------

  /** Exactly len bytes into out, however few each read brings. */
  method ReadContentWithLength(strm: Stream, len: nat) returns (ok: bool, out: Bytes)
    modifies strm
    ensures ok == (len <= |old(strm.rest)|)
    ensures ok ==> out == old(strm.rest)[..len] && strm.rest == old(strm.rest)[len..]
    ensures !ok ==> strm.rest == []
  {
    out := seq(len, _ => 0);
    var r := 0;
    while r < len
      invariant r <= len == |out| && r <= |old(strm.rest)|
      invariant out[..r] == old(strm.rest)[..r] && strm.rest == old(strm.rest)[r..]
    {
      var n, data := strm.Read(len - r);
      if n <= 0 {
        return false, out;
      }
      out := out[..r] + data + out[r + n..];
      r := r + n;
    }
    ok := true;
  }

  /** What the method returned, or that it threw, is what the specification says. */
  predicate Agrees(expected: ReadOutcome, outcome: Option<bool>, out: Bytes, rest: Bytes) {
    match expected
    case Thrown => outcome == None
    case Done(ok, body, after) => outcome == Some(ok) && out == body && rest == after
  }

  method ReadContentChunked(strm: Stream, out0: Bytes, bufsiz: nat) returns (outcome: Option<bool>, out: Bytes)
    requires bufsiz >= 2
    modifies strm
    ensures Agrees(ReadChunked(old(strm.rest), strm.fails, out0), outcome, out, strm.rest)
  {
    hide NextLine, StoI16, CStr;
    out := out0;
    var buf := new byte[bufsiz];
    var reader := new StreamLineReader(strm, buf);
    var got, text := reader.GetText();
    if !got {
      return Some(false), out;
    }
    var chunkLen := StoI16(text);
    if chunkLen == None {
      return None, out;
    }
    while chunkLen.value > 0
      invariant reader.Valid() && fresh(reader) && reader.strm == strm && reader.fixedBuffer == buf
      invariant chunkLen.Some?
      invariant ReadChunked(old(strm.rest), strm.fails, out0) == AfterLength(chunkLen.value, strm.rest, strm.fails, out)
      decreases |strm.rest|
    {
      var read, chunk := ReadContentWithLength(strm, chunkLen.value);
      if !read {
        return Some(false), out;
      }
      got, text := reader.GetText();
      if !got {
        return Some(false), out;
      }
      if text != CRLF {
        break;
      }
      out := out + chunk;
      got, text := reader.GetText();
      if !got {
        return Some(false), out;
      }
      chunkLen := StoI16(text);
      if chunkLen == None {
        return None, out;
      }
    }
    if chunkLen.value == 0 {
      got, text := reader.GetText();
      if !got {
        return Some(false), out;
      }
      if text != CRLF {
        return Some(false), out;
      }
    }
    return Some(true), out;
  }
}
