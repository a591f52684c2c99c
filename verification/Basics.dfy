/** Vocabulary shared by the models: bytes, C++ strings, 32-bit words and error-carrying results. */
module Basics {

  type byte = x: int | 0 <= x < 256

  /** A `std::string` (or a byte buffer). */
  type Bytes = seq<byte>

  /** The bytes of a text in ASCII. */
  function Chars(text: string): (s: Bytes)
    ensures |s| == |text| && forall k :: 0 <= k < |s| ==> s[k] == text[k] as int % 128
  {
    seq(|text|, k requires 0 <= k < |text| => text[k] as int % 128)
  }

  const MAX_UINT32: int := 0xFFFF_FFFF
  const MAX_INT: int := 0x7FFF_FFFF

  /** A `uint32_t`: assigning a value that would have wrapped around is a verification error. */
  type uint32 = x: int | 0 <= x <= 0xFFFF_FFFF

  /** The pieces of a message, put together. */
  function Flatten(pieces: seq<Bytes>): Bytes
    decreases |pieces|
  {
    if pieces == [] then [] else pieces[0] + Flatten(pieces[1..])
  }

  datatype Result<+T, +E> = Success(value: T) | Failure(error: E)

  datatype Option<+T> = None | Some(value: T)
}
