/**
  * SHA-256 of a message (section 5.1.1 and 6.2 of FIPS 180-4), and PicoSHA2's streaming hasher: whatever the
  * pieces in which a message arrives, the result is the one-shot hash.
  */
module Sha256Stream {
  import opened Basics
  import opened Arithmetic
  import opened Sha256Block

  // ---------- The one-shot hash ----------

  const TWO64: nat := 0x1_0000_0000_0000_0000

  function Zeros(n: nat): (s: Bytes)
    ensures |s| == n && forall i :: 0 <= i < n ==> s[i] == 0
  {
    seq(n, _ => 0)
  }

  /** The last k bytes of n, most significant first. */
  function BigEndianBytes(n: nat, k: nat): (s: Bytes)
    ensures |s| == k
  {
    if k == 0 then [] else BigEndianBytes(n / 256, k - 1) + [n % 256]
  }

  /** What is appended to a message of `length` bytes that ends `remains` bytes into a block. */
  function Padding(remains: nat, length: nat): Bytes {
    [0x80] + Zeros((55 - remains) % 64) + BigEndianBytes(8 * length % TWO64, 8)
  }

  lemma PaddingFills(remains: nat, length: nat)
    ensures (remains + |Padding(remains, length)|) % 64 == 0
    ensures remains < 64 ==> |Padding(remains, length)| == (if remains <= 55 then 64 else 128) - remains
  {
    var k := (55 - remains) % 64;
    assert |Padding(remains, length)| == 9 + k;
  }

  /** The compressions of the complete blocks of s, in order. */
  function FoldBlocks(v: Words, s: Bytes): Words
    decreases |s|
  {
    if |s| < 64 then v else FoldBlocks(Compress(v, s[..64]), s[64..])
  }

  function Padded(message: Bytes): (s: Bytes)
    ensures |s| % 64 == 0
  {
    PaddingFills(|message|, |message|);
    message + Padding(|message|, |message|)
  }

  function Sha256(message: Bytes): Words {
    FoldBlocks(INITIAL, Padded(message))
  }

  function WordBytes(w: Word): (s: Bytes)
    ensures |s| == 4
  {
    [w / 0x100_0000, w / 0x1_0000 % 256, w / 0x100 % 256, w % 256]
  }

  function DigestBytes(v: Words): (s: Bytes)
    ensures |s| == 32
  {
    WordBytes(v.a) + WordBytes(v.b) + WordBytes(v.c) + WordBytes(v.d)
    + WordBytes(v.e) + WordBytes(v.f) + WordBytes(v.g) + WordBytes(v.h)
  }

  // ---------- The stream, as a value ----------

  /** The digest of all complete blocks, the bytes after them, and the number of bytes so far modulo 2^64. */
  datatype Stream = Stream(digest: Words, rest: Bytes, length: nat)

  const START := Stream(INITIAL, [], 0)

  function Full(n: nat): (k: nat)
    ensures k % 64 == 0 && k <= n < k + 64
  {
    n / 64 * 64
  }

  function Absorb(st: Stream, data: Bytes): (st': Stream)
    ensures |st'.rest| < 64
  {
    var s := st.rest + data;
    var k := Full(|s|);
    Stream(FoldBlocks(st.digest, s[..k]), s[k..], (st.length + |data|) % TWO64)
  }

  function AbsorbAll(st: Stream, chunks: seq<Bytes>): Stream
    decreases |chunks|
  {
    if chunks == [] then st else AbsorbAll(Absorb(st, chunks[0]), chunks[1..])
  }

  function Finalize(st: Stream): Words
    requires |st.rest| < 64
  {
    PaddingFills(|st.rest|, st.length);
    FoldBlocks(st.digest, st.rest + Padding(|st.rest|, st.length))
  }

  // ---------- Pieces do not matter ----------

  lemma {:induction false} FoldConcat(v: Words, a: Bytes, b: Bytes)
    requires |a| % 64 == 0
    ensures FoldBlocks(v, a + b) == FoldBlocks(FoldBlocks(v, a), b)
    decreases |a|
  {
    hide Compress;
    if a == [] {
      assert a + b == b;
    } else {
      assert (a + b)[..64] == a[..64] && (a + b)[64..] == a[64..] + b;
      FoldConcat(Compress(v, a[..64]), a[64..], b);
    }
  }

  lemma FullOfTwo(n: nat, b: nat)
    ensures Full(n + b) == Full(n) + Full(n - Full(n) + b)
  {
  }

  /** Cutting off the full blocks twice is cutting them off once. */
  lemma CutTwice(s: Bytes, b: Bytes, k: nat, j: nat)
    requires k <= |s| && j <= |s| - k + |b|
    ensures (s + b)[..k + j] == s[..k] + (s[k..] + b)[..j]
    ensures (s + b)[k + j..] == (s[k..] + b)[j..]
  {
    assert s + b == s[..k] + (s[k..] + b);
  }

  /** Two pieces in a row are absorbed like their concatenation. */
  lemma AbsorbConcat(st: Stream, a: Bytes, b: Bytes)
    ensures Absorb(Absorb(st, a), b) == Absorb(st, a + b)
  {
    hide FoldBlocks, Full;
    var s := st.rest + a;
    var k := Full(|s|);
    var s' := s[k..] + b;
    var j := Full(|s'|);
    assert st.rest + (a + b) == s + b;
    FullOfTwo(|s|, |b|);
    CutTwice(s, b, k, j);
    FoldConcat(st.digest, s[..k], s'[..j]);
    assert ((st.length + |a|) % TWO64 + |b|) % TWO64 == (st.length + |a + b|) % TWO64;
  }

  lemma {:induction false} AbsorbAllIsAbsorb(st: Stream, chunks: seq<Bytes>)
    requires |st.rest| < 64 && st.length < TWO64
    ensures AbsorbAll(st, chunks) == Absorb(st, Flatten(chunks))
    decreases |chunks|
  {
    hide FoldBlocks;
    if chunks == [] {
      assert st.rest + [] == st.rest;
      assert st.rest[..0] == [] && st.rest[0..] == st.rest;
      assert FoldBlocks(st.digest, []) == st.digest by { EmptyFold(st.digest); }
    } else {
      AbsorbAllIsAbsorb(Absorb(st, chunks[0]), chunks[1..]);
      AbsorbConcat(st, chunks[0], Flatten(chunks[1..]));
    }
  }

  lemma EmptyFold(v: Words)
    ensures FoldBlocks(v, []) == v
  {
  }

  /** Padding depends on the bytes since the last full block. */
  lemma PaddingOfRest(n: nat, length: nat)
    ensures Padding(n - Full(n), length) == Padding(n, length)
  {
    hide BigEndianBytes, Zeros;
    assert (55 - (n - Full(n))) % 64 == (55 - n) % 64;
  }

  /** The length field is taken modulo 2^64 anyway. */
  lemma PaddingModulo(remains: nat, length: nat)
    ensures Padding(remains, length % TWO64) == Padding(remains, length)
  {
    hide BigEndianBytes, Zeros;
    DivMod(length, TWO64);
    var r, q := length % TWO64, length / TWO64;
    DivMod(8 * r, TWO64);
    DivModUnique(8 * length, TWO64, 8 * q + 8 * r / TWO64, 8 * r % TWO64);
  }

  /** A message absorbed in one piece and finalized gives its hash. */
  lemma FinalizeOfAbsorb(message: Bytes)
    ensures Finalize(Absorb(START, message)) == Sha256(message)
  {
    hide FoldBlocks, Padding, Full;
    FinalizeWithLength(message, |message|);
    PaddingModulo(|message|, |message|);
    FinalizeWithLength(message, |message| % TWO64);
  }

  lemma AbsorbStart(message: Bytes)
    ensures
      var k := Full(|message|);
      Absorb(START, message) == Stream(FoldBlocks(INITIAL, message[..k]), message[k..], |message| % TWO64)
  {
    hide FoldBlocks;
    assert [] + message == message;
  }

  lemma CutMessage(message: Bytes, padding: Bytes, k: nat)
    requires k <= |message|
    ensures message + padding == message[..k] + (message[k..] + padding)
  {
  }

  /** Whatever length has been counted, it is what the message is padded with. */
  lemma FinalizeWithLength(message: Bytes, length: nat)
    ensures Finalize(Absorb(START, message).(length := length))
            == FoldBlocks(INITIAL, message + Padding(|message|, length))
  {
    AbsorbStart(message);
    hide FoldBlocks, Padding, Full, Absorb;
    var n := |message|;
    var k := Full(n);
    var padding := Padding(n, length);
    PaddingOfRest(n, length);
    CutMessage(message, padding, k);
    FoldConcat(INITIAL, message[..k], message[k..] + padding);
  }

  /** Streaming equals one-shot, for every message and every way of cutting it. */
  lemma StreamingIsOneShot(chunks: seq<Bytes>)
    ensures |AbsorbAll(START, chunks).rest| < 64
    ensures Finalize(AbsorbAll(START, chunks)) == Sha256(Flatten(chunks))
  {
    AbsorbAllIsAbsorb(START, chunks);
    FinalizeOfAbsorb(Flatten(chunks));
  }

  /** Below 2^61 bytes the length field is the number of bits itself, as section 5.1.1 asks. */
  lemma LengthFieldIsExact(message: Bytes)
    requires |message| < 0x2000_0000_0000_0000
    ensures Padded(message)
            == message + ([0x80] + Zeros((55 - |message|) % 64) + BigEndianBytes(8 * |message|, 8))
  {
    hide Zeros, BigEndianBytes;
    DivModUnique(8 * |message|, TWO64, 0, 8 * |message|);
  }
}
