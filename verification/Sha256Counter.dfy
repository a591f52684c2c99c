/**
  * The message length as PicoSHA2 counts it: four base-65536 digits, of which the lowest takes the whole of a
  * call's length in one word_t before the carries are taken out. A word_t that wraps around there is lost.
  */
module Sha256Counter {
  import opened Basics
  import opened Arithmetic
  import opened Sha256Block
  import opened Sha256Stream

  const RADIX: nat := 0x1_0000

  // ---------- One call ----------

  /** What wraps around when n bytes are added to a counter that stands at length. */
  function Lost(m: nat, length: nat, n: nat): (lost: nat)
    requires m > 0
    ensures lost <= length % RADIX + n
  {
    var x := length % RADIX + n;
    DivMod(x, m);
    QuotientAtMost(x, m);
    MulMonotone(0, x / m, m);
    x / m * m
  }

  function Counted(m: nat, length: nat, n: nat): nat
    requires m > 0
  {
    (length + n - Lost(m, length, n)) % TWO64
  }

  lemma SubtractMod(a: nat, b: nat, t: nat)
    requires t > 0 && b <= a
    ensures (a - b) % t == a % t <==> b % t == 0
  {
    DivMod(a, t);
    DivMod(b, t);
    DivMod(a - b, t);
    var q, k := a / t, b / t;
    if b % t == 0 {
      MulDistributes(q - k, k, t);
      DivModUnique(a - b, t, q - k, a % t);
    }
    if (a - b) % t == a % t {
      MulDistributes(q - (a - b) / t, (a - b) / t, t);
      DivModUnique(b, t, q - (a - b) / t, 0);
    }
  }

  /** The count is right exactly when what is lost is a multiple of 2^64. */
  lemma CountIsExactIff(m: nat, length: nat, n: nat)
    requires m > 0
    ensures Counted(m, length, n) == (length + n) % TWO64 <==> Lost(m, length, n) % TWO64 == 0
  {
    hide Lost;
    SubtractMod(length + n, Lost(m, length, n), TWO64);
  }

  lemma NothingLostIff(m: nat, length: nat, n: nat)
    requires m > 0
    ensures Lost(m, length, n) == 0 <==> length % RADIX + n < m
  {
    var x := length % RADIX + n;
    DivMod(x, m);
    if x < m {
      DivModUnique(x, m, 0, x);
    } else if x / m <= 0 {
      MulMonotone(x / m, 0, m);
      assert false;
    } else {
      MulMonotone(1, x / m, m);
    }
  }

  /** Below 2^64 that is: exactly when the lowest digit and the call's length fit one word_t. */
  lemma CountIsExactBelow(m: nat, length: nat, n: nat)
    requires m > 0 && length % RADIX + n < TWO64
    ensures Counted(m, length, n) == (length + n) % TWO64 <==> length % RADIX + n < m
  {
    hide Counted, Lost;
    CountIsExactIff(m, length, n);
    NothingLostIff(m, length, n);
    SmallMod(Lost(m, length, n));
  }

  lemma SmallMod(x: nat)
    requires x < TWO64
    ensures x % TWO64 == x
  {
  }

  /** `process` on the stream, with the count it makes. */
  function AbsorbCounting(m: nat, st: Stream, data: Bytes): Stream
    requires m > 0
  {
    Absorb(st, data).(length := Counted(m, st.length, |data|))
  }

  // ---------- Many calls ----------

  function AbsorbCountingAll(m: nat, st: Stream, chunks: seq<Bytes>): Stream
    requires m > 0
    decreases |chunks|
  {
    if chunks == [] then st else AbsorbCountingAll(m, AbsorbCounting(m, st, chunks[0]), chunks[1..])
  }

  function CountAll(m: nat, length: nat, chunks: seq<Bytes>): nat
    requires m > 0
    decreases |chunks|
  {
    if chunks == [] then length else CountAll(m, Counted(m, length, |chunks[0]|), chunks[1..])
  }

  /** At every call the lowest digit and the call's length fit one word_t. */
  predicate CallsFit(m: nat, length: nat, chunks: seq<Bytes>)
    decreases |chunks|
  {
    chunks == []
    || (length % RADIX + |chunks[0]| < m && CallsFit(m, (length + |chunks[0]|) % TWO64, chunks[1..]))
  }

  /** Only the count depends on the count. */
  lemma {:induction false} CountingIsApart(m: nat, st: Stream, length: nat, chunks: seq<Bytes>)
    requires m > 0
    ensures AbsorbCountingAll(m, st.(length := length), chunks)
            == AbsorbAll(st, chunks).(length := CountAll(m, length, chunks))
    decreases |chunks|
  {
    hide FoldBlocks, Full, Counted;
    if chunks != [] {
      CountingIsApart(m, Absorb(st, chunks[0]), Counted(m, length, |chunks[0]|), chunks[1..]);
    }
  }

  /** A count that has fallen behind never catches up. */
  lemma {:induction false} NeverCatchesUp(m: nat, length: nat, chunks: seq<Bytes>)
    requires m > 0 && length + |Flatten(chunks)| < TWO64
    ensures CountAll(m, length, chunks) <= length + |Flatten(chunks)|
    ensures CountAll(m, length, chunks) == length + |Flatten(chunks)| <==> CallsFit(m, length, chunks)
    decreases |chunks|
  {
    hide Counted;
    if chunks != [] {
      var n := |chunks[0]|;
      CountedAtMost(m, length, n);
      SmallMod(length + n);
      CountIsExactBelow(m, length, n);
      NeverCatchesUp(m, Counted(m, length, n), chunks[1..]);
    }
  }

  lemma CountedAtMost(m: nat, length: nat, n: nat)
    requires m > 0 && length + n < TWO64
    ensures Counted(m, length, n) <= length + n
  {
    hide Lost;
    assert length % RADIX <= length;
    SmallMod(length + n - Lost(m, length, n));
  }

  /**
    * Below 2^64 bytes, the calls leave the stream as it should be if and only if each of them fits; its digest is
    * then that of the whole message.
    */
  lemma CountingStreamIsExactIff(m: nat, chunks: seq<Bytes>)
    requires m > 0 && |Flatten(chunks)| < TWO64
    ensures AbsorbCountingAll(m, START, chunks) == AbsorbAll(START, chunks) <==> CallsFit(m, 0, chunks)
    ensures |AbsorbAll(START, chunks).rest| < 64 && Finalize(AbsorbAll(START, chunks)) == Sha256(Flatten(chunks))
  {
    hide AbsorbAll, AbsorbCountingAll, CountAll, CallsFit, Finalize, Sha256;
    CountingIsApart(m, START, 0, chunks);
    NeverCatchesUp(m, 0, chunks);
    StreamingIsOneShot(chunks);
    AbsorbAllLength(chunks);
  }

  lemma AbsorbAllLength(chunks: seq<Bytes>)
    requires |Flatten(chunks)| < TWO64
    ensures AbsorbAll(START, chunks).length == |Flatten(chunks)|
  {
    hide FoldBlocks, Full, AbsorbAll;
    AbsorbAllIsAbsorb(START, chunks);
    SmallMod(|Flatten(chunks)|);
  }

  // ---------- One call for the whole message ----------

  /** The hash of the message padded as if it were so many bytes long. */
  function HashCounted(message: Bytes, length: nat): Words {
    FoldBlocks(INITIAL, message + Padding(|message|, length))
  }

  lemma CountedAtOnce(m: nat, n: nat)
    requires m > 0
    ensures Counted(m, 0, n) == n % m % TWO64
  {
    DivMod(n, m);
  }

  function Power256(k: nat): (p: nat)
    ensures p > 0
  {
    if k == 0 then 1 else 256 * Power256(k - 1)
  }

  lemma {:induction false} BigEndianIsInjective(a: nat, b: nat, k: nat)
    requires a < Power256(k) && b < Power256(k)
    ensures BigEndianBytes(a, k) == BigEndianBytes(b, k) <==> a == b
    decreases k
  {
    if k > 0 {
      var x, y := BigEndianBytes(a, k), BigEndianBytes(b, k);
      assert x[k - 1] == a % 256 && y[k - 1] == b % 256;
      assert x[..k - 1] == BigEndianBytes(a / 256, k - 1) && y[..k - 1] == BigEndianBytes(b / 256, k - 1);
      BigEndianIsInjective(a / 256, b / 256, k - 1);
    }
  }

  lemma Power256Of8(k: nat)
    requires k == 8
    ensures Power256(k) == TWO64
  {
    assert Power256(k - 4) == 256 * Power256(k - 5) == 65536 * Power256(k - 6);
    assert Power256(k - 6) == 256 * Power256(k - 7) == 65536 * Power256(k - 8);
    assert Power256(k - 2) == 256 * Power256(k - 3) == 65536 * Power256(k - 4);
    assert Power256(k) == 256 * Power256(k - 1) == 65536 * Power256(k - 2);
  }

  /** Two lengths are padded alike exactly when they have the same number of bits modulo 2^64. */
  lemma SamePaddingIff(remains: nat, a: nat, b: nat)
    ensures Padding(remains, a) == Padding(remains, b) <==> 8 * a % TWO64 == 8 * b % TWO64
  {
    hide BigEndianBytes;
    var x, y := 8 * a % TWO64, 8 * b % TWO64;
    var k: nat := 8;
    Power256Of8(k);
    BigEndianIsInjective(x, y, k);
    var front := [0x80] + Zeros((55 - remains) % 64);
    assert Padding(remains, a)[|front|..] == BigEndianBytes(x, k);
    assert Padding(remains, b)[|front|..] == BigEndianBytes(y, k);
  }

  /** A message below 2^61 bytes, hashed in one call, is padded as section 5.1.1 asks exactly when it is below m. */
  lemma PaddedAsStandardIff(m: nat, message: Bytes)
    requires m > 0 && |message| < 0x2000_0000_0000_0000
    ensures message + Padding(|message|, |message| % m) == Padded(message) <==> |message| < m
  {
    hide Padding;
    var n := |message|;
    DivMod(n, m);
    QuotientAtMost(n, m);
    MulMonotone(0, n / m, m);
    SmallMod(8 * n);
    SmallMod(8 * (n % m));
    SamePaddingIff(n, n % m, n);
    assert (message + Padding(n, n % m))[n..] == Padding(n, n % m);
    assert (message + Padding(n, n))[n..] == Padding(n, n);
    if n < m {
      DivModUnique(n, m, 0, n);
    }
  }

  /** 2^32 bytes in one call, with a 32-bit word_t: the message is padded as if it were empty. */
  lemma OneCallCanMiscount() returns (message: Bytes)
    ensures |message| == B && Counted(B, 0, |message|) == 0
    ensures message + Padding(|message|, |message| % B) != Padded(message)
  {
    hide Padding, Padded;
    message := seq(B, _ => 0);
    CountedAtOnce(B, |message|);
    PaddedAsStandardIff(B, message);
  }
}
