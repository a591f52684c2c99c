/** The class `hash256_one_by_one` and the two functions that drive it. */
module Sha256Hasher {
  import opened Basics
  import opened Arithmetic
  import opened Bits
  import opened Sha256Block
  import opened Sha256Counter
  import opened Sha256Stream

  // ---------- The four-digit length counter ----------

  /** Four base-65536 digits, least significant first. */
  function LengthOf(d: seq<nat>): nat
    requires |d| == 4
  {
    d[0] + d[1] * 0x1_0000 + d[2] * 0x1_0000_0000 + d[3] * 0x1_0000_0000_0000
  }

  predicate IsDigits(d: seq<nat>) {
    |d| == 4 && forall i :: 0 <= i < 4 ==> d[i] < RADIX
  }

  function Place(i: nat): nat
    requires i <= 4
  {
    if i == 0 then 1 else if i == 1 then 0x1_0000 else if i == 2 then 0x1_0000_0000
    else if i == 3 then 0x1_0000_0000_0000 else TWO64
  }

  lemma DigitsBelowTwo64(d: seq<nat>)
    requires |d| == 4
    ensures IsDigits(d) ==> LengthOf(d) < TWO64
  {
  }

  /** The carry loop from digit i on. */
  function Carry(d: seq<nat>, i: nat, carry: nat): (r: seq<nat>)
    requires |d| == 4 && i <= 4
    ensures |r| == 4
    decreases 4 - i
  {
    if i == 4 then d
    else
      var x := d[i] + carry;
      if x >= RADIX then Carry(d[i := x % RADIX], i + 1, x / RADIX) else d[i := x]
  }

  /** Adding at place i. */
  lemma AddAt(d: seq<nat>, i: nat, carry: nat)
    requires |d| == 4 && i < 4
    ensures LengthOf(d[i := d[i] + carry]) == LengthOf(d) + carry * Place(i)
    ensures LengthOf(d[i := d[i] + carry])
            == LengthOf(d[i := (d[i] + carry) % RADIX]) + (d[i] + carry) / RADIX * Place(i + 1)
  {
    var x := d[i] + carry;
    assert x == x / RADIX * RADIX + x % RADIX;
  }

  lemma CarryStep(d: seq<nat>, i: nat, carry: nat)
    requires |d| == 4 && i <= 4
    ensures Carry(d, i, carry)
            == if i == 4 then d
               else if d[i] + carry >= RADIX then Carry(d[i := (d[i] + carry) % RADIX], i + 1, (d[i] + carry) / RADIX)
               else d[i := d[i] + carry]
  {
  }

  lemma {:induction false} CarryIsDigits(d: seq<nat>, i: nat, carry: nat)
    requires |d| == 4 && i <= 4 && forall j :: 0 <= j < 4 && j != i ==> d[j] < RADIX
    ensures IsDigits(Carry(d, i, carry))
    decreases 4 - i
  {
    if i < 4 && d[i] + carry >= RADIX {
      CarryIsDigits(d[i := (d[i] + carry) % RADIX], i + 1, (d[i] + carry) / RADIX);
    }
  }

  /** The loop adds to the number the digits stand for, modulo 2^64. */
  lemma {:induction false} CarryAdds(d: seq<nat>, i: nat, carry: nat)
    requires |d| == 4 && i <= 4 && forall j :: 0 <= j < 4 && j != i ==> d[j] < RADIX
    ensures carry * Place(i) >= 0
    ensures LengthOf(Carry(d, i, carry)) == (LengthOf(d) + carry * Place(i)) % TWO64
    decreases 4 - i
  {
    MulMonotone(0, carry, Place(i));
    CarryIsDigits(d, i, carry);
    DigitsBelowTwo64(Carry(d, i, carry));
    CarryStep(d, i, carry);
    if i == 4 {
      DivModUnique(LengthOf(d) + carry * TWO64, TWO64, carry, LengthOf(d));
    } else {
      AddAt(d, i, carry);
      hide LengthOf, Place, Carry, IsDigits;
      var x := d[i] + carry;
      if x >= RADIX {
        CarryAdds(d[i := x % RADIX], i + 1, x / RADIX);
      } else {
        DivModUnique(LengthOf(d[i := x]), TWO64, 0, LengthOf(d[i := x]));
      }
    }
  }

  // ---------- Blocks one at a time ----------

  lemma FoldOneMore(v: Words, s: Bytes, i: nat)
    requires i % 64 == 0 && i + 64 <= |s|
    ensures FoldBlocks(v, s[..i + 64]) == Compress(FoldBlocks(v, s[..i]), s[i..i + 64])
  {
    hide Compress;
    var block := s[i..i + 64];
    assert s[..i + 64] == s[..i] + block;
    FoldConcat(v, s[..i], block);
    OneBlock(FoldBlocks(v, s[..i]), block);
  }

  lemma OneBlock(v: Words, block: Bytes)
    requires |block| == 64
    ensures FoldBlocks(v, block) == Compress(v, block)
  {
    hide Compress;
    assert block[..64] == block && block[64..] == [];
    EmptyFold(Compress(v, block));
  }

  // ---------- The last blocks ----------

  lemma OneLastBlock(st: Stream, field: Bytes)
    requires |st.rest| <= 55 && field == BigEndianBytes(8 * st.length % TWO64, 8)
    ensures var block := st.rest + [0x80] + Zeros(55 - |st.rest|) + field;
      Compress(st.digest, block) == Finalize(st)
  {
    hide Compress, BigEndianBytes, Zeros, FoldBlocks;
    var r := |st.rest|;
    var block := st.rest + [0x80] + Zeros(55 - r) + field;
    assert (55 - r) % 64 == 55 - r;
    assert block == st.rest + ([0x80] + Zeros(55 - r) + field);
    OneBlock(st.digest, block);
  }

  lemma TwoLastBlocks(st: Stream, field: Bytes)
    requires 55 < |st.rest| < 64 && field == BigEndianBytes(8 * st.length % TWO64, 8)
    ensures var first := st.rest + [0x80] + Zeros(63 - |st.rest|);
      Compress(Compress(st.digest, first), Zeros(56) + field) == Finalize(st)
  {
    hide Compress, BigEndianBytes, FoldBlocks;
    var r := |st.rest|;
    var first, second := st.rest + [0x80] + Zeros(63 - r), Zeros(56) + field;
    assert (55 - r) % 64 == 119 - r;
    assert Zeros(63 - r) + Zeros(56) == Zeros(119 - r);
    assert first + second == st.rest + ([0x80] + Zeros(119 - r) + field);
    FoldConcat(st.digest, first, second);
    OneBlock(st.digest, first);
    OneBlock(Compress(st.digest, first), second);
  }

  lemma DigestByte(h: seq<nat>, k: nat, i: nat)
    requires |h| == 8 && (forall j :: 0 <= j < 8 ==> h[j] < B) && k < 8 && i < 4
    ensures DigestBytes(View(h))[4 * k + i] == h[k] / Pow2(24 - 8 * i) % 256
  {
    hide WordBytes, DigestBytes, Pow2;
    WordInDigest(View(h), k, i, h[k]);
    ByteOfWord(h[k], i);
  }

  lemma ByteOfWord(w: Word, i: nat)
    requires i < 4
    ensures WordBytes(w)[i] == w / Pow2(24 - 8 * i) % 256
  {
    assert Pow2(8) == 0x100;
    assert Pow2(16) == 0x1_0000;
    assert Pow2(24) == 0x100_0000;
  }

  lemma WordInDigest(v: Words, k: nat, i: nat, w: Word)
    requires k < 8 && i < 4
    requires w == [v.a, v.b, v.c, v.d, v.e, v.f, v.g, v.h][k]
    ensures DigestBytes(v)[4 * k + i] == WordBytes(w)[i]
  {
    hide WordBytes;
    if k < 4 {
      if k == 0 {} else if k == 1 {} else if k == 2 {} else {}
    } else {
      if k == 4 {} else if k == 5 {} else if k == 6 {} else {}
    }
  }

  // ---------- The length field ----------

  /** Three bits to the left, digit by digit; `carry` comes out of the digit below. */
  function ShiftDigit(digit: nat, carry: nat): nat {
    Or(digit * 8, carry) % RADIX
  }

  function CarryOf(digit: nat): nat {
    digit / 0x2000 % RADIX
  }

  lemma ShiftDigitSplits(digit: nat, carry: nat)
    requires digit < RADIX && carry < 8
    ensures digit * 8 + carry == ShiftDigit(digit, carry) + CarryOf(digit) * RADIX
    ensures CarryOf(digit) < 8
  {
    assert Pow2(3) == 8;
    hide Or, Pow2;
    OrDisjoint(digit, carry, 3);
    var high, low := digit / 0x2000, digit % 0x2000;
    assert digit * 8 + carry == high * RADIX + (low * 8 + carry);
    DivModUnique(digit * 8 + carry, RADIX, high, low * 8 + carry);
  }

  function CarryInto(d: seq<nat>, j: nat): nat
    requires j < |d|
  {
    if j == 0 then 0 else CarryOf(d[j - 1])
  }

  /** All four digits of the bit length. */
  function BitLength(d: seq<nat>): (b: seq<nat>)
    requires |d| == 4
    ensures IsDigits(b)
    ensures forall j :: 0 <= j < 4 ==> b[j] == ShiftDigit(d[j], CarryInto(d, j))
  {
    [ShiftDigit(d[0], 0), ShiftDigit(d[1], CarryOf(d[0])),
     ShiftDigit(d[2], CarryOf(d[1])), ShiftDigit(d[3], CarryOf(d[2]))]
  }

  lemma BitLengthIsTimesEight(d: seq<nat>)
    requires IsDigits(d)
    ensures LengthOf(BitLength(d)) == 8 * LengthOf(d) % TWO64
  {
    hide ShiftDigit, CarryOf;
    ShiftDigitSplits(d[0], 0);
    ShiftDigitSplits(d[1], CarryOf(d[0]));
    ShiftDigitSplits(d[2], CarryOf(d[1]));
    ShiftDigitSplits(d[3], CarryOf(d[2]));
    DigitsBelowTwo64(BitLength(d));
    DivModUnique(8 * LengthOf(d), TWO64, CarryOf(d[3]), LengthOf(BitLength(d)));
  }

  function DigitBytes(b: nat): (s: Bytes)
    requires b < RADIX
    ensures |s| == 2
  {
    [b / 256, b % 256]
  }

  lemma TwoBytes(n: nat, b: nat, k: nat)
    requires b < RADIX
    ensures BigEndianBytes(n * RADIX + b, k + 2) == BigEndianBytes(n, k) + DigitBytes(b)
  {
    var x := n * RADIX + b;
    assert x / 256 == n * 256 + b / 256 && x % 256 == b % 256;
    assert x / 256 / 256 == n && x / 256 % 256 == b / 256;
    assert BigEndianBytes(x, k + 2) == BigEndianBytes(x / 256, k + 1) + [x % 256];
    assert BigEndianBytes(x / 256, k + 1) == BigEndianBytes(n, k) + [b / 256];
  }

  lemma DigitsToBytes(b: seq<nat>)
    requires IsDigits(b)
    ensures DigitBytes(b[3]) + DigitBytes(b[2]) + DigitBytes(b[1]) + DigitBytes(b[0]) == BigEndianBytes(LengthOf(b), 8)
  {
    hide DigitBytes;
    var n1 := b[3] * RADIX + b[2];
    var n2 := n1 * RADIX + b[1];
    assert LengthOf(b) == n2 * RADIX + b[0];
    TwoBytes(0, b[3], 0);
    TwoBytes(b[3], b[2], 2);
    TwoBytes(n1, b[1], 4);
    TwoBytes(n2, b[0], 6);
  }

  /** Putting x in the lowest digit's place and carrying. */
  lemma AddFirst(d: seq<nat>, x: nat, i: nat, carry: nat)
    requires IsDigits(d) && i == 0 && carry == 0
    ensures IsDigits(Carry(d[0 := x], i, carry))
    ensures LengthOf(Carry(d[0 := x], i, carry)) == (LengthOf(d) - d[0] + x) % TWO64
  {
    var d' := d[0 := x];
    assert LengthOf(d') == LengthOf(d) - d[0] + x;
    hide LengthOf;
    CarryIsDigits(d', i, carry);
    CarryAdds(d', i, carry);
  }

  lemma LowestDigit(d: seq<nat>)
    requires IsDigits(d)
    ensures LengthOf(d) % RADIX == d[0]
  {
    DivModUnique(LengthOf(d), RADIX, d[1] + d[2] * 0x1_0000 + d[3] * 0x1_0000_0000, d[0]);
  }

  /** The lowest digit after the addition in one word_t, and the length after the carries. */
  lemma AddWrapping(d: seq<nat>, n: nat, m: nat, i: nat, carry: nat)
    requires IsDigits(d) && m > 0 && i == 0 && carry == 0
    ensures
      var x := (d[0] + n) % m;
      IsDigits(Carry(d[0 := x], i, carry)) && LengthOf(Carry(d[0 := x], i, carry)) == Counted(m, LengthOf(d), n)
  {
    hide LengthOf, Carry;
    var x := (d[0] + n) % m;
    DivMod(d[0] + n, m);
    LowestDigit(d);
    AddFirst(d, x, i, carry);
    assert Lost(m, LengthOf(d), n) == d[0] + n - x;
  }

  /** No carry wraps around. */
  lemma CarryFits(digit: nat, carry: nat, m: nat)
    requires Modulus(m) && digit < RADIX && carry <= m / RADIX
    ensures (digit + carry) % m == digit + carry && (digit + carry) / RADIX <= m / RADIX
  {
    ModulusIsLarge(m);
    DivMod(m, RADIX);
    DivModUnique(digit + carry, m, 0, digit + carry);
    DivMod(digit + carry, RADIX);
  }

  lemma DigitPlusCarry(digit: nat, carry: nat, i: nat, m: nat)
    requires Modulus(m)
    requires if i == 0 then carry == 0 && digit < m else carry <= m / RADIX && digit < RADIX
    ensures (digit + carry) % m == digit + carry && (digit + carry) / RADIX <= m / RADIX
  {
    if i == 0 {
      DivModUnique(digit, m, 0, digit);
      DivMod(digit, RADIX);
      DivMod(m, RADIX);
    } else {
      CarryFits(digit, carry, m);
    }
  }

  lemma ModulusIsLarge(m: nat)
    requires Modulus(m)
    ensures m >= B
  {
    var q := m / B;
    DivMod(m, B);
    if q <= 0 {
      MulMonotone(q, 0, B);
      assert false;
    }
    MulMonotone(1, q, B);
  }

  class Hasher {
    /** The modulus of `unsigned long`. */
    const m: nat
    var buffer: Bytes
    const dataLengthDigits: array<nat>
    const h: array<nat>

    ghost predicate Intact()
      reads this, dataLengthDigits, h
    {
      && Modulus(m) && dataLengthDigits != h
      && IsDigits(dataLengthDigits[..])
      && h.Length == 8 && (forall i :: 0 <= i < 8 ==> h[i] < B)
    }

    /** Between calls the buffer holds less than a block. */
    ghost predicate Valid()
      reads this, dataLengthDigits, h
    {
      Intact() && |buffer| < 64
    }

    /** The state of the stream the object stands for. */
    ghost function AsStream(): (st: Stream)
      requires Valid()
      reads this, dataLengthDigits, h
    {
      Stream(View(h[..]), buffer, LengthOf(dataLengthDigits[..]))
    }

    constructor (modulus: nat)
      requires Modulus(modulus)
      ensures Valid() && AsStream() == START && m == modulus
      ensures fresh(h) && fresh(dataLengthDigits)
    {
      m := modulus;
      buffer := [];
      dataLengthDigits := new nat[4](_ => 0);
      h := new nat[] [INITIAL.a, INITIAL.b, INITIAL.c, INITIAL.d, INITIAL.e, INITIAL.f, INITIAL.g, INITIAL.h];
    }

    /** `add_to_data_length`: the lowest digit wraps around at m, the counter at 2^64. */
    method AddToDataLength(n: nat)
      requires Valid()
      modifies dataLengthDigits
      ensures IsDigits(dataLengthDigits[..])
      ensures LengthOf(dataLengthDigits[..]) == Counted(m, old(LengthOf(dataLengthDigits[..])), n)
    {
      hide LengthOf, Place, Modulus, Carry, Counted;
      ghost var d := dataLengthDigits[..];
      assert m > 0 by {
        ModulusIsLarge(m);
      }
      var carry: nat := 0;
      AddWrapping(d, n, m, 0, carry);
      dataLengthDigits[0] := (dataLengthDigits[0] + n) % m;
      ghost var d0 := dataLengthDigits[..];
      assert d0 == d[0 := (d[0] + n) % m];
      var i: nat := 0;
      ghost var sum := Carry(d0, i, carry);
      while i < 4
        invariant i <= 4 && Carry(dataLengthDigits[..], i, carry) == sum
        invariant i == 0 ==> carry == 0 && dataLengthDigits[0] < m
        invariant i > 0 ==> carry <= m / RADIX
        invariant forall j :: i <= j < 4 && j > 0 ==> dataLengthDigits[j] < RADIX
        decreases 4 - i
      {
        ghost var before := dataLengthDigits[..];
        CarryStep(before, i, carry);
        DigitPlusCarry(before[i], carry, i, m);
        dataLengthDigits[i] := (dataLengthDigits[i] + carry) % m;
        assert dataLengthDigits[..] == before[i := before[i] + carry];
        if dataLengthDigits[i] >= RADIX {
          carry := dataLengthDigits[i] / RADIX;
          dataLengthDigits[i] := dataLengthDigits[i] % RADIX;
          assert dataLengthDigits[..] == before[i := dataLengthDigits[i]];
        } else {
          return;
        }
        i := i + 1;
      }
      CarryStep(dataLengthDigits[..], i, carry);
    }

    /** The digits of the length in bits. */
    method BitLengthDigits() returns (bits: array<nat>)
      requires Valid()
      ensures fresh(bits) && bits[..] == BitLength(dataLengthDigits[..])
    {
      hide ShiftDigit, CarryOf, Modulus;
      ghost var d := dataLengthDigits[..];
      bits := new nat[4];
      forall i | 0 <= i < 4 {
        bits[i] := dataLengthDigits[i];
      }
      var carry: nat := 0;
      for i := 0 to 4
        invariant i < 4 ==> carry == CarryInto(d, i)
        invariant forall j :: 0 <= j < i ==> bits[j] == ShiftDigit(d[j], CarryInto(d, j))
        invariant forall j :: i <= j < 4 ==> bits[j] == d[j]
      {
        var before := bits[i];
        bits[i] := ShiftDigit(before, carry);
        carry := CarryOf(before);
      }
      assert forall j :: 0 <= j < 4 ==> bits[j] == BitLength(d)[j];
    }

    /** `write_data_bit_length`: the length in bits, in the last eight bytes of the block. */
    method WriteDataBitLength(temp: array<byte>)
      requires Valid() && temp.Length == 64
      modifies temp
      ensures temp[..56] == old(temp[..56])
      ensures temp[56..] == BigEndianBytes(8 * LengthOf(dataLengthDigits[..]) % TWO64, 8)
    {
      hide LengthOf, BigEndianBytes, Modulus, BitLength;
      ghost var d := dataLengthDigits[..];
      var bits := BitLengthDigits();
      ghost var b := bits[..];
      BitLengthIsTimesEight(d);
      DigitsToBytes(b);
      var begin := 56;
      var i := 3;
      while i >= 0
        invariant -1 <= i <= 3 && begin == 62 - 2 * i
        invariant temp[..56] == old(temp[..56]) && bits[..] == b
        invariant forall j :: i < j < 4 ==> temp[62 - 2 * j] == b[j] / 256 && temp[63 - 2 * j] == b[j] % 256
        decreases i
      {
        temp[begin] := bits[i] / 256;
        temp[begin + 1] := bits[i] % 256;
        begin := begin + 2;
        i := i - 1;
      }
      assert temp[56..] == DigitBytes(b[3]) + DigitBytes(b[2]) + DigitBytes(b[1]) + DigitBytes(b[0]);
    }

    /** The loop of `process` over the complete blocks of s. */
    method HashBlocks(s: Bytes) returns (i: nat)
      requires Intact()
      modifies h
      ensures i == Full(|s|)
      ensures (forall j :: 0 <= j < 8 ==> h[j] < B) && View(h[..]) == FoldBlocks(old(View(h[..])), s[..i])
    {
      hide Modulus, IsDigits, FoldBlocks, Compress;
      ghost var digest0 := View(h[..]);
      i := 0;
      EmptyFold(digest0);
      while i + 64 <= |s|
        invariant 0 <= i <= |s| && i % 64 == 0
        invariant (forall j :: 0 <= j < 8 ==> h[j] < B) && View(h[..]) == FoldBlocks(digest0, s[..i])
      {
        FoldOneMore(digest0, s, i);
        HashBlock(h, s[i..i + 64], m);
        i := i + 64;
      }
    }

    /** `process`: absorb the bytes; only complete blocks reach the digest. */
    method Process(data: Bytes)
      requires Valid()
      modifies this`buffer, dataLengthDigits, h
      ensures Valid() && AsStream() == AbsorbCounting(m, old(AsStream()), data)
    {
      hide LengthOf, IsDigits, Modulus, FoldBlocks, View, Full, Counted;
      ghost var digest0 := View(h[..]);
      AddToDataLength(|data|);
      assert View(h[..]) == digest0;
      buffer := buffer + data;
      var i := HashBlocks(buffer);
      buffer := buffer[i..];
    }

    /** `finish`: pad, append the length, and hash the one or two last blocks. */
    method Finish()
      requires Valid()
      modifies h
      ensures Valid() && View(h[..]) == Finalize(old(AsStream()))
    {
      hide LengthOf, Modulus, FoldBlocks, View, BigEndianBytes, Compress, Padding;
      ghost var st := AsStream();
      ghost var field := BigEndianBytes(8 * st.length % TWO64, 8);
      ghost var digits := dataLengthDigits[..];
      assert st.length == LengthOf(digits);
      var remains := |buffer|;
      var temp := new byte[64](_ => 0);
      forall i | 0 <= i < remains {
        temp[i] := buffer[i];
      }
      temp[remains] := 0x80;
      assert temp[..] == buffer + [0x80] + Zeros(63 - remains);
      if remains > 55 {
        assert h[..] == old(h[..]);
        HashBlock(h, temp[..], m);
        ghost var mid := h[..];
        forall i | 0 <= i < 60 {
          temp[i] := 0;
        }
        assert temp[..56] == Zeros(56);
        assert dataLengthDigits[..] == digits;
        WriteDataBitLength(temp);
        assert temp[..] == temp[..56] + temp[56..];
        assert temp[..] == Zeros(56) + field && h[..] == mid;
        HashBlock(h, temp[..], m);
        TwoLastBlocks(st, field);
      } else {
        assert temp[..56] == buffer + [0x80] + Zeros(55 - remains);
        assert dataLengthDigits[..] == digits;
        WriteDataBitLength(temp);
        assert temp[..] == temp[..56] + temp[56..];
        assert temp[..] == buffer + [0x80] + Zeros(55 - remains) + field && h[..] == old(h[..]);
        HashBlock(h, temp[..], m);
        OneLastBlock(st, field);
      }
    }

    /** `get_hash_bytes`: up to n bytes of the digest, most significant first. */
    method GetHashBytes(n: nat) returns (bytes: Bytes)
      requires Valid()
      ensures bytes == DigestBytes(View(h[..]))[..if n < 32 then n else 32]
    {
      hide Modulus, IsDigits, DigestBytes, View;
      bytes := [];
      ghost var all := DigestBytes(View(h[..]));
      for k := 0 to 8
        invariant bytes == all[..if n < 4 * k then n else 4 * k]
      {
        for i := 0 to 4
          invariant bytes == all[..if n < 4 * k + i then n else 4 * k + i]
        {
          if |bytes| != n {
            DigestByte(h[..], k, i);
            bytes := bytes + [h[k] / Pow2(24 - 8 * i) % 256];
          }
        }
      }
    }
  }

  // ---------- hash256_impl ----------

  /** For random-access input: the whole message in one piece, whose length wraps around at m. */
  method HashRandomAccess(message: Bytes, digestSize: nat, m: nat) returns (digest: Bytes)
    requires Modulus(m)
    ensures digest == DigestBytes(HashCounted(message, |message| % m))[..if digestSize < 32 then digestSize else 32]
    ensures |message| < m ==> digest == DigestBytes(Sha256(message))[..if digestSize < 32 then digestSize else 32]
  {
    hide DigestBytes, FoldBlocks, Finalize, Modulus, Counted, Absorb, Padding;
    ModulusIsLarge(m);
    var hasher := new Hasher(m);
    hasher.Process(message);
    CountedAtOnce(m, |message|);
    FinalizeWithLength(message, |message| % m % TWO64);
    DivMod(|message|, m);
    PaddingModulo(|message|, |message| % m);
    if |message| < m {
      DivModUnique(|message|, m, 0, |message|);
    }
    hasher.Finish();
    digest := hasher.GetHashBytes(digestSize);
  }

  /** For single-pass input: through a buffer of any positive `int` size. */
  method HashSinglePass(message: Bytes, digestSize: nat, bufferSize: nat, m: nat) returns (digest: Bytes)
    requires Modulus(m) && 0 < bufferSize <= MAX_INT
    ensures digest == DigestBytes(Sha256(message))[..if digestSize < 32 then digestSize else 32]
  {
    hide DigestBytes, FoldBlocks, Sha256, Finalize, Modulus, Absorb, Counted;
    ModulusIsLarge(m);
    var buffer := new byte[bufferSize](_ => 0);
    var hasher := new Hasher(m);
    var first := 0;
    AbsorbNothing();
    while first != |message|
      invariant 0 <= first <= |message| && fresh(hasher) && fresh(hasher.h) && fresh(hasher.dataLengthDigits)
      invariant hasher.m == m && hasher.Valid() && hasher.AsStream() == Absorb(START, message[..first])
      decreases |message| - first
    {
      var size := bufferSize;
      ghost var start := first;
      var i := 0;
      while i != bufferSize
        invariant 0 <= i <= bufferSize && size == bufferSize && first == start + i <= |message|
        invariant buffer[..i] == message[start..first]
        invariant hasher.m == m && hasher.Valid() && hasher.AsStream() == Absorb(START, message[..start])
        decreases bufferSize - i
      {
        if first == |message| {
          size := i;
          break;
        }
        buffer[i] := message[first];
        i := i + 1;
        first := first + 1;
      }
      assert buffer[..size] == message[start..first];
      AbsorbConcat(START, message[..start], message[start..first]);
      assert message[..start] + message[start..first] == message[..first];
      AbsorbsAsItShould(m, Absorb(START, message[..start]), message[start..first]);
      hasher.Process(buffer[..size]);
    }
    assert message[..first] == message;
    FinalizeOfAbsorb(message);
    hasher.Finish();
    digest := hasher.GetHashBytes(digestSize);
  }

  /** A buffer of `int` size always fits. */
  lemma AbsorbsAsItShould(m: nat, st: Stream, data: Bytes)
    requires Modulus(m) && |data| <= MAX_INT
    ensures m > 0 && AbsorbCounting(m, st, data) == Absorb(st, data)
  {
    hide FoldBlocks, Full, Counted, Modulus;
    ModulusIsLarge(m);
    CountIsExactBelow(m, st.length, |data|);
  }

  lemma AbsorbNothing()
    ensures Absorb(START, []) == START
  {
    EmptyFold(INITIAL);
  }
}
