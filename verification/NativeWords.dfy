/**
  * 32-bit machine words, and the numbers they stand for: the bitwise operations and wrapping addition of one are
  * those of the other.
  */
module NativeWords {
  import opened Arithmetic
  import opened Bits
  import opened Sha256Block

  function Half(x: bv32): bv32 { x >> 1 }

  function Bit(x: bv32): nat {
    if x & 1 == 1 then 1 else 0
  }

  /** The number that x stands for, bit by bit. */
  function Val(x: bv32): nat
    decreases x
  {
    if x == 0 then 0 else
      assert x >> 1 < x;
      Bit(x) + 2 * Val(Half(x))
  }

  lemma BitAtMostOne(x: bv32)
    ensures Bit(x) <= 1 && Bit(0) == 0 && Half(0) == 0
  {
  }

  lemma EvenAndOdd(v: nat, b: nat, h: nat)
    requires v == b + 2 * h && b <= 1
    ensures v % 2 == b && v / 2 == h
  {
  }

  lemma ValStep(x: bv32)
    ensures Val(x) == Bit(x) + 2 * Val(Half(x)) && Bit(x) <= 1
    ensures Val(x) % 2 == Bit(x) && Val(x) / 2 == Val(Half(x))
  {
    hide Bit, Half;
    BitAtMostOne(x);
    EvenAndOdd(Val(x), Bit(x), Val(Half(x)));
  }

  lemma {:induction false} ValZero(x: bv32)
    ensures Val(x) == 0 <==> x == 0
    decreases x
  {
    if x != 0 {
      assert x >> 1 < x;
      ValZero(x >> 1);
      assert x >> 1 == 0 ==> x == 1;
    }
  }

  // ---------- Bit by bit ----------

  lemma LastBit(x: bv32)
    ensures x & 1 == 0 || x & 1 == 1
  {
  }

  function XorOf(x: bv32, y: bv32): bv32 { x ^ y }

  function AndOf(x: bv32, y: bv32): bv32 { x & y }

  function OrOf(x: bv32, y: bv32): bv32 { x | y }

  lemma BitsOfXor(x: bv32, y: bv32)
    ensures Half(XorOf(x, y)) == XorOf(Half(x), Half(y)) && XorOf(0, 0) == 0
    ensures Bit(XorOf(x, y)) == (Bit(x) + Bit(y)) % 2
  {
    assert (x ^ y) & 1 == (x & 1) ^ (y & 1);
    LastBit(x);
    LastBit(y);
  }

  lemma BitsOfAnd(x: bv32, y: bv32)
    ensures Half(AndOf(x, y)) == AndOf(Half(x), Half(y)) && AndOf(0, 0) == 0
    ensures Bit(AndOf(x, y)) == Bit(x) * Bit(y)
  {
    assert (x & y) & 1 == (x & 1) & (y & 1);
    LastBit(x);
    LastBit(y);
  }

  lemma BitsOfOr(x: bv32, y: bv32)
    ensures Half(OrOf(x, y)) == OrOf(Half(x), Half(y)) && OrOf(0, 0) == 0
    ensures Bit(OrOf(x, y)) == if Bit(x) == 1 || Bit(y) == 1 then 1 else 0
  {
    assert (x | y) & 1 == (x & 1) | (y & 1);
    LastBit(x);
    LastBit(y);
  }

  lemma XorStep(x: nat, y: nat)
    ensures Xor(x, y) == (x + y) % 2 + 2 * Xor(x / 2, y / 2)
  {
    assert Xor(0, 0) == 0;
  }

  lemma Parities(x: nat, y: nat)
    ensures (x + y) % 2 == (x % 2 + y % 2) % 2
  {
  }

  lemma {:induction false} ValXor(x: bv32, y: bv32)
    ensures Val(XorOf(x, y)) == Xor(Val(x), Val(y))
    decreases Val(x) + Val(y)
  {
    hide Val, Bit, Half, XorOf, Xor;
    ValZero(x);
    ValZero(y);
    BitsOfXor(x, y);
    XorStep(Val(x), Val(y));
    ValStep(x);
    ValStep(y);
    ValStep(XorOf(x, y));
    Parities(Val(x), Val(y));
    if Val(x) > 0 || Val(y) > 0 {
      ValXor(Half(x), Half(y));
    } else {
      NothingSet();
    }
  }

  lemma NothingSet()
    ensures Xor(0, 0) == 0 && And(0, 0) == 0 && Or(0, 0) == 0 && Val(0) == 0
  {
  }

  lemma {:induction false} ValAnd(x: bv32, y: bv32)
    ensures Val(AndOf(x, y)) == And(Val(x), Val(y))
    decreases Val(x) + Val(y)
  {
    hide Val, Bit, Half, AndOf, And;
    ValZero(x);
    ValZero(y);
    BitsOfAnd(x, y);
    AndStep(Val(x), Val(y));
    ValStep(x);
    ValStep(y);
    ValStep(AndOf(x, y));
    if Val(x) > 0 || Val(y) > 0 {
      ValAnd(Half(x), Half(y));
    } else {
      NothingSet();
    }
  }

  lemma {:induction false} ValOr(x: bv32, y: bv32)
    ensures Val(OrOf(x, y)) == Or(Val(x), Val(y))
    decreases Val(x) + Val(y)
  {
    hide Val, Bit, Half, OrOf, Or;
    ValZero(x);
    ValZero(y);
    BitsOfOr(x, y);
    OrStep(Val(x), Val(y));
    ValStep(x);
    ValStep(y);
    ValStep(OrOf(x, y));
    if Val(x) > 0 || Val(y) > 0 {
      ValOr(Half(x), Half(y));
    } else {
      NothingSet();
    }
  }

  // ---------- Written out ----------

  /** The lowest hexadecimal digit. */
  function Nibble(x: bv32): nat {
    Bit(x) + 2 * Bit(x >> 1) + 4 * Bit(x >> 2) + 8 * Bit(x >> 3)
  }

  lemma Halves4(x: bv32)
    ensures Half(x) == x >> 1 && Half(x >> 1) == x >> 2 && Half(x >> 2) == x >> 3 && Half(x >> 3) == x >> 4
  {
  }

  lemma FourSteps(x: bv32, x1: bv32, x2: bv32, x3: bv32, x4: bv32)
    requires Half(x) == x1 && Half(x1) == x2 && Half(x2) == x3 && Half(x3) == x4
    ensures Val(x) == Bit(x) + 2 * Bit(x1) + 4 * Bit(x2) + 8 * Bit(x3) + 16 * Val(x4)
  {
    hide Val, Bit, Half;
    ValStep(x);
    ValStep(x1);
    ValStep(x2);
    ValStep(x3);
  }

  lemma ValNibble(x: bv32)
    ensures Val(x) == Nibble(x) + 16 * Val(Next(x))
  {
    hide Val, Bit;
    Halves4(x);
    FourSteps(x, x >> 1, x >> 2, x >> 3, x >> 4);
  }

  function Next(x: bv32): bv32 { x >> 4 }

  lemma NibbleIs(x: bv32)
    ensures Nibble(x) == (x & 15) as int
  {
  }

  /** The number that eight hexadecimal digits stand for. */
  function Number(x: bv32): int {
    (x & 15) as int + 0x10 * ((x >> 4) & 15) as int + 0x100 * ((x >> 8) & 15) as int
    + 0x1000 * ((x >> 12) & 15) as int + 0x1_0000 * ((x >> 16) & 15) as int + 0x10_0000 * ((x >> 20) & 15) as int
    + 0x100_0000 * ((x >> 24) & 15) as int + 0x1000_0000 * ((x >> 28) & 15) as int
  }

  lemma Nexts(x: bv32)
    ensures Next(x) == x >> 4 && Next(x >> 4) == x >> 8 && Next(x >> 8) == x >> 12 && Next(x >> 12) == x >> 16
    ensures Next(x >> 16) == x >> 20 && Next(x >> 20) == x >> 24 && Next(x >> 24) == x >> 28
    ensures Next(x >> 28) == 0
  {
  }

  lemma Chain(x0: bv32, x1: bv32, x2: bv32, x3: bv32, x4: bv32, x5: bv32, x6: bv32, x7: bv32)
    requires x1 == Next(x0) && x2 == Next(x1) && x3 == Next(x2) && x4 == Next(x3)
    requires x5 == Next(x4) && x6 == Next(x5) && x7 == Next(x6) && Next(x7) == 0
    ensures Val(x0) == Nibble(x0) + 0x10 * Nibble(x1) + 0x100 * Nibble(x2) + 0x1000 * Nibble(x3)
                       + 0x1_0000 * Nibble(x4) + 0x10_0000 * Nibble(x5)
                       + 0x100_0000 * Nibble(x6) + 0x1000_0000 * Nibble(x7)
  {
    hide Val, Nibble, Next;
    ValNibble(x0);
    ValNibble(x1);
    ValNibble(x2);
    ValNibble(x3);
    ValNibble(x4);
    ValNibble(x5);
    ValNibble(x6);
    ValNibble(x7);
    NothingSet();
  }

  lemma ValIs(x: bv32)
    ensures Val(x) == Number(x)
  {
    Nexts(x);
    hide Val, Nibble, Next;
    Chain(x, x >> 4, x >> 8, x >> 12, x >> 16, x >> 20, x >> 24, x >> 28);
    NibbleIs(x);
    NibbleIs(x >> 4);
    NibbleIs(x >> 8);
    NibbleIs(x >> 12);
    NibbleIs(x >> 16);
    NibbleIs(x >> 20);
    NibbleIs(x >> 24);
    NibbleIs(x >> 28);
  }

  // ---------- The low bits ----------

  /** The bits below some bit. */
  predicate Mask(m: bv32) {
    m & (m + 1) == 0
  }

  lemma MaskHalf(m: bv32)
    requires Mask(m) && m != 0
    ensures Mask(Half(m)) && Bit(m) == 1
  {
  }

  lemma AndNone(s: bv32)
    ensures AndOf(s, 0) == 0
  {
  }

  lemma {:induction false} ValMask(s: bv32, m: bv32)
    requires Mask(m)
    ensures Val(AndOf(s, m)) == Val(s) % (Val(m) + 1)
    decreases Val(m)
  {
    hide Val, Bit, Half, AndOf, Mask;
    NothingSet();
    if m == 0 {
      AndNone(s);
    } else {
      MaskHalf(m);
      BitsOfAnd(s, m);
      ValStep(s);
      ValStep(m);
      ValStep(AndOf(s, m));
      ValMask(Half(s), Half(m));
      Halves(Val(s), Val(Half(m)) + 1);
      assert Val(AndOf(s, m)) == Bit(s) * 1 + 2 * Val(AndOf(Half(s), Half(m)));
    }
  }

  lemma ValBound(x: bv32)
    ensures Val(x) < B
  {
    hide Val;
    ValIs(0xffff_ffff);
    ValMask(x, 0xffff_ffff);
    assert AndOf(x, 0xffff_ffff) == x;
  }

  // ---------- Addition ----------

  function PlusOf(x: bv32, y: bv32): bv32 { x + y }

  function SumOf(x: bv32, y: bv32, c: bv32): bv32 { PlusOf(PlusOf(x, y), c) }

  function BitWord(x: bv32): bv32 { x & 1 }

  /** 2 * t + p */
  function Twice(t: bv32, p: bv32): bv32 { PlusOf(PlusOf(t, t), p) }

  function Carry(x: bv32, y: bv32, c: bv32): bv32 { ((x & y) | (x & c) | (y & c)) & 1 }

  predicate Small(x: bv32) { x <= 0x7fff_ffff }

  lemma TwiceAndBit(t: bv32, p: bv32)
    requires p <= 1
    ensures Half(Twice(t, p)) == AndOf(t, 0x7fff_ffff)
  {
  }

  lemma HalfAndBit(x: bv32)
    ensures x == Twice(Half(x), BitWord(x))
  {
  }

  function Parity(x: bv32, y: bv32, c: bv32): (p: bv32)
    ensures p <= 1
  {
    (x ^ y ^ c) & 1
  }

  /** A full adder. */
  lemma LastBits(x: bv32, y: bv32, c: bv32)
    requires c <= 1
    ensures SumOf(BitWord(x), BitWord(y), c) == Twice(Carry(x, y, c), Parity(x, y, c))
  {
  }

  lemma PlusCommutes(x: bv32, y: bv32)
    ensures PlusOf(x, y) == PlusOf(y, x)
  {
  }

  lemma WordsAssociate(x: bv32, y: bv32, z: bv32)
    ensures (x + y) + z == x + (y + z)
  {
  }

  lemma PlusAssociates(x: bv32, y: bv32, z: bv32)
    ensures PlusOf(PlusOf(x, y), z) == PlusOf(x, PlusOf(y, z))
  {
    WordsAssociate(x, y, z);
    assert PlusOf(x, y) == x + y && PlusOf(y, z) == y + z;
    assert PlusOf(x + y, z) == (x + y) + z && PlusOf(x, y + z) == x + (y + z);
  }

  lemma Interchange(a: bv32, b: bv32, c: bv32, d: bv32)
    ensures PlusOf(PlusOf(a, b), PlusOf(c, d)) == PlusOf(PlusOf(a, c), PlusOf(b, d))
  {
    hide PlusOf;
    PlusAssociates(a, b, PlusOf(c, d));
    PlusAssociates(b, c, d);
    PlusCommutes(b, c);
    PlusAssociates(c, b, d);
    PlusAssociates(a, c, PlusOf(b, d));
  }

  lemma Regroup(a: bv32, b: bv32, p: bv32, q: bv32, c: bv32, k: bv32, r: bv32)
    requires SumOf(p, q, c) == Twice(k, r)
    ensures SumOf(Twice(a, p), Twice(b, q), c) == Twice(SumOf(a, b, k), r)
  {
    hide PlusOf;
    var a2, b2, k2 := PlusOf(a, a), PlusOf(b, b), PlusOf(k, k);
    Interchange(a2, p, b2, q);
    PlusAssociates(PlusOf(a2, b2), PlusOf(p, q), c);
    PlusAssociates(PlusOf(a2, b2), k2, r);
    Interchange(a, a, b, b);
    Interchange(PlusOf(a, b), PlusOf(a, b), k, k);
  }

  /** The half of a sum has lost what was carried out of the word. */
  lemma HalfOfSum(x: bv32, y: bv32, c: bv32)
    requires c <= 1
    ensures Half(SumOf(x, y, c)) == AndOf(SumOf(Half(x), Half(y), Carry(x, y, c)), 0x7fff_ffff)
  {
    hide SumOf, Carry, Half, Twice, BitWord, Parity, AndOf;
    HalfAndBit(x);
    HalfAndBit(y);
    LastBits(x, y, c);
    Regroup(Half(x), Half(y), BitWord(x), BitWord(y), c, Carry(x, y, c), Parity(x, y, c));
    TwiceAndBit(SumOf(Half(x), Half(y), Carry(x, y, c)), Parity(x, y, c));
  }

  lemma BitsOfSum(x: bv32, y: bv32, c: bv32)
    requires Small(x) && Small(y) && c <= 1
    ensures Half(SumOf(x, y, c)) == SumOf(Half(x), Half(y), Carry(x, y, c))
  {
    HalfOfSum(x, y, c);
    CarryIsSmall(x, y, c);
    SmallHalves(Half(x), Half(y), Carry(x, y, c), x, y);
  }

  lemma SmallHalves(a: bv32, b: bv32, c: bv32, x: bv32, y: bv32)
    requires Small(x) && Small(y) && c <= 1 && a == Half(x) && b == Half(y)
    ensures AndOf(SumOf(a, b, c), 0x7fff_ffff) == SumOf(a, b, c)
  {
    assert a <= 0x3fff_ffff && b <= 0x3fff_ffff;
    assert a + b <= 0x7fff_fffe;
  }

  lemma LastBitOfSum(x: bv32, y: bv32, c: bv32)
    requires c <= 1
    ensures Bit(SumOf(x, y, c)) == (Bit(x) + Bit(y) + Bit(c)) % 2
    ensures Bit(Carry(x, y, c)) == (Bit(x) + Bit(y) + Bit(c)) / 2
  {
    LastBit(x);
    LastBit(y);
    assert (x + y + c) & 1 == (x & 1) ^ (y & 1) ^ (c & 1);
  }

  lemma CarryIsSmall(x: bv32, y: bv32, c: bv32)
    ensures Carry(x, y, c) <= 1 && Small(Half(x)) && Small(Half(y))
  {
  }

  lemma ValOfBit(c: bv32)
    requires c <= 1
    ensures Val(c) == Bit(c) && SumOf(0, 0, c) == c
  {
    hide Val;
    ValStep(c);
    assert Half(c) == 0;
    NothingSet();
  }

  lemma {:induction false} ValSmallSum(x: bv32, y: bv32, c: bv32)
    requires Small(x) && Small(y) && c <= 1
    ensures Val(SumOf(x, y, c)) == Val(x) + Val(y) + Bit(c)
    decreases Val(x) + Val(y)
  {
    hide Val, Bit, Half, SumOf, Carry, Small;
    ValZero(x);
    ValZero(y);
    if Val(x) == 0 && Val(y) == 0 {
      ValOfBit(c);
    } else {
      BitsOfSum(x, y, c);
      LastBitOfSum(x, y, c);
      CarryIsSmall(x, y, c);
      ValStep(x);
      ValStep(y);
      ValStep(SumOf(x, y, c));
      ValSmallSum(Half(x), Half(y), Carry(x, y, c));
    }
  }

  lemma PlusIsSum(x: bv32, y: bv32)
    ensures PlusOf(x, y) == SumOf(x, y, 0) && Bit(0) == 0
  {
  }

  lemma ValPlus(x: bv32, y: bv32)
    ensures Val(PlusOf(x, y)) == (Val(x) + Val(y)) % B
  {
    hide Val, Bit, Half, SumOf, Carry, Small, PlusOf, AndOf;
    var s := SumOf(Half(x), Half(y), Carry(x, y, 0));
    PlusIsSum(x, y);
    HalfOfSum(x, y, 0);
    LastBitOfSum(x, y, 0);
    CarryIsSmall(x, y, 0);
    ValSmallSum(Half(x), Half(y), Carry(x, y, 0));
    LowOnes();
    ValMask(s, 0x7fff_ffff);
    ValStep(x);
    ValStep(y);
    ValStep(PlusOf(x, y));
    Halves(Val(x) + Val(y), 0x8000_0000);
  }

  lemma LowOnes()
    ensures Mask(0x7fff_ffff) && Val(0x7fff_ffff) == 0x7fff_ffff
  {
    hide Val;
    ValIs(0x7fff_ffff);
  }

  // ---------- Shifts and rotations ----------

  function Double(x: bv32): bv32 { x << 1 }

  function Shr(x: bv32, n: nat): bv32 {
    if n == 0 then x else Half(Shr(x, n - 1))
  }

  function Shl(x: bv32, n: nat): bv32 {
    if n == 0 then x else Double(Shl(x, n - 1))
  }

  lemma {:induction false} ValShr(x: bv32, n: nat)
    ensures Val(Shr(x, n)) == Val(x) / Pow2(n)
    decreases n
  {
    hide Val, Half;
    if n > 0 {
      ValShr(x, n - 1);
      ValStep(Shr(x, n - 1));
      DivideTwice(Val(x), Pow2(n - 1), 2);
    }
  }

  lemma DoubleIsPlus(x: bv32)
    ensures Double(x) == PlusOf(x, x)
  {
  }

  lemma {:induction false} ValShl(x: bv32, n: nat)
    ensures Val(Shl(x, n)) == Val(x) * Pow2(n) % B
    decreases n
  {
    hide Val, PlusOf, Double;
    if n == 0 {
      ValBound(x);
    } else {
      var y := Shl(x, n - 1);
      ValShl(x, n - 1);
      DoubleIsPlus(y);
      ValPlus(y, y);
      MulOfMod(Val(x) * Pow2(n - 1), 2, B);
      MulAssociative(Val(x), Pow2(n - 1), 2);
    }
  }

  lemma {:induction false} ShiftTwice(x: bv32, a: nat, b: nat)
    ensures Shr(x, a + b) == Shr(Shr(x, a), b) && Shl(x, a + b) == Shl(Shl(x, a), b)
    decreases b
  {
    hide Half, Double;
    if b > 0 {
      ShiftTwice(x, a, b - 1);
    }
  }

  function Right2(x: bv32): bv32 { x >> 2 }
  function Right4(x: bv32): bv32 { x >> 4 }
  function Right8(x: bv32): bv32 { x >> 8 }
  function Right16(x: bv32): bv32 { x >> 16 }

  function Left2(x: bv32): bv32 { x << 2 }
  function Left4(x: bv32): bv32 { x << 4 }
  function Left8(x: bv32): bv32 { x << 8 }
  function Left16(x: bv32): bv32 { x << 16 }

  lemma ComposeTwo(x: bv32)
    ensures Right2(x) == Half(Half(x)) && Left2(x) == Double(Double(x))
  {
  }

  lemma ComposeFour(x: bv32)
    ensures Right4(x) == Right2(Right2(x)) && Left4(x) == Left2(Left2(x))
  {
  }

  lemma ComposeEight(x: bv32)
    ensures Right8(x) == Right4(Right4(x)) && Left8(x) == Left4(Left4(x))
  {
  }

  lemma ComposeSixteen(x: bv32)
    ensures Right16(x) == Right8(Right8(x)) && Left16(x) == Left8(Left8(x))
  {
  }

  /** Shifts by up to 31 are put together from these. */
  /** By none, or by a power of two. */
  function RightPower(x: bv32, k: nat): bv32 {
    if k == 0 then x else if k == 1 then Half(x) else if k == 2 then Right2(x) else if k == 4 then Right4(x)
    else if k == 8 then Right8(x) else Right16(x)
  }

  function LeftPower(x: bv32, k: nat): bv32 {
    if k == 0 then x else if k == 1 then Double(x) else if k == 2 then Left2(x) else if k == 4 then Left4(x)
    else if k == 8 then Left8(x) else Left16(x)
  }

  lemma ByOne(x: bv32)
    ensures Shr(x, 1) == Half(x) && Shl(x, 1) == Double(x)
  {
    hide Half, Double;
    assert Shr(x, 0) == x && Shl(x, 0) == x;
  }

  lemma ByTwo(x: bv32)
    ensures Shr(x, 2) == Right2(x) && Shl(x, 2) == Left2(x)
  {
    hide Half, Double, Right2, Left2, Shr, Shl;
    ComposeTwo(x);
    ShiftTwice(x, 1, 1);
    ByOne(x);
    ByOne(Half(x));
    ByOne(Double(x));
  }

  lemma ByFour(x: bv32)
    ensures Shr(x, 4) == Right4(x) && Shl(x, 4) == Left4(x)
  {
    hide Right2, Left2, Right4, Left4, Shr, Shl;
    ComposeFour(x);
    ShiftTwice(x, 2, 2);
    ByTwo(x);
    ByTwo(Right2(x));
    ByTwo(Left2(x));
  }

  lemma ByEight(x: bv32)
    ensures Shr(x, 8) == Right8(x) && Shl(x, 8) == Left8(x)
  {
    hide Right4, Left4, Right8, Left8, Shr, Shl;
    ComposeEight(x);
    ShiftTwice(x, 4, 4);
    ByFour(x);
    ByFour(Right4(x));
    ByFour(Left4(x));
  }

  lemma BySixteen(x: bv32)
    ensures Shr(x, 16) == Right16(x) && Shl(x, 16) == Left16(x)
  {
    hide Right8, Left8, Right16, Left16, Shr, Shl;
    ComposeSixteen(x);
    ShiftTwice(x, 8, 8);
    ByEight(x);
    ByEight(Right8(x));
    ByEight(Left8(x));
  }

  lemma ByPower(x: bv32, k: nat)
    requires k in {0, 1, 2, 4, 8, 16}
    ensures Shr(x, k) == RightPower(x, k) && Shl(x, k) == LeftPower(x, k)
  {
    hide Half, Double, Right2, Left2, Right4, Left4, Right8, Left8, Right16, Left16;
    assert Shr(x, 0) == x && Shl(x, 0) == x;
    hide Shr, Shl;
    ByOne(x);
    ByTwo(x);
    ByFour(x);
    ByEight(x);
    BySixteen(x);
  }

  lemma RightsAre(x: bv32, a: nat, b: nat, c: nat, d: nat)
    requires a in {0, 1, 2, 4, 8, 16} && b in {0, 1, 2, 4, 8, 16}
    requires c in {0, 1, 2, 4, 8, 16} && d in {0, 1, 2, 4, 8, 16}
    ensures RightPower(RightPower(RightPower(RightPower(x, a), b), c), d) == Shr(x, a + b + c + d)
  {
    hide RightPower, LeftPower, Shr, Shl;
    var x1 := RightPower(x, a);
    var x2 := RightPower(x1, b);
    var x3 := RightPower(x2, c);
    ByPower(x, a);
    ByPower(x1, b);
    ByPower(x2, c);
    ByPower(x3, d);
    ShiftTwice(x, a, b);
    ShiftTwice(x, a + b, c);
    ShiftTwice(x, a + b + c, d);
  }

  lemma LeftsAre(x: bv32, a: nat, b: nat, c: nat, d: nat)
    requires a in {0, 1, 2, 4, 8, 16} && b in {0, 1, 2, 4, 8, 16}
    requires c in {0, 1, 2, 4, 8, 16} && d in {0, 1, 2, 4, 8, 16}
    ensures LeftPower(LeftPower(LeftPower(LeftPower(x, a), b), c), d) == Shl(x, a + b + c + d)
  {
    hide RightPower, LeftPower, Shr, Shl;
    var x1 := LeftPower(x, a);
    var x2 := LeftPower(x1, b);
    var x3 := LeftPower(x2, c);
    ByPower(x, a);
    ByPower(x1, b);
    ByPower(x2, c);
    ByPower(x3, d);
    ShiftTwice(x, a, b);
    ShiftTwice(x, a + b, c);
    ShiftTwice(x, a + b + c, d);
  }

  /** Rotated right by n: the low bits come in again at the top. */
  lemma ValRotR(x: bv32, n: nat, right: bv32, left: bv32)
    requires 0 < n < 32 && right == Shr(x, n) && left == Shl(x, 32 - n)
    ensures Val(x) < B && Val(OrOf(right, left)) == RotR(Val(x), n)
  {
    hide Val, Shr, Shl, OrOf, Or, Pow2;
    ValBound(x);
    ValShr(x, n);
    ValShl(x, 32 - n);
    ValOr(right, left);
  }

  function NotOf(x: bv32): bv32 { !x }

  lemma ValNot(x: bv32)
    ensures Val(NotOf(x)) == B - 1 - Val(x)
  {
    hide Val;
    AllOnes(x);
    ValPlus(x, NotOf(x));
    ValBound(x);
    ValBound(NotOf(x));
  }

  lemma AllOnes(x: bv32)
    ensures PlusOf(x, NotOf(x)) == 0xffff_ffff && Val(0xffff_ffff) == 0xffff_ffff
  {
    hide Val;
    ValIs(0xffff_ffff);
  }
}
