/**
  * The SHA-256 compression of one block: section 6.2.2 of FIPS 180-4 on 32-bit words, and the same
  * computed as PicoSHA2 does it, on words of `unsigned long` that are masked only now and then.
  *
  * `unsigned long` has 32 or 64 bits: its modulus m is only required to be a multiple of 2^32.
  */
module Sha256Block {
  import opened Basics
  import opened Arithmetic
  import opened Bits

  const B: nat := 0x1_0000_0000

  type Word = x: int | 0 <= x < 0x1_0000_0000

  // ---------- FIPS 180-4 ----------

  datatype Words = Words(a: Word, b: Word, c: Word, d: Word, e: Word, f: Word, g: Word, h: Word)

  function Row(w: Words): seq<Word> { [w.a, w.b, w.c, w.d, w.e, w.f, w.g, w.h] }

  /** The constants of section 4.2.2, eight to a row. */
  const K0 := Words(0x428a2f98, 0x71374491, 0xb5c0fbcf, 0xe9b5dba5, 0x3956c25b, 0x59f111f1, 0x923f82a4, 0xab1c5ed5)
  const K1 := Words(0xd807aa98, 0x12835b01, 0x243185be, 0x550c7dc3, 0x72be5d74, 0x80deb1fe, 0x9bdc06a7, 0xc19bf174)
  const K2 := Words(0xe49b69c1, 0xefbe4786, 0x0fc19dc6, 0x240ca1cc, 0x2de92c6f, 0x4a7484aa, 0x5cb0a9dc, 0x76f988da)
  const K3 := Words(0x983e5152, 0xa831c66d, 0xb00327c8, 0xbf597fc7, 0xc6e00bf3, 0xd5a79147, 0x06ca6351, 0x14292967)
  const K4 := Words(0x27b70a85, 0x2e1b2138, 0x4d2c6dfc, 0x53380d13, 0x650a7354, 0x766a0abb, 0x81c2c92e, 0x92722c85)
  const K5 := Words(0xa2bfe8a1, 0xa81a664b, 0xc24b8b70, 0xc76c51a3, 0xd192e819, 0xd6990624, 0xf40e3585, 0x106aa070)
  const K6 := Words(0x19a4c116, 0x1e376c08, 0x2748774c, 0x34b0bcb5, 0x391c0cb3, 0x4ed8aa4a, 0x5b9cca4f, 0x682e6ff3)
  const K7 := Words(0x748f82ee, 0x78a5636f, 0x84c87814, 0x8cc70208, 0x90befffa, 0xa4506ceb, 0xbef9a3f7, 0xc67178f2)

  const K: seq<Word> := Row(K0) + Row(K1) + Row(K2) + Row(K3) + Row(K4) + Row(K5) + Row(K6) + Row(K7)

  /** The initial hash value of section 5.3.3. */
  const INITIAL := Words(0x6a09e667, 0xbb67ae85, 0x3c6ef372, 0xa54ff53a, 0x510e527f, 0x9b05688c, 0x1f83d9ab, 0x5be0cd19)

  lemma BIsPow2()
    ensures Pow2(32) == B
  {
    assert Pow2(8) == 0x100;
    assert Pow2(16) == 0x1_0000;
    assert Pow2(24) == 0x100_0000;
  }

  function Plus(x: Word, y: Word): Word { (x + y) % B }

  function Xor3(x: nat, y: nat, z: nat): nat { Xor(Xor(x, y), z) }

  function Ch(x: Word, y: Word, z: Word): (r: Word) {
    BIsPow2();
    AndBound(x, y, 32);
    AndBound(B - 1 - x, z, 32);
    XorBound(And(x, y), And(B - 1 - x, z), 32);
    Xor(And(x, y), And(B - 1 - x, z))
  }

  function Maj(x: Word, y: Word, z: Word): (r: Word) {
    BIsPow2();
    AndBound(x, y, 32);
    AndBound(x, z, 32);
    AndBound(y, z, 32);
    XorBound(And(x, y), And(x, z), 32);
    XorBound(Xor(And(x, y), And(x, z)), And(y, z), 32);
    Xor3(And(x, y), And(x, z), And(y, z))
  }

  function ShR(x: Word, n: nat): (r: Word) {
    QuotientAtMost(x, Pow2(n));
    x / Pow2(n)
  }

  function RotR(x: Word, n: nat): (r: Word)
    requires n < 32
  {
    BIsPow2();
    DivMod(x * Pow2(32 - n), B);
    OrBound(ShR(x, n), x * Pow2(32 - n) % B, 32);
    Or(ShR(x, n), x * Pow2(32 - n) % B)
  }

  function Sigma(x: Word, y: Word, z: Word): (r: Word) {
    BIsPow2();
    XorBound(x, y, 32);
    XorBound(Xor(x, y), z, 32);
    Xor3(x, y, z)
  }

  function BSig0(x: Word): Word { Sigma(RotR(x, 2), RotR(x, 13), RotR(x, 22)) }

  function BSig1(x: Word): Word { Sigma(RotR(x, 6), RotR(x, 11), RotR(x, 25)) }

  function SSig0(x: Word): Word { Sigma(RotR(x, 7), RotR(x, 18), ShR(x, 3)) }

  function SSig1(x: Word): Word { Sigma(RotR(x, 17), RotR(x, 19), ShR(x, 10)) }

  function BigEndian(b0: byte, b1: byte, b2: byte, b3: byte): Word {
    b0 * 0x100_0000 + b1 * 0x1_0000 + b2 * 0x100 + b3
  }

  /** Word t of the message schedule. */
  function Schedule(block: Bytes, t: nat): Word
    requires |block| == 64 && t < 64
  {
    if t < 16 then BigEndian(block[4 * t], block[4 * t + 1], block[4 * t + 2], block[4 * t + 3])
    else Plus(Plus(Plus(SSig1(Schedule(block, t - 2)), Schedule(block, t - 7)), SSig0(Schedule(block, t - 15))),
              Schedule(block, t - 16))
  }

  function T1(v: Words, k: Word, w: Word): Word {
    Plus(Plus(Plus(Plus(v.h, BSig1(v.e)), Ch(v.e, v.f, v.g)), k), w)
  }

  function T2(v: Words): Word {
    Plus(BSig0(v.a), Maj(v.a, v.b, v.c))
  }

  function Round(v: Words, k: Word, w: Word): Words {
    Words(Plus(T1(v, k, w), T2(v)), v.a, v.b, v.c, Plus(v.d, T1(v, k, w)), v.e, v.f, v.g)
  }

  /** The working variables after t rounds. */
  function Rounds(v: Words, block: Bytes, t: nat): Words
    requires |block| == 64 && t <= 64
  {
    if t == 0 then v else Round(Rounds(v, block, t - 1), K[t - 1], Schedule(block, t - 1))
  }

  function AddWords(x: Words, y: Words): Words {
    Words(Plus(x.a, y.a), Plus(x.b, y.b), Plus(x.c, y.c), Plus(x.d, y.d),
          Plus(x.e, y.e), Plus(x.f, y.f), Plus(x.g, y.g), Plus(x.h, y.h))
  }

  function Compress(v: Words, block: Bytes): Words
    requires |block| == 64
  {
    AddWords(v, Rounds(v, block, 64))
  }

  // ---------- PicoSHA2's operations, modulo m ----------

  /** The modulus of `unsigned long`. */
  predicate Modulus(m: nat) {
    m > 0 && m % B == 0
  }

  function Add(x: nat, y: nat, m: nat): nat
    requires m > 0
  {
    (x + y) % m
  }

  /** `(x & y) ^ ((~x) & z)`, the complement taken at full width. */
  function WideCh(x: nat, y: nat, z: nat, m: nat): nat
    requires x < m
  {
    Xor(And(x, y), And(m - 1 - x, z))
  }

  /** `mask_32bit((x >> n) | (x << (32 - n)))`, the shift left taken at full width. */
  function WideRotR(x: nat, n: nat, m: nat): nat
    requires n < 32 && m > 0
  {
    QuotientAtMost(x, Pow2(n));
    Or(x / Pow2(n), x * Pow2(32 - n) % m) % B
  }

  /** Reducing modulo m first does not change the low 32 bits. */
  lemma ModMod(x: nat, m: nat)
    requires Modulus(m)
    ensures x % m % B == x % B && 0 <= x % m
  {
    DivMod(x, m);
    DivMod(m, B);
    DivMod(x % m, B);
    var q, k, r := x / m, m / B, x % m;
    assert x == q * (k * B) + (r / B) * B + r % B;
    MulAssociative(q, k, B);
    MulDistributes(q * k, r / B, B);
    DivModUnique(x, B, q * k + r / B, r % B);
  }

  lemma LowOfAdd(x: nat, y: nat, m: nat)
    requires Modulus(m)
    ensures Add(x, y, m) % B == Plus(x % B, y % B)
  {
    ModMod(x + y, m);
    SumMod(x, y);
  }

  lemma SumMod(x: nat, y: nat)
    ensures (x + y) % B == (x % B + y % B) % B
  {
    var r := x % B + y % B;
    assert x + y == (x / B + y / B) * B + r;
    if r < B {
      DivModUnique(x + y, B, x / B + y / B, r);
    } else {
      DivModUnique(x + y, B, x / B + y / B + 1, r - B);
      DivModUnique(r, B, 1, r - B);
    }
  }

  lemma WideChIsCh(x: Word, y: Word, z: Word, m: nat)
    requires Modulus(m)
    ensures x < m && WideCh(x, y, z, m) == Ch(x, y, z)
  {
    BIsPow2();
    DivMod(m, B);
    var k := m / B;
    if k < 1 {
      MulMonotone(k, 0, B);
      assert false;
    }
    MulDistributes(k - 1, 1, B);
    MulMonotone(0, k - 1, B);
    AndMod(m - 1 - x, z, 32);
    DivModUnique(m - 1 - x, B, k - 1, B - 1 - x);
  }

  lemma WideRotRIsRotR(x: Word, n: nat, m: nat)
    requires Modulus(m) && n < 32
    ensures WideRotR(x, n, m) == RotR(x, n)
  {
    hide Or, Pow2;
    BIsPow2();
    MulMonotone(0, x, Pow2(32 - n));
    var left, right := x * Pow2(32 - n), ShR(x, n);
    ModMod(left, m);
    OrMod(right, left % m, 32);
    assert right % B == right;
  }

  function WideShR(x: nat, n: nat): nat {
    QuotientAtMost(x, Pow2(n));
    x / Pow2(n)
  }

  lemma WideShRIsShR(x: Word, n: nat)
    ensures WideShR(x, n) == ShR(x, n)
  {
  }

  function WideBSig0(x: nat, m: nat): nat
    requires m > 0
  {
    Xor3(WideRotR(x, 2, m), WideRotR(x, 13, m), WideRotR(x, 22, m))
  }

  lemma WideBSig0IsBSig0(x: Word, m: nat)
    requires Modulus(m)
    ensures WideBSig0(x, m) == BSig0(x)
  {
    hide WideRotR, RotR, ShR, WideShR, Xor3, Modulus;
    WideRotRIsRotR(x, 2, m);
    WideRotRIsRotR(x, 13, m);
    WideRotRIsRotR(x, 22, m);
  }

  function WideBSig1(x: nat, m: nat): nat
    requires m > 0
  {
    Xor3(WideRotR(x, 6, m), WideRotR(x, 11, m), WideRotR(x, 25, m))
  }

  lemma WideBSig1IsBSig1(x: Word, m: nat)
    requires Modulus(m)
    ensures WideBSig1(x, m) == BSig1(x)
  {
    hide WideRotR, RotR, ShR, WideShR, Xor3, Modulus;
    WideRotRIsRotR(x, 6, m);
    WideRotRIsRotR(x, 11, m);
    WideRotRIsRotR(x, 25, m);
  }

  function WideSSig0(x: nat, m: nat): nat
    requires m > 0
  {
    Xor3(WideRotR(x, 7, m), WideRotR(x, 18, m), WideShR(x, 3))
  }

  lemma WideSSig0IsSSig0(x: Word, m: nat)
    requires Modulus(m)
    ensures WideSSig0(x, m) == SSig0(x)
  {
    hide WideRotR, RotR, ShR, WideShR, Xor3, Modulus;
    WideRotRIsRotR(x, 7, m);
    WideRotRIsRotR(x, 18, m);
    WideShRIsShR(x, 3);
  }

  function WideSSig1(x: nat, m: nat): nat
    requires m > 0
  {
    Xor3(WideRotR(x, 17, m), WideRotR(x, 19, m), WideShR(x, 10))
  }

  lemma WideSSig1IsSSig1(x: Word, m: nat)
    requires Modulus(m)
    ensures WideSSig1(x, m) == SSig1(x)
  {
    hide WideRotR, RotR, ShR, WideShR, Xor3, Modulus;
    WideRotRIsRotR(x, 17, m);
    WideRotRIsRotR(x, 19, m);
    WideShRIsShR(x, 10);
  }

  /** The four bytes of a word joined by shifts and `|`. */
  function WideBigEndian(b0: byte, b1: byte, b2: byte, b3: byte): nat {
    MulMonotone(0, b0, Pow2(24));
    MulMonotone(0, b1, Pow2(16));
    MulMonotone(0, b2, Pow2(8));
    Or(Or(Or(b0 * Pow2(24), b1 * Pow2(16)), b2 * Pow2(8)), b3)
  }

  lemma WideBigEndianIsBigEndian(b0: byte, b1: byte, b2: byte, b3: byte)
    ensures WideBigEndian(b0, b1, b2, b3) == BigEndian(b0, b1, b2, b3)
  {
    assert Pow2(8) == 0x100;
    assert Pow2(16) == 0x1_0000;
    assert Pow2(24) == 0x100_0000;
    hide Or, Pow2;
    OrDisjoint(b0, b1 * 0x1_0000, 24);
    OrDisjoint(b0 * 0x100 + b1, b2 * 0x100, 16);
    OrDisjoint(b0 * 0x1_0000 + b1 * 0x100 + b2, b3, 8);
  }

  // ---------- hash256_block ----------

  /** The working variables, held in a word_t each. */
  predicate SameWords(v: Words, a: nat, b: nat, c: nat, d: nat, e: nat, f: nat, g: nat, h: nat) {
    a == v.a && b == v.b && c == v.c && d == v.d && e == v.e && f == v.f && g == v.g && h == v.h
  }

  function View(digest: seq<nat>): Words
    requires |digest| == 8 && forall i :: 0 <= i < 8 ==> digest[i] < B
  {
    Words(digest[0], digest[1], digest[2], digest[3], digest[4], digest[5], digest[6], digest[7])
  }

  lemma ScheduleHead(block: Bytes, t: nat)
    requires |block| == 64 && t < 16
    ensures Schedule(block, t) == WideBigEndian(block[4 * t], block[4 * t + 1], block[4 * t + 2], block[4 * t + 3])
  {
    hide WideBigEndian, BigEndian;
    WideBigEndianIsBigEndian(block[4 * t], block[4 * t + 1], block[4 * t + 2], block[4 * t + 3]);
  }

  /** One word of the schedule: summed at full width, then masked. */
  function WideSchedule(w2: nat, w7: nat, w15: nat, w16: nat, m: nat): nat
    requires m > 0
  {
    Add(Add(Add(WideSSig1(w2, m), w7, m), WideSSig0(w15, m), m), w16, m) % B
  }

  lemma ScheduleTail(block: Bytes, t: nat, m: nat)
    requires |block| == 64 && 16 <= t < 64 && Modulus(m)
    ensures Schedule(block, t)
            == WideSchedule(Schedule(block, t - 2), Schedule(block, t - 7),
                            Schedule(block, t - 15), Schedule(block, t - 16), m)
  {
    hide WideSSig0, WideSSig1, SSig0, SSig1, Add, Plus, Modulus;
    ScheduleStep(Schedule(block, t - 2), Schedule(block, t - 7), Schedule(block, t - 15), Schedule(block, t - 16), m);
  }

  /** The message schedule, computed left to right in an array. */
  method FillSchedule(block: Bytes, m: nat) returns (w: array<nat>)
    requires |block| == 64 && Modulus(m)
    ensures fresh(w) && w.Length == 64
    ensures forall i :: 0 <= i < 64 ==> w[i] == Schedule(block, i)
  {
    hide Schedule, WideBigEndian, Modulus;
    w := new nat[64](_ => 0);
    for i := 0 to 16
      invariant forall j :: 0 <= j < i ==> w[j] == Schedule(block, j)
    {
      ScheduleHead(block, i);
      w[i] := WideBigEndian(block[i * 4], block[i * 4 + 1], block[i * 4 + 2], block[i * 4 + 3]);
    }
    ExtendSchedule(w, block, m);
  }

  method ExtendSchedule(w: array<nat>, block: Bytes, m: nat)
    requires |block| == 64 && Modulus(m) && w.Length == 64
    requires forall i :: 0 <= i < 16 ==> w[i] == Schedule(block, i)
    modifies w
    ensures forall i :: 0 <= i < 64 ==> w[i] == Schedule(block, i)
  {
    hide Schedule, Modulus;
    for i := 16 to 64
      invariant forall j :: 0 <= j < i ==> w[j] == Schedule(block, j)
    {
      var next := NextWord(w[i - 2], w[i - 7], w[i - 15], w[i - 16], m, block, i);
      w[i] := next;
    }
  }

  method NextWord(w2: nat, w7: nat, w15: nat, w16: nat, m: nat, ghost block: Bytes, ghost i: nat) returns (next: nat)
    requires |block| == 64 && Modulus(m) && 16 <= i < 64
    requires w2 == Schedule(block, i - 2) && w7 == Schedule(block, i - 7)
    requires w15 == Schedule(block, i - 15) && w16 == Schedule(block, i - 16)
    ensures next == Schedule(block, i)
  {
    assert m > 0;
    hide Schedule, WideSchedule, Modulus;
    ScheduleTail(block, i, m);
    next := WideSchedule(w2, w7, w15, w16, m);
  }

  /** Adding a word to a sum that may have run past 32 bits. */
  lemma AddWord(x: nat, low: Word, y: Word, m: nat)
    requires Modulus(m) && x % B == low
    ensures Add(x, y, m) % B == Plus(low, y)
  {
    LowOfAdd(x, y, m);
    assert y % B == y;
  }

  lemma ScheduleStep(w2: Word, w7: Word, w15: Word, w16: Word, m: nat)
    requires Modulus(m)
    ensures Add(Add(Add(WideSSig1(w2, m), w7, m), WideSSig0(w15, m), m), w16, m) % B
            == Plus(Plus(Plus(SSig1(w2), w7), SSig0(w15)), w16)
  {
    hide SSig0, SSig1, WideSSig0, WideSSig1, Add, Plus;
    WideSSig1IsSSig1(w2, m);
    WideSSig0IsSSig0(w15, m);
    var s1, s0 := SSig1(w2), SSig0(w15);
    assert s1 % B == s1;
    AddWord(s1, s1, w7, m);
    AddWord(Add(s1, w7, m), Plus(s1, w7), s0, m);
    AddWord(Add(Add(s1, w7, m), s0, m), Plus(Plus(s1, w7), s0), w16, m);
  }

  /** `temp1` and `temp2` are not masked; what is stored from them is. */
  function Temp1(e: nat, f: nat, g: nat, h: nat, k: nat, w: nat, m: nat): nat
    requires m > 0 && e < m
  {
    Add(Add(Add(Add(h, WideBSig1(e, m), m), WideCh(e, f, g, m), m), k, m), w, m)
  }

  function Temp2(a: nat, b: nat, c: nat, m: nat): nat
    requires m > 0
  {
    Add(WideBSig0(a, m), Xor3(And(a, b), And(a, c), And(b, c)), m)
  }

  lemma Temp1IsT1(v: Words, k: Word, w: Word, m: nat)
    requires Modulus(m)
    ensures v.e < m && Temp1(v.e, v.f, v.g, v.h, k, w, m) % B == T1(v, k, w)
  {
    WideChIsCh(v.e, v.f, v.g, m);
    hide BSig1, WideBSig1, WideCh, Ch, Add, Plus, Modulus;
    WideBSig1IsBSig1(v.e, m);
    FiveWords(v.h, BSig1(v.e), Ch(v.e, v.f, v.g), k, w, m);
  }

  lemma FiveWords(h: Word, s: Word, c: Word, k: Word, w: Word, m: nat)
    requires Modulus(m)
    ensures Add(Add(Add(Add(h, s, m), c, m), k, m), w, m) % B == Plus(Plus(Plus(Plus(h, s), c), k), w)
  {
    assert m > 0 && h % B == h;
    hide Add, Plus, Modulus;
    AddWord(h, h, s, m);
    AddWord(Add(h, s, m), Plus(h, s), c, m);
    AddWord(Add(Add(h, s, m), c, m), Plus(Plus(h, s), c), k, m);
    AddWord(Add(Add(Add(h, s, m), c, m), k, m), Plus(Plus(Plus(h, s), c), k), w, m);
  }

  lemma MajDefinition(v: Words)
    ensures Maj(v.a, v.b, v.c) == Xor3(And(v.a, v.b), And(v.a, v.c), And(v.b, v.c))
  {
    hide Xor3, And;
  }

  lemma Temp2IsT2(v: Words, m: nat)
    requires Modulus(m)
    ensures Temp2(v.a, v.b, v.c, m) % B == T2(v)
  {
    hide BSig0, WideBSig0, Maj, Add, Plus, Xor3, And;
    var mj := Maj(v.a, v.b, v.c);
    MajDefinition(v);
    WideBSig0IsBSig0(v.a, m);
    assert BSig0(v.a) % B == BSig0(v.a);
    AddWord(BSig0(v.a), BSig0(v.a), mj, m);
  }

  /** What one round stores, from unmasked sums. */
  lemma RoundStored(v: Words, k: Word, w: Word, m: nat)
    requires Modulus(m)
    ensures v.e < m
    ensures Round(v, k, w).a == Add(Temp1(v.e, v.f, v.g, v.h, k, w, m), Temp2(v.a, v.b, v.c, m), m) % B
    ensures Round(v, k, w).e == Add(v.d, Temp1(v.e, v.f, v.g, v.h, k, w, m), m) % B
    ensures var r := Round(v, k, w);
      r.b == v.a && r.c == v.b && r.d == v.c && r.f == v.e && r.g == v.f && r.h == v.g
  {
    hide Temp1, Temp2, T1, T2, Add, Plus, Modulus;
    Temp1IsT1(v, k, w, m);
    Temp2IsT2(v, m);
    LowOfAdd(Temp1(v.e, v.f, v.g, v.h, k, w, m), Temp2(v.a, v.b, v.c, m), m);
    LowOfAdd(v.d, Temp1(v.e, v.f, v.g, v.h, k, w, m), m);
    assert v.d % B == v.d;
  }

  /** The 64 rounds on the working variables. */
  method RunRounds(v0: Words, block: Bytes, w: array<nat>, m: nat) returns (v: Words)
    requires |block| == 64 && Modulus(m)
    requires w.Length == 64 && forall i :: 0 <= i < 64 ==> w[i] == Schedule(block, i)
    ensures v == Rounds(v0, block, 64)
  {
    hide Schedule, Round, Modulus;
    var a: nat, b: nat, c: nat, d: nat := v0.a, v0.b, v0.c, v0.d;
    var e: nat, f: nat, g: nat, h: nat := v0.e, v0.f, v0.g, v0.h;
    for i := 0 to 64
      invariant SameWords(Rounds(v0, block, i), a, b, c, d, e, f, g, h)
    {
      hide Temp1, Temp2, Add, T1, T2, Plus;
      RoundStored(Rounds(v0, block, i), K[i], Schedule(block, i), m);
      var temp1 := Temp1(e, f, g, h, K[i], w[i], m);
      var temp2 := Temp2(a, b, c, m);
      h := g;
      g := f;
      f := e;
      e := Add(d, temp1, m) % B;
      d := c;
      c := b;
      b := a;
      a := Add(temp1, temp2, m) % B;
    }
    v := Words(a, b, c, d, e, f, g, h);
  }

  /** The block function: whatever the width of word_t, the digest becomes the FIPS 180-4 compression of it. */
  method HashBlock(digest: array<nat>, block: Bytes, m: nat)
    requires digest.Length == 8 && |block| == 64 && Modulus(m)
    requires forall i :: 0 <= i < 8 ==> digest[i] < B
    modifies digest
    ensures forall i :: 0 <= i < 8 ==> digest[i] < B
    ensures View(digest[..]) == Compress(old(View(digest[..])), block)
  {
    hide Schedule, Rounds, Modulus, Plus;
    ghost var before := digest[..];
    var w := FillSchedule(block, m);
    var v := RunRounds(View(digest[..]), block, w, m);
    assert digest[..] == before;
    AddBack(digest, [v.a, v.b, v.c, v.d, v.e, v.f, v.g, v.h], m);
  }

  /** The digest plus the working variables; only at the very end are the sums masked. */
  method AddBack(digest: array<nat>, v: seq<Word>, m: nat)
    requires digest.Length == 8 && |v| == 8 && Modulus(m)
    requires forall i :: 0 <= i < 8 ==> digest[i] < B
    modifies digest
    ensures forall i :: 0 <= i < 8 ==> digest[i] < B && digest[i] == Plus(old(digest[i]), v[i])
  {
    assert m > 0;
    hide Modulus, Add, Plus;
    for i := 0 to 8
      invariant forall j :: 0 <= j < i ==> digest[j] == Add(old(digest[j]), v[j], m)
      invariant forall j :: i <= j < 8 ==> digest[j] == old(digest[j])
    {
      digest[i] := Add(digest[i], v[i], m);
    }
    for i := 0 to 8
      invariant forall j :: 0 <= j < i ==> digest[j] == Plus(old(digest[j]), v[j])
      invariant forall j :: i <= j < 8 ==> digest[j] == Add(old(digest[j]), v[j], m)
    {
      MaskedSum(old(digest[i]), v[i], m);
      digest[i] := digest[i] % B;
    }
  }

  /** Masking a sum at the end gives the 32-bit sum. */
  lemma MaskedSum(x: Word, y: Word, m: nat)
    requires Modulus(m)
    ensures Add(x, y, m) % B == Plus(x, y)
  {
    AddWord(x, x, y, m);
  }
}
