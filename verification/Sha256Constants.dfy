/**
  * What the constants of SHA-256 are (sections 4.2.2 and 5.3.3 of FIPS 180-4): the first 32 bits of the fractional
  * parts of the cube roots of the first 64 primes, and of the square roots of the first eight.
  */
module Sha256Constants {
  import opened Arithmetic
  import opened Sha256Block

  // ---------- Primes ----------

  ghost predicate IsPrime(n: nat) {
    n >= 2 && forall d :: 2 <= d < n ==> n % d != 0
  }

  ghost predicate NextPrime(p: nat, q: nat) {
    p < q && IsPrime(q) && forall n :: p < n < q ==> !IsPrime(n)
  }

  predicate Small(n: nat) {
    n == 2 || n == 3 || n == 5 || n == 7 || n == 11 || n == 13 || n == 17
  }

  /** No prime up to 17 divides it, unless it is one itself. */
  predicate Sieved(n: nat) {
    || Small(n)
    || (&& n % 2 != 0 && n % 3 != 0 && n % 5 != 0 && n % 7 != 0
        && n % 11 != 0 && n % 13 != 0 && n % 17 != 0)
  }

  /** Of two factors of a number below 19 * 19 one is below 19. */
  lemma OneIsSmall(n: nat, d: nat, q: nat)
    requires n == q * d && d >= 19 && q >= 19
    ensures n >= 361
  {
    MulMonotone(19, q, d);
  }

  lemma Cofactor(n: nat, d: nat) returns (q: nat)
    requires 2 <= d < n && n % d == 0
    ensures n == q * d && 2 <= q < n
  {
    DivMod(n, d);
    q := n / d;
    if n / d < 2 {
      MulMonotone(n / d, 1, d);
      assert false;
    }
    MulMonotone(2, d, q);
    MulCommutes(q, d);
  }

  /** A number from 2 to 18 has a small prime factor. */
  lemma SmallFactor(d: nat) returns (a: nat, k: nat)
    requires 2 <= d < 19
    ensures Small(a) && a <= d && d == k * a
  {
    a := if d % 2 == 0 then 2 else if d % 3 == 0 then 3 else d;
    k := d / a;
  }

  lemma DividesThrough(n: nat, q: nat, d: nat, k: nat, a: nat)
    requires n == q * d && d == k * a && a > 0
    ensures n % a == 0
  {
    MulAssociative(q, k, a);
    DivModUnique(n, a, q * k, 0);
  }

  /** A number below 361 that has a proper divisor has one that is a small prime. */
  lemma DivisorInSmall(n: nat, d: nat) returns (a: nat)
    requires 2 <= d < n < 361 && n % d == 0
    ensures Small(a) && a < n && n % a == 0
  {
    var q := Cofactor(n, d);
    var k;
    if d < 19 {
      a, k := SmallFactor(d);
      DividesThrough(n, q, d, k, a);
    } else {
      if q >= 19 {
        OneIsSmall(n, d, q);
        assert false;
      }
      MulCommutes(q, d);
      a, k := SmallFactor(q);
      DividesThrough(n, d, q, k, a);
    }
  }

  lemma SievedArePrimes(n: nat)
    requires 2 <= n < 361
    ensures IsPrime(n) <==> Sieved(n)
  {
    if Sieved(n) {
      forall d | 2 <= d < n
        ensures n % d != 0
      {
        if n % d == 0 {
          var a := DivisorInSmall(n, d);
          assert false;
        }
      }
    } else {
      var a := if n % 2 == 0 then 2 else if n % 3 == 0 then 3 else if n % 5 == 0 then 5 else if n % 7 == 0 then 7
               else if n % 11 == 0 then 11 else if n % 13 == 0 then 13 else 17;
      assert n % a == 0 && 2 <= a < n;
    }
  }

  /** The gaps between the first 64 primes are at most 14 wide. */
  predicate NoneBetween(p: nat, q: nat) {
    q <= p + 14
    && (q <= p + 1 || !Sieved(p + 1))
    && (q <= p + 2 || !Sieved(p + 2))
    && (q <= p + 3 || !Sieved(p + 3))
    && (q <= p + 4 || !Sieved(p + 4))
    && (q <= p + 5 || !Sieved(p + 5))
    && (q <= p + 6 || !Sieved(p + 6))
    && (q <= p + 7 || !Sieved(p + 7))
    && (q <= p + 8 || !Sieved(p + 8))
    && (q <= p + 9 || !Sieved(p + 9))
    && (q <= p + 10 || !Sieved(p + 10))
    && (q <= p + 11 || !Sieved(p + 11))
    && (q <= p + 12 || !Sieved(p + 12))
    && (q <= p + 13 || !Sieved(p + 13))
  }

  lemma NextSieved(p: nat, q: nat)
    requires 0 < p < q < 361 && Sieved(q) && q >= 2 && NoneBetween(p, q)
    ensures NextPrime(p, q)
  {
    hide Sieved;
    SievedArePrimes(q);
    forall n | p < n < q
      ensures !IsPrime(n)
    {
      SievedArePrimes(n);
      assert n == p + (n - p) && 1 <= n - p <= 13;
    }
  }

  const P0 := Words(2, 3, 5, 7, 11, 13, 17, 19)
  const P1 := Words(23, 29, 31, 37, 41, 43, 47, 53)
  const P2 := Words(59, 61, 67, 71, 73, 79, 83, 89)
  const P3 := Words(97, 101, 103, 107, 109, 113, 127, 131)
  const P4 := Words(137, 139, 149, 151, 157, 163, 167, 173)
  const P5 := Words(179, 181, 191, 193, 197, 199, 211, 223)
  const P6 := Words(227, 229, 233, 239, 241, 251, 257, 263)
  const P7 := Words(269, 271, 277, 281, 283, 293, 307, 311)

  const PRIMES: seq<Word> := Row(P0) + Row(P1) + Row(P2) + Row(P3) + Row(P4) + Row(P5) + Row(P6) + Row(P7)

  /** The eight come one after another, after p. */
  ghost predicate Consecutive(p: nat, w: Words) {
    && NextPrime(p, w.a) && NextPrime(w.a, w.b) && NextPrime(w.b, w.c) && NextPrime(w.c, w.d)
    && NextPrime(w.d, w.e) && NextPrime(w.e, w.f) && NextPrime(w.f, w.g) && NextPrime(w.g, w.h)
  }

  lemma EarlyPrimes0()
    ensures NextPrime(1, 2) && NextPrime(2, 3) && NextPrime(3, 5) && NextPrime(5, 7)
  {
    hide NextPrime;
    NextSieved(1, 2);
    NextSieved(2, 3);
    NextSieved(3, 5);
    NextSieved(5, 7);
  }

  lemma LatePrimes0()
    ensures NextPrime(7, 11) && NextPrime(11, 13) && NextPrime(13, 17) && NextPrime(17, 19)
  {
    hide NextPrime;
    NextSieved(7, 11);
    NextSieved(11, 13);
    NextSieved(13, 17);
    NextSieved(17, 19);
  }

  lemma Primes0()
    ensures Consecutive(1, P0)
  {
    hide NextPrime;
    EarlyPrimes0();
    LatePrimes0();
  }

  lemma EarlyPrimes1()
    ensures NextPrime(19, 23) && NextPrime(23, 29) && NextPrime(29, 31) && NextPrime(31, 37)
  {
    hide NextPrime;
    NextSieved(19, 23);
    NextSieved(23, 29);
    NextSieved(29, 31);
    NextSieved(31, 37);
  }

  lemma LatePrimes1()
    ensures NextPrime(37, 41) && NextPrime(41, 43) && NextPrime(43, 47) && NextPrime(47, 53)
  {
    hide NextPrime;
    NextSieved(37, 41);
    NextSieved(41, 43);
    NextSieved(43, 47);
    NextSieved(47, 53);
  }

  lemma Primes1()
    ensures Consecutive(19, P1)
  {
    hide NextPrime;
    EarlyPrimes1();
    LatePrimes1();
  }

  lemma EarlyPrimes2()
    ensures NextPrime(53, 59) && NextPrime(59, 61) && NextPrime(61, 67) && NextPrime(67, 71)
  {
    hide NextPrime;
    NextSieved(53, 59);
    NextSieved(59, 61);
    NextSieved(61, 67);
    NextSieved(67, 71);
  }

  lemma LatePrimes2()
    ensures NextPrime(71, 73) && NextPrime(73, 79) && NextPrime(79, 83) && NextPrime(83, 89)
  {
    hide NextPrime;
    NextSieved(71, 73);
    NextSieved(73, 79);
    NextSieved(79, 83);
    NextSieved(83, 89);
  }

  lemma Primes2()
    ensures Consecutive(53, P2)
  {
    hide NextPrime;
    EarlyPrimes2();
    LatePrimes2();
  }

  lemma EarlyPrimes3()
    ensures NextPrime(89, 97) && NextPrime(97, 101) && NextPrime(101, 103) && NextPrime(103, 107)
  {
    hide NextPrime;
    NextSieved(89, 97);
    NextSieved(97, 101);
    NextSieved(101, 103);
    NextSieved(103, 107);
  }

  lemma LatePrimes3()
    ensures NextPrime(107, 109) && NextPrime(109, 113) && NextPrime(113, 127) && NextPrime(127, 131)
  {
    hide NextPrime;
    NextSieved(107, 109);
    NextSieved(109, 113);
    NextSieved(113, 127);
    NextSieved(127, 131);
  }

  lemma Primes3()
    ensures Consecutive(89, P3)
  {
    hide NextPrime;
    EarlyPrimes3();
    LatePrimes3();
  }

  lemma EarlyPrimes4()
    ensures NextPrime(131, 137) && NextPrime(137, 139) && NextPrime(139, 149) && NextPrime(149, 151)
  {
    hide NextPrime;
    NextSieved(131, 137);
    NextSieved(137, 139);
    NextSieved(139, 149);
    NextSieved(149, 151);
  }

  lemma LatePrimes4()
    ensures NextPrime(151, 157) && NextPrime(157, 163) && NextPrime(163, 167) && NextPrime(167, 173)
  {
    hide NextPrime;
    NextSieved(151, 157);
    NextSieved(157, 163);
    NextSieved(163, 167);
    NextSieved(167, 173);
  }

  lemma Primes4()
    ensures Consecutive(131, P4)
  {
    hide NextPrime;
    EarlyPrimes4();
    LatePrimes4();
  }

  lemma EarlyPrimes5()
    ensures NextPrime(173, 179) && NextPrime(179, 181) && NextPrime(181, 191) && NextPrime(191, 193)
  {
    hide NextPrime;
    NextSieved(173, 179);
    NextSieved(179, 181);
    NextSieved(181, 191);
    NextSieved(191, 193);
  }

  lemma LatePrimes5()
    ensures NextPrime(193, 197) && NextPrime(197, 199) && NextPrime(199, 211) && NextPrime(211, 223)
  {
    hide NextPrime;
    NextSieved(193, 197);
    NextSieved(197, 199);
    NextSieved(199, 211);
    NextSieved(211, 223);
  }

  lemma Primes5()
    ensures Consecutive(173, P5)
  {
    hide NextPrime;
    EarlyPrimes5();
    LatePrimes5();
  }

  lemma EarlyPrimes6()
    ensures NextPrime(223, 227) && NextPrime(227, 229) && NextPrime(229, 233) && NextPrime(233, 239)
  {
    hide NextPrime;
    NextSieved(223, 227);
    NextSieved(227, 229);
    NextSieved(229, 233);
    NextSieved(233, 239);
  }

  lemma LatePrimes6()
    ensures NextPrime(239, 241) && NextPrime(241, 251) && NextPrime(251, 257) && NextPrime(257, 263)
  {
    hide NextPrime;
    NextSieved(239, 241);
    NextSieved(241, 251);
    NextSieved(251, 257);
    NextSieved(257, 263);
  }

  lemma Primes6()
    ensures Consecutive(223, P6)
  {
    hide NextPrime;
    EarlyPrimes6();
    LatePrimes6();
  }

  lemma EarlyPrimes7()
    ensures NextPrime(263, 269) && NextPrime(269, 271) && NextPrime(271, 277) && NextPrime(277, 281)
  {
    hide NextPrime;
    NextSieved(263, 269);
    NextSieved(269, 271);
    NextSieved(271, 277);
    NextSieved(277, 281);
  }

  lemma LatePrimes7()
    ensures NextPrime(281, 283) && NextPrime(283, 293) && NextPrime(293, 307) && NextPrime(307, 311)
  {
    hide NextPrime;
    NextSieved(281, 283);
    NextSieved(283, 293);
    NextSieved(293, 307);
    NextSieved(307, 311);
  }

  lemma Primes7()
    ensures Consecutive(263, P7)
  {
    hide NextPrime;
    EarlyPrimes7();
    LatePrimes7();
  }

  function RowOfPrimes(j: nat): Words
    requires j < 8
  {
    if j == 0 then P0 else if j == 1 then P1 else if j == 2 then P2 else if j == 3 then P3
    else if j == 4 then P4 else if j == 5 then P5 else if j == 6 then P6 else P7
  }

  lemma RowsArePrimes(j: nat)
    requires j < 8
    ensures Consecutive(if j == 0 then 1 else RowOfPrimes(j - 1).h, RowOfPrimes(j))
  {
    hide Consecutive;
    Primes0();
    Primes1();
    Primes2();
    Primes3();
    Primes4();
    Primes5();
    Primes6();
    Primes7();
  }

  lemma PrimeAt(j: nat, i: nat)
    requires j < 8 && i < 8
    ensures PRIMES[8 * j + i] == Row(RowOfPrimes(j))[i]
  {
    hide P0, P1, P2, P3, P4, P5, P6, P7;
  }

  lemma InRow(p: nat, w: Words, i: nat)
    requires i < 8 && Consecutive(p, w)
    ensures NextPrime(if i == 0 then p else Row(w)[i - 1], Row(w)[i])
  {
    hide NextPrime;
  }

  /** The list starts with the first prime, and goes on with the next one each time. */
  lemma PrimesAreFirst(t: nat)
    requires t < 64
    ensures |PRIMES| == 64 && NextPrime(if t == 0 then 1 else PRIMES[t - 1], PRIMES[t])
  {
    hide NextPrime, RowOfPrimes, Consecutive;
    var j, i := t / 8, t % 8;
    RowsArePrimes(j);
    InRow(if j == 0 then 1 else RowOfPrimes(j - 1).h, RowOfPrimes(j), i);
    PrimeAt(j, i);
    if i > 0 {
      PrimeAt(j, i - 1);
    } else if j > 0 {
      PrimeAt(j - 1, 7);
    }
    hide PRIMES;
  }

  // ---------- Roots ----------

  /** k is made of the first 32 bits after the binary point of the cube root of p. */
  ghost predicate CubeRootBits(p: nat, k: Word) {
    exists r: nat :: r * r * r <= p * 0x1_0000_0000_0000_0000_0000_0000 < (r + 1) * (r + 1) * (r + 1) && k == r % B
  }

  ghost predicate SquareRootBits(p: nat, k: Word) {
    exists r: nat :: r * r <= p * 0x1_0000_0000_0000_0000 < (r + 1) * (r + 1) && k == r % B
  }

  /** c is the whole part of the root. */
  lemma CubeRoot(p: nat, k: Word, c: nat)
    requires
      var r := c * B + k;
      r * r * r <= p * 0x1_0000_0000_0000_0000_0000_0000 < (r + 1) * (r + 1) * (r + 1)
    ensures CubeRootBits(p, k)
  {
    DivModUnique(c * B + k, B, c, k);
  }

  lemma SquareRoot(p: nat, k: Word, c: nat)
    requires
      var r := c * B + k;
      r * r <= p * 0x1_0000_0000_0000_0000 < (r + 1) * (r + 1)
    ensures SquareRootBits(p, k)
  {
    DivModUnique(c * B + k, B, c, k);
  }

  ghost predicate CubeRoots(p: Words, k: Words) {
    && CubeRootBits(p.a, k.a) && CubeRootBits(p.b, k.b) && CubeRootBits(p.c, k.c) && CubeRootBits(p.d, k.d)
    && CubeRootBits(p.e, k.e) && CubeRootBits(p.f, k.f) && CubeRootBits(p.g, k.g) && CubeRootBits(p.h, k.h)
  }

  lemma Roots0()
    ensures CubeRoots(P0, K0)
  {
    hide CubeRootBits;
    CubeRoot(P0.a, K0.a, 1);
    CubeRoot(P0.b, K0.b, 1);
    CubeRoot(P0.c, K0.c, 1);
    CubeRoot(P0.d, K0.d, 1);
    CubeRoot(P0.e, K0.e, 2);
    CubeRoot(P0.f, K0.f, 2);
    CubeRoot(P0.g, K0.g, 2);
    CubeRoot(P0.h, K0.h, 2);
  }

  lemma Roots1()
    ensures CubeRoots(P1, K1)
  {
    hide CubeRootBits;
    CubeRoot(P1.a, K1.a, 2);
    CubeRoot(P1.b, K1.b, 3);
    CubeRoot(P1.c, K1.c, 3);
    CubeRoot(P1.d, K1.d, 3);
    CubeRoot(P1.e, K1.e, 3);
    CubeRoot(P1.f, K1.f, 3);
    CubeRoot(P1.g, K1.g, 3);
    CubeRoot(P1.h, K1.h, 3);
  }

  lemma Roots2()
    ensures CubeRoots(P2, K2)
  {
    hide CubeRootBits;
    CubeRoot(P2.a, K2.a, 3);
    CubeRoot(P2.b, K2.b, 3);
    CubeRoot(P2.c, K2.c, 4);
    CubeRoot(P2.d, K2.d, 4);
    CubeRoot(P2.e, K2.e, 4);
    CubeRoot(P2.f, K2.f, 4);
    CubeRoot(P2.g, K2.g, 4);
    CubeRoot(P2.h, K2.h, 4);
  }

  lemma Roots3()
    ensures CubeRoots(P3, K3)
  {
    hide CubeRootBits;
    CubeRoot(P3.a, K3.a, 4);
    CubeRoot(P3.b, K3.b, 4);
    CubeRoot(P3.c, K3.c, 4);
    CubeRoot(P3.d, K3.d, 4);
    CubeRoot(P3.e, K3.e, 4);
    CubeRoot(P3.f, K3.f, 4);
    CubeRoot(P3.g, K3.g, 5);
    CubeRoot(P3.h, K3.h, 5);
  }

  lemma Roots4()
    ensures CubeRoots(P4, K4)
  {
    hide CubeRootBits;
    CubeRoot(P4.a, K4.a, 5);
    CubeRoot(P4.b, K4.b, 5);
    CubeRoot(P4.c, K4.c, 5);
    CubeRoot(P4.d, K4.d, 5);
    CubeRoot(P4.e, K4.e, 5);
    CubeRoot(P4.f, K4.f, 5);
    CubeRoot(P4.g, K4.g, 5);
    CubeRoot(P4.h, K4.h, 5);
  }

  lemma Roots5()
    ensures CubeRoots(P5, K5)
  {
    hide CubeRootBits;
    CubeRoot(P5.a, K5.a, 5);
    CubeRoot(P5.b, K5.b, 5);
    CubeRoot(P5.c, K5.c, 5);
    CubeRoot(P5.d, K5.d, 5);
    CubeRoot(P5.e, K5.e, 5);
    CubeRoot(P5.f, K5.f, 5);
    CubeRoot(P5.g, K5.g, 5);
    CubeRoot(P5.h, K5.h, 6);
  }

  lemma Roots6()
    ensures CubeRoots(P6, K6)
  {
    hide CubeRootBits;
    CubeRoot(P6.a, K6.a, 6);
    CubeRoot(P6.b, K6.b, 6);
    CubeRoot(P6.c, K6.c, 6);
    CubeRoot(P6.d, K6.d, 6);
    CubeRoot(P6.e, K6.e, 6);
    CubeRoot(P6.f, K6.f, 6);
    CubeRoot(P6.g, K6.g, 6);
    CubeRoot(P6.h, K6.h, 6);
  }

  lemma Roots7()
    ensures CubeRoots(P7, K7)
  {
    hide CubeRootBits;
    CubeRoot(P7.a, K7.a, 6);
    CubeRoot(P7.b, K7.b, 6);
    CubeRoot(P7.c, K7.c, 6);
    CubeRoot(P7.d, K7.d, 6);
    CubeRoot(P7.e, K7.e, 6);
    CubeRoot(P7.f, K7.f, 6);
    CubeRoot(P7.g, K7.g, 6);
    CubeRoot(P7.h, K7.h, 6);
  }

  lemma RowsAreRoots(j: nat)
    requires j < 8
    ensures CubeRoots(RowOfPrimes(j), RowOfK(j))
  {
    hide CubeRoots;
    Roots0();
    Roots1();
    Roots2();
    Roots3();
    Roots4();
    Roots5();
    Roots6();
    Roots7();
  }

  function RowOfK(j: nat): Words
    requires j < 8
  {
    if j == 0 then K0 else if j == 1 then K1 else if j == 2 then K2 else if j == 3 then K3
    else if j == 4 then K4 else if j == 5 then K5 else if j == 6 then K6 else K7
  }

  lemma KAt(j: nat, i: nat)
    requires j < 8 && i < 8
    ensures K[8 * j + i] == Row(RowOfK(j))[i]
  {
    hide K0, K1, K2, K3, K4, K5, K6, K7;
  }

  /** The constant of round t is the first 32 bits of the fractional part of the cube root of prime t. */
  lemma KIsCubeRoot(t: nat)
    requires t < 64
    ensures |PRIMES| == 64 && CubeRootBits(PRIMES[t], K[t])
  {
    hide CubeRootBits, RowOfPrimes, RowOfK;
    var j, i := t / 8, t % 8;
    RowsAreRoots(j);
    PrimeAt(j, i);
    KAt(j, i);
    hide PRIMES, K;
  }

  /** The initial hash value: square roots of the first eight primes. */
  lemma InitialIsSquareRoot(t: nat)
    requires t < 8
    ensures |PRIMES| == 64 && SquareRootBits(PRIMES[t], Row(INITIAL)[t])
  {
    hide SquareRootBits;
    SquareRoot(P0.a, INITIAL.a, 1);
    SquareRoot(P0.b, INITIAL.b, 1);
    SquareRoot(P0.c, INITIAL.c, 2);
    SquareRoot(P0.d, INITIAL.d, 2);
    SquareRoot(P0.e, INITIAL.e, 3);
    SquareRoot(P0.f, INITIAL.f, 3);
    SquareRoot(P0.g, INITIAL.g, 4);
    SquareRoot(P0.h, INITIAL.h, 4);
    PrimeAt(0, t);
    hide PRIMES, P0, INITIAL;
  }
}
