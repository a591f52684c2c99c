/**
  * The compression of one block on native 32-bit words, and the standard's own example: the digest of "abc".
  */
module Sha256Native {
  import opened Basics
  import opened Bits
  import opened Sha256Block
  import opened NativeWords

  function Xor3Of(x: bv32, y: bv32, z: bv32): bv32 { XorOf(XorOf(x, y), z) }

  lemma ValSigma(x: bv32, y: bv32, z: bv32)
    ensures Val(x) < B && Val(y) < B && Val(z) < B
    ensures Val(Xor3Of(x, y, z)) == Sigma(Val(x), Val(y), Val(z))
  {
    hide Val, XorOf, Xor;
    ValBound(x);
    ValBound(y);
    ValBound(z);
    ValXor(x, y);
    ValXor(XorOf(x, y), z);
  }

  lemma ValShR(x: bv32, n: nat, right: bv32)
    requires n < 32 && right == Shr(x, n)
    ensures Val(x) < B && Val(right) == ShR(Val(x), n)
  {
    hide Val, Shr, Pow2;
    ValBound(x);
    ValShr(x, n);
  }

  // ---------- Rotations and shifts, put together from those by powers of two ----------

  function Rotate2(x: bv32): bv32 { OrOf(Right2(x), Left16(Left8(Left4(Left2(x))))) }

  function Rotate13(x: bv32): bv32 { OrOf(Right8(Right4(Half(x))), Left16(Left2(Double(x)))) }

  function Rotate22(x: bv32): bv32 { OrOf(Right16(Right4(Right2(x))), Left8(Left2(x))) }

  function Rotate6(x: bv32): bv32 { OrOf(Right4(Right2(x)), Left16(Left8(Left2(x)))) }

  function Rotate11(x: bv32): bv32 { OrOf(Right8(Right2(Half(x))), Left16(Left4(Double(x)))) }

  function Rotate25(x: bv32): bv32 { OrOf(Right16(Right8(Half(x))), Left4(Left2(Double(x)))) }

  function Rotate7(x: bv32): bv32 { OrOf(Right4(Right2(Half(x))), Left16(Left8(Double(x)))) }

  function Rotate18(x: bv32): bv32 { OrOf(Right16(Right2(x)), Left8(Left4(Left2(x)))) }

  function Rotate17(x: bv32): bv32 { OrOf(Right16(Half(x)), Left8(Left4(Left2(Double(x))))) }

  function Rotate19(x: bv32): bv32 { OrOf(Right16(Right2(Half(x))), Left8(Left4(Double(x)))) }

  lemma Rotate2Is(x: bv32)
    ensures Val(x) < B && Val(Rotate2(x)) == RotR(Val(x), 2)
  {
    hide Val, OrOf, Shr, Shl, RotR;
    hide Half, Double, Right2, Left2, Right4, Left4, Right8, Left8, Right16, Left16;
    RightsAre(x, 2, 0, 0, 0);
    LeftsAre(x, 2, 4, 8, 16);
    ValRotR(x, 2, Right2(x), Left16(Left8(Left4(Left2(x)))));
  }

  lemma Rotate13Is(x: bv32)
    ensures Val(x) < B && Val(Rotate13(x)) == RotR(Val(x), 13)
  {
    hide Val, OrOf, Shr, Shl, RotR;
    hide Half, Double, Right2, Left2, Right4, Left4, Right8, Left8, Right16, Left16;
    RightsAre(x, 1, 4, 8, 0);
    LeftsAre(x, 1, 2, 16, 0);
    ValRotR(x, 13, Right8(Right4(Half(x))), Left16(Left2(Double(x))));
  }

  lemma Rotate22Is(x: bv32)
    ensures Val(x) < B && Val(Rotate22(x)) == RotR(Val(x), 22)
  {
    hide Val, OrOf, Shr, Shl, RotR;
    hide Half, Double, Right2, Left2, Right4, Left4, Right8, Left8, Right16, Left16;
    RightsAre(x, 2, 4, 16, 0);
    LeftsAre(x, 2, 8, 0, 0);
    ValRotR(x, 22, Right16(Right4(Right2(x))), Left8(Left2(x)));
  }

  lemma Rotate6Is(x: bv32)
    ensures Val(x) < B && Val(Rotate6(x)) == RotR(Val(x), 6)
  {
    hide Val, OrOf, Shr, Shl, RotR;
    hide Half, Double, Right2, Left2, Right4, Left4, Right8, Left8, Right16, Left16;
    RightsAre(x, 2, 4, 0, 0);
    LeftsAre(x, 2, 8, 16, 0);
    ValRotR(x, 6, Right4(Right2(x)), Left16(Left8(Left2(x))));
  }

  lemma Rotate11Is(x: bv32)
    ensures Val(x) < B && Val(Rotate11(x)) == RotR(Val(x), 11)
  {
    hide Val, OrOf, Shr, Shl, RotR;
    hide Half, Double, Right2, Left2, Right4, Left4, Right8, Left8, Right16, Left16;
    RightsAre(x, 1, 2, 8, 0);
    LeftsAre(x, 1, 4, 16, 0);
    ValRotR(x, 11, Right8(Right2(Half(x))), Left16(Left4(Double(x))));
  }

  lemma Rotate25Is(x: bv32)
    ensures Val(x) < B && Val(Rotate25(x)) == RotR(Val(x), 25)
  {
    hide Val, OrOf, Shr, Shl, RotR;
    hide Half, Double, Right2, Left2, Right4, Left4, Right8, Left8, Right16, Left16;
    RightsAre(x, 1, 8, 16, 0);
    LeftsAre(x, 1, 2, 4, 0);
    ValRotR(x, 25, Right16(Right8(Half(x))), Left4(Left2(Double(x))));
  }

  lemma Rotate7Is(x: bv32)
    ensures Val(x) < B && Val(Rotate7(x)) == RotR(Val(x), 7)
  {
    hide Val, OrOf, Shr, Shl, RotR;
    hide Half, Double, Right2, Left2, Right4, Left4, Right8, Left8, Right16, Left16;
    RightsAre(x, 1, 2, 4, 0);
    LeftsAre(x, 1, 8, 16, 0);
    ValRotR(x, 7, Right4(Right2(Half(x))), Left16(Left8(Double(x))));
  }

  lemma Rotate18Is(x: bv32)
    ensures Val(x) < B && Val(Rotate18(x)) == RotR(Val(x), 18)
  {
    hide Val, OrOf, Shr, Shl, RotR;
    hide Half, Double, Right2, Left2, Right4, Left4, Right8, Left8, Right16, Left16;
    RightsAre(x, 2, 16, 0, 0);
    LeftsAre(x, 2, 4, 8, 0);
    ValRotR(x, 18, Right16(Right2(x)), Left8(Left4(Left2(x))));
  }

  lemma Rotate17Is(x: bv32)
    ensures Val(x) < B && Val(Rotate17(x)) == RotR(Val(x), 17)
  {
    hide Val, OrOf, Shr, Shl, RotR;
    hide Half, Double, Right2, Left2, Right4, Left4, Right8, Left8, Right16, Left16;
    RightsAre(x, 1, 16, 0, 0);
    LeftsAre(x, 1, 2, 4, 8);
    ValRotR(x, 17, Right16(Half(x)), Left8(Left4(Left2(Double(x)))));
  }

  lemma Rotate19Is(x: bv32)
    ensures Val(x) < B && Val(Rotate19(x)) == RotR(Val(x), 19)
  {
    hide Val, OrOf, Shr, Shl, RotR;
    hide Half, Double, Right2, Left2, Right4, Left4, Right8, Left8, Right16, Left16;
    RightsAre(x, 1, 2, 16, 0);
    LeftsAre(x, 1, 4, 8, 0);
    ValRotR(x, 19, Right16(Right2(Half(x))), Left8(Left4(Double(x))));
  }

  function Sum0(x: bv32): bv32 { Xor3Of(Rotate2(x), Rotate13(x), Rotate22(x)) }

  lemma Sum0Is(x: bv32)
    ensures Val(x) < B && Val(Sum0(x)) == BSig0(Val(x))
  {
    hide Val, Xor3Of, Sigma, RotR, ShR, Rotate2, Rotate13, Rotate22;
    Rotate2Is(x);
    Rotate13Is(x);
    Rotate22Is(x);
    ValSigma(Rotate2(x), Rotate13(x), Rotate22(x));
  }

  function Sum1(x: bv32): bv32 { Xor3Of(Rotate6(x), Rotate11(x), Rotate25(x)) }

  lemma Sum1Is(x: bv32)
    ensures Val(x) < B && Val(Sum1(x)) == BSig1(Val(x))
  {
    hide Val, Xor3Of, Sigma, RotR, ShR, Rotate6, Rotate11, Rotate25;
    Rotate6Is(x);
    Rotate11Is(x);
    Rotate25Is(x);
    ValSigma(Rotate6(x), Rotate11(x), Rotate25(x));
  }

  function Mix0(x: bv32): bv32 { Xor3Of(Rotate7(x), Rotate18(x), Right2(Half(x))) }

  lemma Mix0Is(x: bv32)
    ensures Val(x) < B && Val(Mix0(x)) == SSig0(Val(x))
  {
    hide Val, Xor3Of, Sigma, RotR, ShR, Rotate7, Rotate18;
    Rotate7Is(x);
    Rotate18Is(x);
    hide Shr, Half, Double, Right2, Left2, Right4, Left4, Right8, Left8, Right16, Left16;
    RightsAre(x, 1, 2, 0, 0);
    ValShR(x, 3, Right2(Half(x)));
    ValSigma(Rotate7(x), Rotate18(x), Right2(Half(x)));
  }

  function Mix1(x: bv32): bv32 { Xor3Of(Rotate17(x), Rotate19(x), Right8(Right2(x))) }

  lemma Mix1Is(x: bv32)
    ensures Val(x) < B && Val(Mix1(x)) == SSig1(Val(x))
  {
    hide Val, Xor3Of, Sigma, RotR, ShR, Rotate17, Rotate19;
    Rotate17Is(x);
    Rotate19Is(x);
    hide Shr, Half, Double, Right2, Left2, Right4, Left4, Right8, Left8, Right16, Left16;
    RightsAre(x, 2, 8, 0, 0);
    ValShR(x, 10, Right8(Right2(x)));
    ValSigma(Rotate17(x), Rotate19(x), Right8(Right2(x)));
  }

  function Choose(x: bv32, y: bv32, z: bv32): bv32 { XorOf(AndOf(x, y), AndOf(NotOf(x), z)) }

  lemma ChooseIs(x: bv32, y: bv32, z: bv32)
    ensures Val(x) < B && Val(y) < B && Val(z) < B && Val(Choose(x, y, z)) == Ch(Val(x), Val(y), Val(z))
  {
    hide Val, XorOf, AndOf, NotOf, Xor, And;
    ValBound(x);
    ValBound(y);
    ValBound(z);
    ValNot(x);
    ValAnd(x, y);
    ValAnd(NotOf(x), z);
    ValXor(AndOf(x, y), AndOf(NotOf(x), z));
  }

  function Majority(x: bv32, y: bv32, z: bv32): bv32 { Xor3Of(AndOf(x, y), AndOf(x, z), AndOf(y, z)) }

  lemma MajorityIs(x: bv32, y: bv32, z: bv32)
    ensures Val(x) < B && Val(y) < B && Val(z) < B && Val(Majority(x, y, z)) == Maj(Val(x), Val(y), Val(z))
  {
    hide Val, XorOf, AndOf, Xor, And;
    ValBound(x);
    ValBound(y);
    ValBound(z);
    ValAnd(x, y);
    ValAnd(x, z);
    ValAnd(y, z);
    ValXor(AndOf(x, y), AndOf(x, z));
    ValXor(XorOf(AndOf(x, y), AndOf(x, z)), AndOf(y, z));
  }

  lemma PlusIs(x: bv32, y: bv32)
    ensures Val(x) < B && Val(y) < B && Val(PlusOf(x, y)) == Plus(Val(x), Val(y))
  {
    hide Val;
    ValBound(x);
    ValBound(y);
    ValPlus(x, y);
  }

  // ---------- Rounds ----------

  datatype Native = Native(a: bv32, b: bv32, c: bv32, d: bv32, e: bv32, f: bv32, g: bv32, h: bv32)

  function WordsOf(n: Native): Words {
    hide Val;
    ValBound(n.a);
    ValBound(n.b);
    ValBound(n.c);
    ValBound(n.d);
    ValBound(n.e);
    ValBound(n.f);
    ValBound(n.g);
    ValBound(n.h);
    Words(Val(n.a), Val(n.b), Val(n.c), Val(n.d), Val(n.e), Val(n.f), Val(n.g), Val(n.h))
  }

  function Temporary1(v: Native, k: bv32, w: bv32): bv32 {
    PlusOf(PlusOf(PlusOf(PlusOf(v.h, Sum1(v.e)), Choose(v.e, v.f, v.g)), k), w)
  }

  lemma Temporary1Is(v: Native, k: bv32, w: bv32)
    ensures Val(k) < B && Val(w) < B && Val(Temporary1(v, k, w)) == T1(WordsOf(v), Val(k), Val(w))
  {
    hide Val, PlusOf, Plus, Sum1, Choose, BSig1, Ch;
    var x1 := PlusOf(v.h, Sum1(v.e));
    var x2 := PlusOf(x1, Choose(v.e, v.f, v.g));
    Sum1Is(v.e);
    ChooseIs(v.e, v.f, v.g);
    PlusIs(v.h, Sum1(v.e));
    PlusIs(x1, Choose(v.e, v.f, v.g));
    PlusIs(x2, k);
    PlusIs(PlusOf(x2, k), w);
  }

  function Temporary2(v: Native): bv32 { PlusOf(Sum0(v.a), Majority(v.a, v.b, v.c)) }

  lemma Temporary2Is(v: Native)
    ensures Val(Temporary2(v)) == T2(WordsOf(v))
  {
    hide Val, PlusOf, Plus, Sum0, Majority, BSig0, Maj;
    Sum0Is(v.a);
    MajorityIs(v.a, v.b, v.c);
    PlusIs(Sum0(v.a), Majority(v.a, v.b, v.c));
  }

  function RoundOf(v: Native, k: bv32, w: bv32): Native {
    var t1 := Temporary1(v, k, w);
    Native(PlusOf(t1, Temporary2(v)), v.a, v.b, v.c, PlusOf(v.d, t1), v.e, v.f, v.g)
  }

  /** One round on machine words is one round of the standard. */
  lemma RoundIs(v: Native, k: bv32, w: bv32)
    ensures Val(k) < B && Val(w) < B && WordsOf(RoundOf(v, k, w)) == Round(WordsOf(v), Val(k), Val(w))
  {
    hide Val, PlusOf, Plus, Temporary1, Temporary2, T1, T2;
    Temporary1Is(v, k, w);
    Temporary2Is(v);
    PlusIs(Temporary1(v, k, w), Temporary2(v));
    PlusIs(v.d, Temporary1(v, k, w));
  }

  /** The next eight words of the message schedule, from the sixteen before them. */
  function NextRow(p: Native, q: Native): Native {
    var a := Scheduled(q.g, q.b, p.b, p.a);
    var b := Scheduled(q.h, q.c, p.c, p.b);
    var c := Scheduled(a, q.d, p.d, p.c);
    var d := Scheduled(b, q.e, p.e, p.d);
    var e := Scheduled(c, q.f, p.f, p.e);
    var f := Scheduled(d, q.g, p.g, p.f);
    var g := Scheduled(e, q.h, p.h, p.g);
    var h := Scheduled(f, a, q.a, p.h);
    Native(a, b, c, d, e, f, g, h)
  }

  function Scheduled(w2: bv32, w7: bv32, w15: bv32, w16: bv32): bv32 {
    PlusOf(PlusOf(PlusOf(Mix1(w2), w7), Mix0(w15)), w16)
  }

  lemma ScheduledIs(w2: bv32, w7: bv32, w15: bv32, w16: bv32)
    ensures Val(w2) < B && Val(w7) < B && Val(w15) < B && Val(w16) < B
    ensures Val(Scheduled(w2, w7, w15, w16))
            == Plus(Plus(Plus(SSig1(Val(w2)), Val(w7)), SSig0(Val(w15))), Val(w16))
  {
    hide Val, PlusOf, Plus, Mix0, Mix1, SSig0, SSig1;
    Mix1Is(w2);
    Mix0Is(w15);
    PlusIs(Mix1(w2), w7);
    PlusIs(PlusOf(Mix1(w2), w7), Mix0(w15));
    PlusIs(PlusOf(PlusOf(Mix1(w2), w7), Mix0(w15)), w16);
  }

  /** The eight words of the schedule from t on. */
  predicate RowIs(block: Bytes, t: nat, row: Native)
    requires |block| == 64 && t + 8 <= 64
  {
    && Schedule(block, t) == Val(row.a) && Schedule(block, t + 1) == Val(row.b)
    && Schedule(block, t + 2) == Val(row.c) && Schedule(block, t + 3) == Val(row.d)
    && Schedule(block, t + 4) == Val(row.e) && Schedule(block, t + 5) == Val(row.f)
    && Schedule(block, t + 6) == Val(row.g) && Schedule(block, t + 7) == Val(row.h)
  }

  lemma NextWord(block: Bytes, t: nat, w2: bv32, w7: bv32, w15: bv32, w16: bv32)
    requires |block| == 64 && 16 <= t < 64
    requires Schedule(block, t - 2) == Val(w2) && Schedule(block, t - 7) == Val(w7)
    requires Schedule(block, t - 15) == Val(w15) && Schedule(block, t - 16) == Val(w16)
    ensures Schedule(block, t) == Val(Scheduled(w2, w7, w15, w16))
  {
    hide Val, Scheduled, SSig0, SSig1, Plus;
    ScheduledIs(w2, w7, w15, w16);
  }

  lemma NextRowIs(block: Bytes, t: nat, p: Native, q: Native)
    requires |block| == 64 && t + 24 <= 64 && RowIs(block, t, p) && RowIs(block, t + 8, q)
    ensures RowIs(block, t + 16, NextRow(p, q))
  {
    hide Val, Scheduled, Schedule;
    var r := NextRow(p, q);
    NextWord(block, t + 16, q.g, q.b, p.b, p.a);
    NextWord(block, t + 17, q.h, q.c, p.c, p.b);
    NextWord(block, t + 18, r.a, q.d, p.d, p.c);
    NextWord(block, t + 19, r.b, q.e, p.e, p.d);
    NextWord(block, t + 20, r.c, q.f, p.f, p.e);
    NextWord(block, t + 21, r.d, q.g, p.g, p.f);
    NextWord(block, t + 22, r.e, q.h, p.h, p.g);
    NextWord(block, t + 23, r.f, r.a, q.a, p.h);
  }

  function FourRounds(v: Native, k0: bv32, k1: bv32, k2: bv32, k3: bv32, w0: bv32, w1: bv32, w2: bv32, w3: bv32)
    : Native
  {
    RoundOf(RoundOf(RoundOf(RoundOf(v, k0, w0), k1, w1), k2, w2), k3, w3)
  }

  /** Eight rounds, with a row of constants and a row of the schedule. */
  function EightRounds(v: Native, k: Native, w: Native): Native {
    var half := FourRounds(v, k.a, k.b, k.c, k.d, w.a, w.b, w.c, w.d);
    FourRounds(half, k.e, k.f, k.g, k.h, w.e, w.f, w.g, w.h)
  }

  lemma OneRound(start: Words, block: Bytes, t: nat, v: Native, k: bv32, w: bv32)
    requires |block| == 64 && t < 64 && Rounds(start, block, t) == WordsOf(v)
    requires K[t] == Val(k) && Schedule(block, t) == Val(w)
    ensures Rounds(start, block, t + 1) == WordsOf(RoundOf(v, k, w))
  {
    hide Val, Round, RoundOf, WordsOf, Schedule, K;
    RoundIs(v, k, w);
  }

  /** The row of constants from t on. */
  predicate KIs(t: nat, k: Native)
    requires t + 8 <= 64
  {
    && K[t] == Val(k.a) && K[t + 1] == Val(k.b) && K[t + 2] == Val(k.c) && K[t + 3] == Val(k.d)
    && K[t + 4] == Val(k.e) && K[t + 5] == Val(k.f) && K[t + 6] == Val(k.g) && K[t + 7] == Val(k.h)
  }

  lemma FourRoundsAre(
    start: Words, block: Bytes, t: nat, v: Native,
    k0: bv32, k1: bv32, k2: bv32, k3: bv32, w0: bv32, w1: bv32, w2: bv32, w3: bv32)
    requires |block| == 64 && t + 4 <= 64 && Rounds(start, block, t) == WordsOf(v)
    requires K[t] == Val(k0) && K[t + 1] == Val(k1) && K[t + 2] == Val(k2) && K[t + 3] == Val(k3)
    requires Schedule(block, t) == Val(w0) && Schedule(block, t + 1) == Val(w1)
    requires Schedule(block, t + 2) == Val(w2) && Schedule(block, t + 3) == Val(w3)
    ensures Rounds(start, block, t + 4) == WordsOf(FourRounds(v, k0, k1, k2, k3, w0, w1, w2, w3))
  {
    hide Val, RoundOf, WordsOf, Schedule, K, Rounds;
    var v1 := RoundOf(v, k0, w0);
    var v2 := RoundOf(v1, k1, w1);
    var v3 := RoundOf(v2, k2, w2);
    OneRound(start, block, t, v, k0, w0);
    OneRound(start, block, t + 1, v1, k1, w1);
    OneRound(start, block, t + 2, v2, k2, w2);
    OneRound(start, block, t + 3, v3, k3, w3);
  }

  lemma EightRoundsAre(start: Words, block: Bytes, t: nat, v: Native, k: Native, w: Native)
    requires |block| == 64 && t + 8 <= 64 && Rounds(start, block, t) == WordsOf(v)
    requires KIs(t, k) && RowIs(block, t, w)
    ensures Rounds(start, block, t + 8) == WordsOf(EightRounds(v, k, w))
  {
    hide Val, FourRounds, WordsOf, Schedule, K, Rounds;
    var half := FourRounds(v, k.a, k.b, k.c, k.d, w.a, w.b, w.c, w.d);
    FourRoundsAre(start, block, t, v, k.a, k.b, k.c, k.d, w.a, w.b, w.c, w.d);
    FourRoundsAre(start, block, t + 4, half, k.e, k.f, k.g, k.h, w.e, w.f, w.g, w.h);
  }

  function AddOf(x: Native, y: Native): Native {
    Native(PlusOf(x.a, y.a), PlusOf(x.b, y.b), PlusOf(x.c, y.c), PlusOf(x.d, y.d),
           PlusOf(x.e, y.e), PlusOf(x.f, y.f), PlusOf(x.g, y.g), PlusOf(x.h, y.h))
  }

  lemma AddIs(x: Native, y: Native)
    ensures WordsOf(AddOf(x, y)) == AddWords(WordsOf(x), WordsOf(y))
  {
    hide Val, PlusOf, Plus;
    PlusIs(x.a, y.a);
    PlusIs(x.b, y.b);
    PlusIs(x.c, y.c);
    PlusIs(x.d, y.d);
    PlusIs(x.e, y.e);
    PlusIs(x.f, y.f);
    PlusIs(x.g, y.g);
    PlusIs(x.h, y.h);
  }
}
