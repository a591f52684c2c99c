/** The example of the Secure Hash Standard: the three bytes of "abc" and their digest. */
module Sha256Sample {
  import opened Basics
  import opened Sha256Block
  import opened Sha256Stream
  import opened NativeWords
  import opened Sha256Native
  import opened Sha256Constants

  // ---------- The constants as machine words ----------

  /** The numbers that the words of a row are written as. */
  predicate Reads(r: Native, w: Words) {
    && Number(r.a) == w.a && Number(r.b) == w.b && Number(r.c) == w.c && Number(r.d) == w.d
    && Number(r.e) == w.e && Number(r.f) == w.f && Number(r.g) == w.g && Number(r.h) == w.h
  }

  lemma ReadsAre(r: Native, w: Words)
    requires Reads(r, w)
    ensures WordsOf(r) == w
  {
    hide Val, Number;
    ValIs(r.a);
    ValIs(r.b);
    ValIs(r.c);
    ValIs(r.d);
    ValIs(r.e);
    ValIs(r.f);
    ValIs(r.g);
    ValIs(r.h);
  }

  const N0 := Native(0x428a2f98, 0x71374491, 0xb5c0fbcf, 0xe9b5dba5, 0x3956c25b, 0x59f111f1, 0x923f82a4, 0xab1c5ed5)
  const N1 := Native(0xd807aa98, 0x12835b01, 0x243185be, 0x550c7dc3, 0x72be5d74, 0x80deb1fe, 0x9bdc06a7, 0xc19bf174)
  const N2 := Native(0xe49b69c1, 0xefbe4786, 0x0fc19dc6, 0x240ca1cc, 0x2de92c6f, 0x4a7484aa, 0x5cb0a9dc, 0x76f988da)
  const N3 := Native(0x983e5152, 0xa831c66d, 0xb00327c8, 0xbf597fc7, 0xc6e00bf3, 0xd5a79147, 0x06ca6351, 0x14292967)
  const N4 := Native(0x27b70a85, 0x2e1b2138, 0x4d2c6dfc, 0x53380d13, 0x650a7354, 0x766a0abb, 0x81c2c92e, 0x92722c85)
  const N5 := Native(0xa2bfe8a1, 0xa81a664b, 0xc24b8b70, 0xc76c51a3, 0xd192e819, 0xd6990624, 0xf40e3585, 0x106aa070)
  const N6 := Native(0x19a4c116, 0x1e376c08, 0x2748774c, 0x34b0bcb5, 0x391c0cb3, 0x4ed8aa4a, 0x5b9cca4f, 0x682e6ff3)
  const N7 := Native(0x748f82ee, 0x78a5636f, 0x84c87814, 0x8cc70208, 0x90befffa, 0xa4506ceb, 0xbef9a3f7, 0xc67178f2)

  const NATIVE_INITIAL := Native(0x6a09e667, 0xbb67ae85, 0x3c6ef372, 0xa54ff53a,
    0x510e527f, 0x9b05688c, 0x1f83d9ab, 0x5be0cd19)

  lemma InitialReads()
    ensures WordsOf(NATIVE_INITIAL) == INITIAL
  {
    hide WordsOf;
    ReadsAre(NATIVE_INITIAL, INITIAL);
  }

  lemma EarlyRowsRead()
    ensures WordsOf(N0) == K0 && WordsOf(N1) == K1 && WordsOf(N2) == K2 && WordsOf(N3) == K3
  {
    hide WordsOf;
    ReadsAre(N0, K0);
    ReadsAre(N1, K1);
    ReadsAre(N2, K2);
    ReadsAre(N3, K3);
  }

  lemma LateRowsRead()
    ensures WordsOf(N4) == K4 && WordsOf(N5) == K5 && WordsOf(N6) == K6 && WordsOf(N7) == K7
  {
    hide WordsOf;
    ReadsAre(N4, K4);
    ReadsAre(N5, K5);
    ReadsAre(N6, K6);
    ReadsAre(N7, K7);
  }

  lemma KRow(j: nat, k: Native)
    requires j < 8 && WordsOf(k) == RowOfK(j)
    ensures KIs(8 * j, k)
  {
    hide K, Val, RowOfK;
    KAt(j, 0);
    KAt(j, 1);
    KAt(j, 2);
    KAt(j, 3);
    KAt(j, 4);
    KAt(j, 5);
    KAt(j, 6);
    KAt(j, 7);
  }

  // ---------- The block ----------

  /** "abc", padded. */
  const BLOCK: Bytes := Padded(Chars("abc"))

  const W0 := Native(0x61626380, 0x00000000, 0x00000000, 0x00000000, 0x00000000, 0x00000000, 0x00000000, 0x00000000)
  const W1 := Native(0x00000000, 0x00000000, 0x00000000, 0x00000000, 0x00000000, 0x00000000, 0x00000000, 0x00000018)
  const W2 := Native(0x61626380, 0x000f0000, 0x7da86405, 0x600003c6, 0x3e9d7b78, 0x0183fc00, 0x12dcbfdb, 0xe2e2c38e)
  const W3 := Native(0xc8215c1a, 0xb73679a2, 0xe5bc3909, 0x32663c5b, 0x9d209d67, 0xec8726cb, 0x702138a4, 0xd3b7973b)
  const W4 := Native(0x93f5997f, 0x3b68ba73, 0xaff4ffc1, 0xf10a5c62, 0x0a8b3996, 0x72af830a, 0x9409e33e, 0x24641522)
  const W5 := Native(0x9f47bf94, 0xf0a64f5a, 0x3e246a79, 0x27333ba3, 0x0c4763f2, 0x840abf27, 0x7a290d5d, 0x065c43da)
  const W6 := Native(0xfb3e89cb, 0xcc7617db, 0xb9e66c34, 0xa9993667, 0x84badedd, 0xc21462bc, 0x1487472c, 0xb20f7a99)
  const W7 := Native(0xef57b9cd, 0xebe6b238, 0x9fe3095e, 0x78bc8d4b, 0xa43fcf15, 0x668b2ff8, 0xeeaba2cc, 0x12b1edeb)

  const S0 := NATIVE_INITIAL
  const S1 := Native(0x85a07b5f, 0xe5030380, 0x2b4209f5, 0x04409a6a, 0x0c657a79, 0x9b27a401, 0x714260ad, 0x43ada245)
  const S2 := Native(0xb0fa238e, 0xc0645fde, 0xd932eb16, 0x87912990, 0x07590dcd, 0x0b92f20c, 0x745a48de, 0x1e578218)
  const S3 := Native(0xc5d53d8d, 0xa7a3623f, 0xc2606d6d, 0x9dc68b63, 0xaa47c347, 0x49f5114a, 0xe1257970, 0x8ada8930)
  const S4 := Native(0x73b33bf5, 0xea992a22, 0xa0060b30, 0x363482c9, 0xba591112, 0x0109ab3a, 0xade79437, 0x6112a3b7)
  const S5 := Native(0x79ea687a, 0x6dc57a8a, 0x34df1604, 0x41a65cb1, 0x1efbc0a0, 0xf0781bc8, 0xa507a53d, 0x0772a26b)
  const S6 := Native(0x4172328d, 0xa14c14b0, 0x72ab4b91, 0x26628815, 0xfecf0bc6, 0xd57b94a9, 0xb7755da1, 0xa80f11f0)
  const S7 := Native(0x38cc9913, 0x3ec45cdb, 0xf5702fdb, 0x101fd28f, 0x54cb266b, 0xe50e1b4f, 0x9f4787c3, 0x529e7d00)
  const S8 := Native(0x506e3058, 0xd39a2165, 0x04d24d6c, 0xb85e2ce9, 0x5ef50f24, 0xfb121210, 0x948d25b6, 0x961f4894)

  lemma BlockBytes()
    ensures |BLOCK| == 64 && BLOCK[..4] == [97, 98, 99, 128] && BLOCK[63] == 24
    ensures forall k :: 4 <= k < 63 ==> BLOCK[k] == 0
  {
    assert BigEndianBytes(24, 8) == [0, 0, 0, 0, 0, 0, 0, 24] by {
      LengthBytes();
    }
    hide BigEndianBytes;
    assert Chars("abc") == [97, 98, 99];
    assert BLOCK == [97, 98, 99] + ([128] + Zeros(52) + [0, 0, 0, 0, 0, 0, 0, 24]);
  }

  lemma LengthBytes()
    ensures BigEndianBytes(24, 8) == [0, 0, 0, 0, 0, 0, 0, 24]
  {
    assert BigEndianBytes(0, 0) == [];
    assert BigEndianBytes(0, 1) == [0];
    assert BigEndianBytes(0, 2) == [0, 0];
    assert BigEndianBytes(0, 3) == [0, 0, 0];
    assert BigEndianBytes(0, 4) == [0, 0, 0, 0];
    assert BigEndianBytes(0, 5) == [0, 0, 0, 0, 0];
    assert BigEndianBytes(0, 6) == [0, 0, 0, 0, 0, 0];
    assert BigEndianBytes(0, 7) == [0, 0, 0, 0, 0, 0, 0];
  }

  lemma EarlyWord(block: Bytes, t: nat)
    requires |block| == 64 && t < 16
    ensures Schedule(block, t) == BigEndian(block[4 * t], block[4 * t + 1], block[4 * t + 2], block[4 * t + 3])
  {
  }

  lemma FirstRows()
    ensures |BLOCK| == 64 && RowIs(BLOCK, 0, W0) && RowIs(BLOCK, 8, W1)
  {
    BlockBytes();
    hide Val, BLOCK, Schedule;
    ValIs(0);
    ValIs(0x6162_6380);
    ValIs(0x18);
    assert Val(0) == 0 && Val(0x6162_6380) == 0x6162_6380 && Val(0x18) == 0x18;
    hide Number;
    assert BLOCK[..4][0] == 97 && BLOCK[..4][1] == 98 && BLOCK[..4][2] == 99 && BLOCK[..4][3] == 128;
    forall t: nat | t < 16
      ensures Schedule(BLOCK, t) == if t == 0 then 0x6162_6380 else if t == 15 then 0x18 else 0
    {
      EarlyWord(BLOCK, t);
    }
  }

  /** Most of the first sixteen words are 0. */
  lemma Mixes()
    ensures Mix0(0) == 0 && Mix1(0) == 0 && Mix1(0x18) == 0x000f0000
    ensures Mix1(W2.a) == 0x7da86405 && Mix1(W2.b) == 0x600003c6 && Mix1(W2.c) == 0x3e9d7b78
    ensures Mix1(W2.d) == 0x0183fc00 && Mix1(W2.e) == 0x12dcbfc3 && Mix1(W2.f) == 0x8180600e
  {
  }

  lemma MoreMixes()
    ensures Mix0(0x18) == 0x30060003 && Mix0(W2.a) == 0x940e90ef && Mix1(W2.g) == 0xc8125c1a && Mix1(W2.h) == 0x398e159d
    ensures Mix1(W3.a) == 0x85bc3543 && Mix1(W3.b) == 0xf3c8c0e3 && Mix1(W3.c) == 0x9b9ca167
    ensures Mix1(W3.d) == 0xd9aa66f0 && Mix1(W3.e) == 0x5d387513 && Mix1(W3.f) == 0x7787aa1a
  {
  }

  lemma Words2()
    ensures Scheduled(W1.g, W1.b, W0.b, W0.a) == W2.a
    ensures Scheduled(W1.h, W1.c, W0.c, W0.b) == W2.b
    ensures Scheduled(W2.a, W1.d, W0.d, W0.c) == W2.c
    ensures Scheduled(W2.b, W1.e, W0.e, W0.d) == W2.d
  {
    Mixes();
    MoreMixes();
    hide Mix0, Mix1;
  }

  lemma MoreWords2()
    ensures Scheduled(W2.c, W1.f, W0.f, W0.e) == W2.e
    ensures Scheduled(W2.d, W1.g, W0.g, W0.f) == W2.f
    ensures Scheduled(W2.e, W1.h, W0.h, W0.g) == W2.g
    ensures Scheduled(W2.f, W2.a, W1.a, W0.h) == W2.h
  {
    Mixes();
    MoreMixes();
    hide Mix0, Mix1;
  }

  lemma Row2()
    ensures NextRow(W0, W1) == W2
  {
    hide Scheduled;
    Words2();
    MoreWords2();
  }

  lemma Words3()
    ensures Scheduled(W2.g, W2.b, W1.b, W1.a) == W3.a
    ensures Scheduled(W2.h, W2.c, W1.c, W1.b) == W3.b
    ensures Scheduled(W3.a, W2.d, W1.d, W1.c) == W3.c
    ensures Scheduled(W3.b, W2.e, W1.e, W1.d) == W3.d
  {
    Mixes();
    MoreMixes();
    hide Mix0, Mix1;
  }

  lemma MoreWords3()
    ensures Scheduled(W3.c, W2.f, W1.f, W1.e) == W3.e
    ensures Scheduled(W3.d, W2.g, W1.g, W1.f) == W3.f
    ensures Scheduled(W3.e, W2.h, W1.h, W1.g) == W3.g
    ensures Scheduled(W3.f, W3.a, W2.a, W1.h) == W3.h
  {
    Mixes();
    MoreMixes();
    hide Mix0, Mix1;
  }

  lemma Row3()
    ensures NextRow(W1, W2) == W3
  {
    hide Scheduled;
    Words3();
    MoreWords3();
  }

  lemma Words4()
    ensures Scheduled(W3.g, W3.b, W2.b, W2.a) == W4.a
    ensures Scheduled(W3.h, W3.c, W2.c, W2.b) == W4.b
    ensures Scheduled(W4.a, W3.d, W2.d, W2.c) == W4.c
    ensures Scheduled(W4.b, W3.e, W2.e, W2.d) == W4.d
  {
  }

  lemma MoreWords4()
    ensures Scheduled(W4.c, W3.f, W2.f, W2.e) == W4.e
    ensures Scheduled(W4.d, W3.g, W2.g, W2.f) == W4.f
    ensures Scheduled(W4.e, W3.h, W2.h, W2.g) == W4.g
    ensures Scheduled(W4.f, W4.a, W3.a, W2.h) == W4.h
  {
  }

  lemma Row4()
    ensures NextRow(W2, W3) == W4
  {
    hide Scheduled;
    Words4();
    MoreWords4();
  }

  lemma Words5()
    ensures Scheduled(W4.g, W4.b, W3.b, W3.a) == W5.a
    ensures Scheduled(W4.h, W4.c, W3.c, W3.b) == W5.b
    ensures Scheduled(W5.a, W4.d, W3.d, W3.c) == W5.c
    ensures Scheduled(W5.b, W4.e, W3.e, W3.d) == W5.d
  {
  }

  lemma MoreWords5()
    ensures Scheduled(W5.c, W4.f, W3.f, W3.e) == W5.e
    ensures Scheduled(W5.d, W4.g, W3.g, W3.f) == W5.f
    ensures Scheduled(W5.e, W4.h, W3.h, W3.g) == W5.g
    ensures Scheduled(W5.f, W5.a, W4.a, W3.h) == W5.h
  {
  }

  lemma Row5()
    ensures NextRow(W3, W4) == W5
  {
    hide Scheduled;
    Words5();
    MoreWords5();
  }

  lemma Words6()
    ensures Scheduled(W5.g, W5.b, W4.b, W4.a) == W6.a
    ensures Scheduled(W5.h, W5.c, W4.c, W4.b) == W6.b
    ensures Scheduled(W6.a, W5.d, W4.d, W4.c) == W6.c
    ensures Scheduled(W6.b, W5.e, W4.e, W4.d) == W6.d
  {
  }

  lemma MoreWords6()
    ensures Scheduled(W6.c, W5.f, W4.f, W4.e) == W6.e
    ensures Scheduled(W6.d, W5.g, W4.g, W4.f) == W6.f
    ensures Scheduled(W6.e, W5.h, W4.h, W4.g) == W6.g
    ensures Scheduled(W6.f, W6.a, W5.a, W4.h) == W6.h
  {
  }

  lemma Row6()
    ensures NextRow(W4, W5) == W6
  {
    hide Scheduled;
    Words6();
    MoreWords6();
  }

  lemma Words7()
    ensures Scheduled(W6.g, W6.b, W5.b, W5.a) == W7.a
    ensures Scheduled(W6.h, W6.c, W5.c, W5.b) == W7.b
    ensures Scheduled(W7.a, W6.d, W5.d, W5.c) == W7.c
    ensures Scheduled(W7.b, W6.e, W5.e, W5.d) == W7.d
  {
  }

  lemma MoreWords7()
    ensures Scheduled(W7.c, W6.f, W5.f, W5.e) == W7.e
    ensures Scheduled(W7.d, W6.g, W5.g, W5.f) == W7.f
    ensures Scheduled(W7.e, W6.h, W5.h, W5.g) == W7.g
    ensures Scheduled(W7.f, W7.a, W6.a, W5.h) == W7.h
  {
  }

  lemma Row7()
    ensures NextRow(W5, W6) == W7
  {
    hide Scheduled;
    Words7();
    MoreWords7();
  }

  predicate AllRows(block: Bytes)
    requires |block| == 64
  {
    && RowIs(block, 0, W0) && RowIs(block, 8, W1) && RowIs(block, 16, W2) && RowIs(block, 24, W3)
    && RowIs(block, 32, W4) && RowIs(block, 40, W5) && RowIs(block, 48, W6) && RowIs(block, 56, W7)
  }

  lemma RowsOfBlock(block: Bytes)
    requires |block| == 64 && RowIs(block, 0, W0) && RowIs(block, 8, W1)
    ensures AllRows(block)
  {
    hide RowIs, NextRow, W0, W1, W2, W3, W4, W5, W6, W7;
    Row2();
    NextRowIs(block, 0, W0, W1);
    Row3();
    NextRowIs(block, 8, W1, W2);
    Row4();
    NextRowIs(block, 16, W2, W3);
    Row5();
    NextRowIs(block, 24, W3, W4);
    Row6();
    NextRowIs(block, 32, W4, W5);
    Row7();
    NextRowIs(block, 40, W5, W6);
  }

  lemma Rounds0()
    ensures EightRounds(S0, N0, W0) == S1
  {
    var v1 := Native(0x5d6aebcd, S0.a, S0.b, S0.c, 0xfa2a4622, S0.e, S0.f, S0.g);
    assert RoundOf(S0, N0.a, W0.a) == v1;
    var v2 := Native(0x5a6ad9ad, v1.a, v1.b, v1.c, 0x78ce7989, v1.e, v1.f, v1.g);
    assert RoundOf(v1, N0.b, W0.b) == v2;
    var v3 := Native(0xc8c347a7, v2.a, v2.b, v2.c, 0xf92939eb, v2.e, v2.f, v2.g);
    assert RoundOf(v2, N0.c, W0.c) == v3;
    var v4 := Native(0xd550f666, v3.a, v3.b, v3.c, 0x24e00850, v3.e, v3.f, v3.g);
    assert RoundOf(v3, N0.d, W0.d) == v4;
    var v5 := Native(0x04409a6a, v4.a, v4.b, v4.c, 0x43ada245, v4.e, v4.f, v4.g);
    assert RoundOf(v4, N0.e, W0.e) == v5;
    var v6 := Native(0x2b4209f5, v5.a, v5.b, v5.c, 0x714260ad, v5.e, v5.f, v5.g);
    assert RoundOf(v5, N0.f, W0.f) == v6;
    var v7 := Native(0xe5030380, v6.a, v6.b, v6.c, 0x9b27a401, v6.e, v6.f, v6.g);
    assert RoundOf(v6, N0.g, W0.g) == v7;
    assert RoundOf(v7, N0.h, W0.h) == S1;
    hide RoundOf;
  }

  lemma Rounds1()
    ensures EightRounds(S1, N1, W1) == S2
  {
    var v1 := Native(0x8e04ecb9, S1.a, S1.b, S1.c, 0x32ca2d8c, S1.e, S1.f, S1.g);
    assert RoundOf(S1, N1.a, W1.a) == v1;
    var v2 := Native(0x8c87346b, v1.a, v1.b, v1.c, 0x1cc92596, v1.e, v1.f, v1.g);
    assert RoundOf(v1, N1.b, W1.b) == v2;
    var v3 := Native(0x4798a3f4, v2.a, v2.b, v2.c, 0x436b23e8, v2.e, v2.f, v2.g);
    assert RoundOf(v2, N1.c, W1.c) == v3;
    var v4 := Native(0xf71fc5a9, v3.a, v3.b, v3.c, 0x816fd6e9, v3.e, v3.f, v3.g);
    assert RoundOf(v3, N1.d, W1.d) == v4;
    var v5 := Native(0x87912990, v4.a, v4.b, v4.c, 0x1e578218, v4.e, v4.f, v4.g);
    assert RoundOf(v4, N1.e, W1.e) == v5;
    var v6 := Native(0xd932eb16, v5.a, v5.b, v5.c, 0x745a48de, v5.e, v5.f, v5.g);
    assert RoundOf(v5, N1.f, W1.f) == v6;
    var v7 := Native(0xc0645fde, v6.a, v6.b, v6.c, 0x0b92f20c, v6.e, v6.f, v6.g);
    assert RoundOf(v6, N1.g, W1.g) == v7;
    assert RoundOf(v7, N1.h, W1.h) == S2;
    hide RoundOf;
  }

  lemma Rounds2()
    ensures EightRounds(S2, N2, W2) == S3
  {
    var v1 := Native(0x21da9a9b, S2.a, S2.b, S2.c, 0x8034229c, S2.e, S2.f, S2.g);
    assert RoundOf(S2, N2.a, W2.a) == v1;
    var v2 := Native(0xc2fbd9d1, v1.a, v1.b, v1.c, 0x846ee454, v1.e, v1.f, v1.g);
    assert RoundOf(v1, N2.b, W2.b) == v2;
    var v3 := Native(0xfe777bbf, v2.a, v2.b, v2.c, 0xcc899961, v2.e, v2.f, v2.g);
    assert RoundOf(v2, N2.c, W2.c) == v3;
    var v4 := Native(0xe1f20c33, v3.a, v3.b, v3.c, 0xb0638179, v3.e, v3.f, v3.g);
    assert RoundOf(v3, N2.d, W2.d) == v4;
    var v5 := Native(0x9dc68b63, v4.a, v4.b, v4.c, 0x8ada8930, v4.e, v4.f, v4.g);
    assert RoundOf(v4, N2.e, W2.e) == v5;
    var v6 := Native(0xc2606d6d, v5.a, v5.b, v5.c, 0xe1257970, v5.e, v5.f, v5.g);
    assert RoundOf(v5, N2.f, W2.f) == v6;
    var v7 := Native(0xa7a3623f, v6.a, v6.b, v6.c, 0x49f5114a, v6.e, v6.f, v6.g);
    assert RoundOf(v6, N2.g, W2.g) == v7;
    assert RoundOf(v7, N2.h, W2.h) == S3;
    hide RoundOf;
  }

  lemma Rounds3()
    ensures EightRounds(S3, N3, W3) == S4
  {
    var v1 := Native(0x1c2c2838, S3.a, S3.b, S3.c, 0x2823ef91, S3.e, S3.f, S3.g);
    assert RoundOf(S3, N3.a, W3.a) == v1;
    var v2 := Native(0xcde8037d, v1.a, v1.b, v1.c, 0x14383d8e, v1.e, v1.f, v1.g);
    assert RoundOf(v1, N3.b, W3.b) == v2;
    var v3 := Native(0xb62ec4bc, v2.a, v2.b, v2.c, 0xc74c6516, v2.e, v2.f, v2.g);
    assert RoundOf(v2, N3.c, W3.c) == v3;
    var v4 := Native(0x77d37528, v3.a, v3.b, v3.c, 0xedffbff8, v3.e, v3.f, v3.g);
    assert RoundOf(v3, N3.d, W3.d) == v4;
    var v5 := Native(0x363482c9, v4.a, v4.b, v4.c, 0x6112a3b7, v4.e, v4.f, v4.g);
    assert RoundOf(v4, N3.e, W3.e) == v5;
    var v6 := Native(0xa0060b30, v5.a, v5.b, v5.c, 0xade79437, v5.e, v5.f, v5.g);
    assert RoundOf(v5, N3.f, W3.f) == v6;
    var v7 := Native(0xea992a22, v6.a, v6.b, v6.c, 0x0109ab3a, v6.e, v6.f, v6.g);
    assert RoundOf(v6, N3.g, W3.g) == v7;
    assert RoundOf(v7, N3.h, W3.h) == S4;
    hide RoundOf;
  }

  lemma Rounds4()
    ensures EightRounds(S4, N4, W4) == S5
  {
    var v1 := Native(0x98e12507, S4.a, S4.b, S4.c, 0x9cd9f5f6, S4.e, S4.f, S4.g);
    assert RoundOf(S4, N4.a, W4.a) == v1;
    var v2 := Native(0xfe604df5, v1.a, v1.b, v1.c, 0x59249dd3, v1.e, v1.f, v1.g);
    assert RoundOf(v1, N4.b, W4.b) == v2;
    var v3 := Native(0xa9a7738c, v2.a, v2.b, v2.c, 0x085f3833, v2.e, v2.f, v2.g);
    assert RoundOf(v2, N4.c, W4.c) == v3;
    var v4 := Native(0x65a0cfe4, v3.a, v3.b, v3.c, 0xf4b002d6, v3.e, v3.f, v3.g);
    assert RoundOf(v3, N4.d, W4.d) == v4;
    var v5 := Native(0x41a65cb1, v4.a, v4.b, v4.c, 0x0772a26b, v4.e, v4.f, v4.g);
    assert RoundOf(v4, N4.e, W4.e) == v5;
    var v6 := Native(0x34df1604, v5.a, v5.b, v5.c, 0xa507a53d, v5.e, v5.f, v5.g);
    assert RoundOf(v5, N4.f, W4.f) == v6;
    var v7 := Native(0x6dc57a8a, v6.a, v6.b, v6.c, 0xf0781bc8, v6.e, v6.f, v6.g);
    assert RoundOf(v6, N4.g, W4.g) == v7;
    assert RoundOf(v7, N4.h, W4.h) == S5;
    hide RoundOf;
  }

  lemma Rounds5()
    ensures EightRounds(S5, N5, W5) == S6
  {
    var v1 := Native(0xd6670766, S5.a, S5.b, S5.c, 0x26352d63, S5.e, S5.f, S5.g);
    assert RoundOf(S5, N5.a, W5.a) == v1;
    var v2 := Native(0xdf46652f, v1.a, v1.b, v1.c, 0x838b2711, v1.e, v1.f, v1.g);
    assert RoundOf(v1, N5.b, W5.b) == v2;
    var v3 := Native(0x17aa0dfe, v2.a, v2.b, v2.c, 0xdecd4715, v2.e, v2.f, v2.g);
    assert RoundOf(v2, N5.c, W5.c) == v3;
    var v4 := Native(0x9d4baf93, v3.a, v3.b, v3.c, 0xfda24c2e, v3.e, v3.f, v3.g);
    assert RoundOf(v3, N5.d, W5.d) == v4;
    var v5 := Native(0x26628815, v4.a, v4.b, v4.c, 0xa80f11f0, v4.e, v4.f, v4.g);
    assert RoundOf(v4, N5.e, W5.e) == v5;
    var v6 := Native(0x72ab4b91, v5.a, v5.b, v5.c, 0xb7755da1, v5.e, v5.f, v5.g);
    assert RoundOf(v5, N5.f, W5.f) == v6;
    var v7 := Native(0xa14c14b0, v6.a, v6.b, v6.c, 0xd57b94a9, v6.e, v6.f, v6.g);
    assert RoundOf(v6, N5.g, W5.g) == v7;
    assert RoundOf(v7, N5.h, W5.h) == S6;
    hide RoundOf;
  }

  lemma Rounds6()
    ensures EightRounds(S6, N6, W6) == S7
  {
    var v1 := Native(0x05757ceb, S6.a, S6.b, S6.c, 0xbd714038, S6.e, S6.f, S6.g);
    assert RoundOf(S6, N6.a, W6.a) == v1;
    var v2 := Native(0xf11bfaa8, v1.a, v1.b, v1.c, 0x6e5c390c, v1.e, v1.f, v1.g);
    assert RoundOf(v1, N6.b, W6.b) == v2;
    var v3 := Native(0x7a0508a1, v2.a, v2.b, v2.c, 0x52f1ccf7, v2.e, v2.f, v2.g);
    assert RoundOf(v2, N6.c, W6.c) == v3;
    var v4 := Native(0x886e7a22, v3.a, v3.b, v3.c, 0x49231c1e, v3.e, v3.f, v3.g);
    assert RoundOf(v3, N6.d, W6.d) == v4;
    var v5 := Native(0x101fd28f, v4.a, v4.b, v4.c, 0x529e7d00, v4.e, v4.f, v4.g);
    assert RoundOf(v4, N6.e, W6.e) == v5;
    var v6 := Native(0xf5702fdb, v5.a, v5.b, v5.c, 0x9f4787c3, v5.e, v5.f, v5.g);
    assert RoundOf(v5, N6.f, W6.f) == v6;
    var v7 := Native(0x3ec45cdb, v6.a, v6.b, v6.c, 0xe50e1b4f, v6.e, v6.f, v6.g);
    assert RoundOf(v6, N6.g, W6.g) == v7;
    assert RoundOf(v7, N6.h, W6.h) == S7;
    hide RoundOf;
  }

  lemma Rounds7()
    ensures EightRounds(S7, N7, W7) == S8
  {
    var v1 := Native(0xfcd1887b, S7.a, S7.b, S7.c, 0x9b5e906c, S7.e, S7.f, S7.g);
    assert RoundOf(S7, N7.a, W7.a) == v1;
    var v2 := Native(0xc062d46f, v1.a, v1.b, v1.c, 0x7e44008e, v1.e, v1.f, v1.g);
    assert RoundOf(v1, N7.b, W7.b) == v2;
    var v3 := Native(0xffb70472, v2.a, v2.b, v2.c, 0x6d83bfc6, v2.e, v2.f, v2.g);
    assert RoundOf(v2, N7.c, W7.c) == v3;
    var v4 := Native(0xb6ae8fff, v3.a, v3.b, v3.c, 0xb21bad3d, v3.e, v3.f, v3.g);
    assert RoundOf(v3, N7.d, W7.d) == v4;
    var v5 := Native(0xb85e2ce9, v4.a, v4.b, v4.c, 0x961f4894, v4.e, v4.f, v4.g);
    assert RoundOf(v4, N7.e, W7.e) == v5;
    var v6 := Native(0x04d24d6c, v5.a, v5.b, v5.c, 0x948d25b6, v5.e, v5.f, v5.g);
    assert RoundOf(v5, N7.f, W7.f) == v6;
    var v7 := Native(0xd39a2165, v6.a, v6.b, v6.c, 0xfb121210, v6.e, v6.f, v6.g);
    assert RoundOf(v6, N7.g, W7.g) == v7;
    assert RoundOf(v7, N7.h, W7.h) == S8;
    hide RoundOf;
  }

  lemma NoRounds(block: Bytes)
    requires |block| == 64
    ensures Rounds(INITIAL, block, 0) == WordsOf(S0)
  {
    hide WordsOf, INITIAL, NATIVE_INITIAL;
    InitialReads();
  }

  lemma FirstRounds(block: Bytes)
    requires |block| == 64 && AllRows(block)
    ensures Rounds(INITIAL, block, 16) == WordsOf(S2)
  {
    hide WordsOf, EightRounds, RowIs, KIs, INITIAL;
    hide N0, N1, N2, N3, N4, N5, N6, N7, K0, K1, K2, K3, K4, K5, K6, K7;
    hide W0, W1, W2, W3, W4, W5, W6, W7, S0, S1, S2;
    NoRounds(block);
    hide Rounds;
    EarlyRowsRead();
    KRow(0, N0);
    Rounds0();
    EightRoundsAre(INITIAL, block, 0, S0, N0, W0);
    KRow(1, N1);
    Rounds1();
    EightRoundsAre(INITIAL, block, 8, S1, N1, W1);
  }

  lemma MoreRounds(block: Bytes)
    requires |block| == 64 && AllRows(block)
    ensures Rounds(INITIAL, block, 32) == WordsOf(S4)
  {
    hide WordsOf, EightRounds, RowIs, KIs, INITIAL;
    hide N0, N1, N2, N3, N4, N5, N6, N7, K0, K1, K2, K3, K4, K5, K6, K7;
    hide W0, W1, W2, W3, W4, W5, W6, W7, S2, S3, S4;
    FirstRounds(block);
    hide Rounds;
    EarlyRowsRead();
    KRow(2, N2);
    Rounds2();
    EightRoundsAre(INITIAL, block, 16, S2, N2, W2);
    KRow(3, N3);
    Rounds3();
    EightRoundsAre(INITIAL, block, 24, S3, N3, W3);
  }

  lemma LaterRounds(block: Bytes)
    requires |block| == 64 && AllRows(block)
    ensures Rounds(INITIAL, block, 48) == WordsOf(S6)
  {
    hide WordsOf, EightRounds, RowIs, KIs, INITIAL;
    hide N0, N1, N2, N3, N4, N5, N6, N7, K0, K1, K2, K3, K4, K5, K6, K7;
    hide W0, W1, W2, W3, W4, W5, W6, W7, S4, S5, S6;
    MoreRounds(block);
    hide Rounds;
    LateRowsRead();
    KRow(4, N4);
    Rounds4();
    EightRoundsAre(INITIAL, block, 32, S4, N4, W4);
    KRow(5, N5);
    Rounds5();
    EightRoundsAre(INITIAL, block, 40, S5, N5, W5);
  }

  lemma LastRounds(block: Bytes)
    requires |block| == 64 && AllRows(block)
    ensures Rounds(INITIAL, block, 64) == WordsOf(S8)
  {
    hide WordsOf, EightRounds, RowIs, KIs, INITIAL;
    hide N0, N1, N2, N3, N4, N5, N6, N7, K0, K1, K2, K3, K4, K5, K6, K7;
    hide W0, W1, W2, W3, W4, W5, W6, W7, S6, S7, S8;
    LaterRounds(block);
    hide Rounds;
    LateRowsRead();
    KRow(6, N6);
    Rounds6();
    EightRoundsAre(INITIAL, block, 48, S6, N6, W6);
    KRow(7, N7);
    Rounds7();
    EightRoundsAre(INITIAL, block, 56, S7, N7, W7);
  }

  const ABC_DIGEST := Words(0xba7816bf, 0x8f01cfea, 0x414140de, 0x5dae2223,
    0xb00361a3, 0x96177a9c, 0xb410ff61, 0xf20015ad)

  const DIGEST := Native(0xba7816bf, 0x8f01cfea, 0x414140de, 0x5dae2223, 0xb00361a3, 0x96177a9c, 0xb410ff61, 0xf20015ad)

  lemma DigestReads()
    ensures WordsOf(DIGEST) == ABC_DIGEST && AddOf(NATIVE_INITIAL, S8) == DIGEST
  {
    ReadsAre(DIGEST, ABC_DIGEST);
  }

  lemma OneBlock(block: Bytes)
    requires |block| == 64
    ensures FoldBlocks(INITIAL, block) == AddWords(INITIAL, Rounds(INITIAL, block, 64))
  {
    hide Rounds, INITIAL, AddWords;
    assert block[..64] == block && block[64..] == [];
  }

  /** The digest of "abc", as the standard gives it. */
  lemma DigestOfAbc()
    ensures Sha256(Chars("abc")) == ABC_DIGEST
  {
    FirstRows();
    hide BLOCK, RowIs;
    RowsOfBlock(BLOCK);
    LastRounds(BLOCK);
    InitialReads();
    DigestReads();
    hide Rounds, INITIAL, WordsOf, AddOf, AddWords, ABC_DIGEST, DIGEST, NATIVE_INITIAL, S8;
    AddIs(NATIVE_INITIAL, S8);
    OneBlock(BLOCK);
    hide FoldBlocks;
    BlockIsPadded();
  }

  lemma BlockIsPadded()
    ensures BLOCK == Padded(Chars("abc"))
  {
  }
}
