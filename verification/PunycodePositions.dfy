/**
  * Where the decoder's 32-bit position stands at each insertion, read off the code points alone.
  *
  * An insertion point (n, i) says that the i-th of the code points that are at most n is n itself.
  */
module PunycodePositions {
  import opened Basics
  import opened Arithmetic
  import opened PunycodeDigits
  import opened PunycodeStates
  import opened Punycode

  ghost predicate InsertionPoint(cps: seq<nat>, n: nat, i: nat) {
    i < |Lt(cps, n + 1)| && Lt(cps, n + 1)[i] == n
  }

  /** The code point inserted just before the insertion point: n itself, or the next smaller one, or 128. */
  ghost function Previous(cps: seq<nat>, n: nat, i: nat): nat
    requires i <= |Lt(cps, n + 1)|
  {
    if n in Lt(cps, n + 1)[..i] then n
    else if Highest(Lt(cps, n)) > INITIAL_N then Highest(Lt(cps, n)) else INITIAL_N
  }

  /** The number of code points already in place at the insertion point. */
  ghost function Placed(cps: seq<nat>, n: nat, i: nat): nat
    requires i <= |Lt(cps, n + 1)|
  {
    i + |Lt(Lt(cps, n + 1)[i..], n)|
  }

  /** The decoder's i before its division, at an insertion point. */
  ghost function Position(cps: seq<nat>, n: nat, i: nat): int
    requires i <= |Lt(cps, n + 1)|
  {
    (n - Previous(cps, n, i)) * (Placed(cps, n, i) + 1) + i
  }

  ghost predicate PositionsFit(cps: seq<nat>) {
    forall n: nat, i: nat :: n >= INITIAL_N && InsertionPoint(cps, n, i) ==> Position(cps, n, i) <= MAX_UINT32
  }

  ghost predicate NotBefore(n: nat, i: nat, s: State) {
    n > s.n || (n == s.n && i >= s.i)
  }

  ghost predicate FitFrom(cps: seq<nat>, s: State) {
    forall n: nat, i: nat :: NotBefore(n, i, s) && InsertionPoint(cps, n, i) ==> Position(cps, n, i) <= MAX_UINT32
  }

  lemma {:induction false} LtKeeps(cps: seq<nat>, bound: nat, k: nat)
    requires k < |cps| && cps[k] < bound
    ensures cps[k] in Lt(cps, bound)
  {
    if k > 0 {
      LtKeeps(cps[1..], bound, k - 1);
    }
  }

  lemma {:induction false} LtFrom(cps: seq<nat>, bound: nat, k: nat)
    requires k < |Lt(cps, bound)|
    ensures Lt(cps, bound)[k] in cps
  {
    if cps[0] < bound {
      if k > 0 {
        LtFrom(cps[1..], bound, k - 1);
      }
    } else {
      LtFrom(cps[1..], bound, k);
    }
  }

  /** No insertion point lies beyond a finished state. */
  lemma NothingAfterDone(cps: seq<nat>, s: State)
    requires Sync(cps, s) && |s.out| == |cps|
    ensures forall n: nat, i: nat :: NotBefore(n, i, s) ==> !InsertionPoint(cps, n, i)
  {
    SyncSize(cps, s);
    var l := Lt(cps, s.n + 1);
    LtNothingDropped(cps, s.n + 1);
    LtNothingDropped(l[s.i..], s.n);
    forall n: nat, i: nat | NotBefore(n, i, s)
      ensures !InsertionPoint(cps, n, i)
    {
      if n == s.n {
        NoInsertionAtLast(cps, n, s.i, i);
      } else {
        NoInsertionAbove(cps, s.n + 1, n, i);
      }
    }
  }

  lemma NoInsertionAtLast(cps: seq<nat>, n: nat, from: nat, i: nat)
    requires from <= i && from <= |cps| && Lt(cps, n + 1) == cps && Lt(cps[from..], n) == cps[from..]
    ensures !InsertionPoint(cps, n, i)
  {
    if i < |cps| {
      var back := cps[from..];
      assert back[i - from] < n by { assert Lt(back, n)[i - from] < n; }
    }
  }

  lemma NoInsertionAbove(cps: seq<nat>, bound: nat, n: nat, i: nat)
    requires bound <= n && forall k :: 0 <= k < |cps| ==> cps[k] < bound
    ensures !InsertionPoint(cps, n, i)
  {
    if i < |Lt(cps, n + 1)| {
      LtFrom(cps, n + 1, i);
    }
  }

  lemma PreviousAfterInnerSkip(cps: seq<nat>, n: nat, i: nat)
    requires i < |Lt(cps, n + 1)| && Lt(cps, n + 1)[i] != n
    ensures Previous(cps, n, i + 1) == Previous(cps, n, i)
  {
    var l := Lt(cps, n + 1);
    assert l[..i + 1] == l[..i] + [l[i]];
  }

  lemma PreviousAfterWrap(cps: seq<nat>, n: nat)
    requires n >= INITIAL_N
    ensures Previous(cps, n + 1, 0) == Previous(cps, n, |Lt(cps, n + 1)|)
  {
    var l := Lt(cps, n + 1);
    assert l[..|l|] == l;
    HighestOfLt(cps, n);
  }

  lemma PreviousAfterSkip(cps: seq<nat>, s: State, size: nat)
    requires size == |Lt(cps, s.n + 1)| && s.i <= size && s.n >= INITIAL_N
    requires if s.i < size then s.i < |s.out| && Lt(cps, s.n + 1)[s.i] != s.n else s.i == |s.out|
    ensures Skip(s).i <= |Lt(cps, Skip(s).n + 1)|
    ensures Previous(cps, Skip(s).n, Skip(s).i) == Previous(cps, s.n, s.i)
  {
    if s.i < size {
      PreviousAfterInnerSkip(cps, s.n, s.i);
    } else {
      PreviousAfterWrap(cps, s.n);
    }
  }

  /** A skip stays inside the string exactly while it stays inside the code points that are at most n. */
  lemma SkipCases(cps: seq<nat>, s: State, size: nat)
    requires Sync(cps, s) && !AtInsertion(cps, s) && size == |Lt(cps, s.n + 1)|
    ensures Sync(cps, Skip(s)) && s.i <= size
    ensures if s.i < size then s.i < |s.out| && Lt(cps, s.n + 1)[s.i] != s.n else s.i == |s.out|
  {
    SyncSkip(cps, s);
    if s.i < size {
      SyncInnerSkip(cps, s);
    } else {
      SyncWrap(cps, s);
    }
  }

  /** Widening the bound from n to n + 1 makes n the highest exactly when n occurs. */
  lemma HighestOfLt(cps: seq<nat>, n: nat)
    ensures if n in Lt(cps, n + 1) then Highest(Lt(cps, n + 1)) == n
            else Highest(Lt(cps, n + 1)) == Highest(Lt(cps, n))
  {
    var l := Lt(cps, n + 1);
    if n !in l {
      LtOfLt(cps, n + 1, n);
      LtAll(l, n);
    } else {
      var k :| 0 <= k < |l| && l[k] == n;
      HighestIsUpperBound(l, k);
      HighestIsLeast(l, n);
    }
  }

  lemma PreviousAfterInsert(cps: seq<nat>, s: State)
    requires Sync(cps, s) && AtInsertion(cps, s)
    ensures s.i + 1 <= |Lt(cps, s.n + 1)| && Previous(cps, s.n, s.i + 1) == s.n
  {
    var l := Lt(cps, s.n + 1);
    assert l[..s.i + 1][s.i] == s.n;
  }

  /** Advance's division, undone. */
  lemma PositionOfAdvance(s0: State, d: nat)
    ensures s0.i + d == (Advance(s0, d).n - s0.n) * (|s0.out| + 1) + Advance(s0, d).i
  {
    DivMod(s0.i + d, |s0.out| + 1);
  }

  /** The positions the deltas lead through are those of the insertion points, in order. */
  lemma {:induction false} FitsIsFitFrom(cps: seq<nat>, s0: State, s: State, d: nat)
    requires Sync(cps, s) && s == Advance(s0, d) && |s0.out| != |cps|
    requires s0.n >= INITIAL_N && s0.n == Previous(cps, s.n, s.i)
    requires forall k :: 0 <= k < |cps| ==> cps[k] <= MAX_UINT32
    ensures Fits(Deltas(cps, s, d), s0) <==> FitFrom(cps, s)
    decreases |cps| - |s.out|, Highest(cps) + 1 - s.n, |s.out| - s.i
  {
    SyncSize(cps, s);
    if AtInsertion(cps, s) {
      SyncInsert(cps, s);
      FitsAtInsertion(cps, s0, s, d);
      FitFromInsert(cps, s);
      FitsAfterInsert(cps, Insert(s));
      var next := Insert(s);
      if |next.out| != |cps| {
        AdvanceZero(next);
        PreviousAfterInsert(cps, s);
        FitsIsFitFrom(cps, next, next, 0);
      }
    } else {
      StillToCome(cps, s);
      SkipCases(cps, s, |Lt(cps, s.n + 1)|);
      PreviousAfterSkip(cps, s, |Lt(cps, s.n + 1)|);
      AdvanceOneMore(s0, d);
      FitFromSkip(cps, s);
      FitsIsFitFrom(cps, s0, Skip(s), d + 1);
    }
  }

  lemma FitsAtInsertion(cps: seq<nat>, s0: State, s: State, d: nat)
    requires Sync(cps, s) && AtInsertion(cps, s) && s == Advance(s0, d) && s0.n == Previous(cps, s.n, s.i)
    requires forall k :: 0 <= k < |cps| ==> cps[k] <= MAX_UINT32
    ensures s.i <= |s.out| && Sync(cps, Insert(s))
    ensures Fits(Deltas(cps, s, d), s0)
            <==> Position(cps, s.n, s.i) <= MAX_UINT32 && Fits(Deltas(cps, Insert(s), 0), Insert(s))
  {
    SyncSize(cps, s);
    SyncInsert(cps, s);
    PositionAtState(cps, s0, s, d);
    LtFrom(cps, s.n + 1, s.i);
    DeltasAtInsertion(cps, s, d);
    FitsStep(Deltas(cps, s, d), Deltas(cps, Insert(s), 0), s0, s, d);
  }

  lemma DeltasAtInsertion(cps: seq<nat>, s: State, d: nat)
    requires Sync(cps, s) && AtInsertion(cps, s)
    ensures s.i <= |s.out| && Sync(cps, Insert(s))
    ensures Deltas(cps, s, d) == [d] + Deltas(cps, Insert(s), 0)
  {
    SyncSize(cps, s);
    SyncInsert(cps, s);
  }

  lemma FitsStep(ds: seq<nat>, rest: seq<nat>, s0: State, s: State, d: nat)
    requires ds == [d] + rest && s == Advance(s0, d) && s.n <= MAX_UINT32
    ensures Fits(ds, s0) <==> s0.i + d <= MAX_UINT32 && Fits(rest, Insert(s))
  {
    assert ds[0] == d && ds[1..] == rest;
  }

  lemma PositionAtState(cps: seq<nat>, s0: State, s: State, d: nat)
    requires Sync(cps, s) && s == Advance(s0, d) && s0.n == Previous(cps, s.n, s.i)
    ensures Position(cps, s.n, s.i) == s0.i + d
  {
    PositionOfAdvance(s0, d);
    PlacedIsSize(cps, s);
  }

  lemma PlacedIsSize(cps: seq<nat>, s: State)
    requires Sync(cps, s)
    ensures Placed(cps, s.n, s.i) == |s.out|
  {
  }

  lemma FitsAfterInsert(cps: seq<nat>, next: State)
    requires Sync(cps, next)
    ensures |next.out| == |cps| ==> Deltas(cps, next, 0) == [] && FitFrom(cps, next)
  {
    if |next.out| == |cps| {
      NothingAfterDone(cps, next);
    }
  }

  lemma FitFromInsert(cps: seq<nat>, s: State)
    requires Sync(cps, s) && AtInsertion(cps, s) && s.i <= |s.out|
    ensures FitFrom(cps, s) <==> Position(cps, s.n, s.i) <= MAX_UINT32 && FitFrom(cps, Insert(s))
  {
    assert InsertionPoint(cps, s.n, s.i) && NotBefore(s.n, s.i, s);
    assert forall n: nat, i: nat :: NotBefore(n, i, s) <==> NotBefore(n, i, Insert(s)) || (n == s.n && i == s.i);
  }

  /** A skip passes no insertion point. */
  lemma SamePointsAfterSkip(cps: seq<nat>, s: State)
    requires Sync(cps, s) && !AtInsertion(cps, s)
    ensures forall n: nat, i: nat :: InsertionPoint(cps, n, i) ==> (NotBefore(n, i, s) <==> NotBefore(n, i, Skip(s)))
  {
    if s.i < |Lt(cps, s.n + 1)| {
      SyncInnerSkip(cps, s);
    } else {
      SyncWrap(cps, s);
    }
  }

  lemma FitFromSkip(cps: seq<nat>, s: State)
    requires Sync(cps, s) && !AtInsertion(cps, s)
    ensures FitFrom(cps, s) <==> FitFrom(cps, Skip(s))
  {
    SamePointsAfterSkip(cps, s);
  }

  lemma DecodableIsPositionsFit(cps: seq<nat>)
    requires forall k :: 0 <= k < |cps| ==> cps[k] <= MAX_UINT32
    ensures Decodable(cps) <==> PositionsFit(cps)
  {
    var s := Start(Lt(cps, INITIAL_N));
    SyncStart(cps);
    assert forall n: nat, i: nat :: NotBefore(n, i, s) <==> n >= INITIAL_N;
    if |s.out| == |cps| {
      NothingAfterDone(cps, s);
    } else {
      AdvanceZero(s);
      HighestIsLeast(Lt(cps, INITIAL_N), INITIAL_N);
      FitsIsFitFrom(cps, s, s, 0);
    }
  }

  /**
    * Decoding undoes encoding if and only if no insertion position passes 32 bits. The encoder itself only
    * checks the distance between two positions, so it can succeed on strings its decoder refuses.
    */
  lemma DecodeUndoesEncodeIff(cps: seq<nat>)
    requires forall k :: 0 <= k < |cps| ==> cps[k] <= MAX_UINT32
    ensures EncodePoints(cps).Success? && DecodePoints(EncodePoints(cps).value) == Success(cps)
            <==> PositionsFit(cps)
  {
    DecodeUndoesEncode(cps);
    DecodableIsPositionsFit(cps);
  }

  /** Positions stay below (highest - 127) * length. */
  lemma ShortStringsFit(cps: seq<nat>, highest: nat)
    requires forall k :: 0 <= k < |cps| ==> cps[k] <= highest
    requires highest >= INITIAL_N && (highest - (INITIAL_N - 1)) * |cps| <= MAX_UINT32 + 1
    ensures PositionsFit(cps)
  {
    forall n: nat, i: nat | n >= INITIAL_N && InsertionPoint(cps, n, i)
      ensures Position(cps, n, i) <= MAX_UINT32
    {
      LtFrom(cps, n + 1, i);
      PlacedBound(cps, n, i);
      var step, placed := n - Previous(cps, n, i), Placed(cps, n, i);
      ProductBound(step, placed, i, highest - INITIAL_N, |cps|, MAX_UINT32 + 1);
    }
  }

  lemma PlacedBound(cps: seq<nat>, n: nat, i: nat)
    requires InsertionPoint(cps, n, i)
    ensures i <= Placed(cps, n, i) < |cps|
  {
    var back := Lt(cps, n + 1)[i..];
    assert back[0] == n;
    assert Lt(back, n) == Lt(back[1..], n);
  }

  lemma ProductBound(step: int, placed: nat, i: nat, range: nat, len: nat, bound: int)
    requires step <= range && i <= placed < len && (range + 1) * len <= bound
    ensures step * (placed + 1) + i < bound
  {
    MulMonotone(step, range, placed + 1);
    MulMonotone(placed + 1, len, range);
    MulCommutes(placed + 1, range);
    MulCommutes(len, range);
    MulDistributes(range, 1, len);
  }

  /** Up to 3855 code points of Unicode always survive the round trip, without any overflow failure. */
  lemma UnicodeStringsRoundTrip(cps: seq<nat>)
    requires |cps| <= 3855 && forall k :: 0 <= k < |cps| ==> cps[k] <= 0x10FFFF
    ensures EncodePoints(cps).Success? && DecodePoints(EncodePoints(cps).value) == Success(cps)
  {
    ShortStringsFit(cps, 0x10FFFF);
    DecodeUndoesEncodeIff(cps);
  }

  /**
    * Five thousand code points that encode without failure and whose encoding the decoder rejects:
    * 4998 letters, U+0080 at their end and then U+D1BF1 after the 3000th letter.
    */
  lemma RoundTripCanFail() returns (cps: seq<nat>)
    ensures |cps| == 5000 && forall k :: 0 <= k < |cps| ==> cps[k] <= 0x10FFFF
    ensures EncodePoints(cps).Success? && DecodePoints(EncodePoints(cps).value).Failure?
  {
    var basics: seq<nat> := seq(4998, k => 97);
    Detour(basics, 4998, 4294963001);
    EncodesButDoesNotDecode([4998, 4294963001], basics);
    cps := Apply([4998, 4294963001], Start(basics)).out;
  }

  lemma Detour(basics: seq<nat>, d: nat, d': nat)
    requires |basics| == 4998 && d == 4998 && d' == 4294963001
    requires forall k :: 0 <= k < |basics| ==> basics[k] == 97
    ensures !Fits([d, d'], Start(basics))
    ensures var cps := Apply([d, d'], Start(basics)).out;
      |cps| == 5000 && forall k :: 0 <= k < |cps| ==> cps[k] <= 0x10FFFF
  {
    var s := Start(basics);
    AdvanceTo(s, d, 128, 4998);
    var s1 := Insert(Advance(s, d));
    AdvanceTo(s1, d', 859121, 3000);
    TwoDeltas(d, d', s);
  }

  lemma AdvanceTo(s: State, d: nat, n: nat, i: nat)
    requires i <= |s.out| && n >= s.n && s.i + d == (n - s.n) * (|s.out| + 1) + i
    ensures Advance(s, d) == State(n, i, s.out)
  {
    DivModUnique(s.i + d, |s.out| + 1, n - s.n, i);
  }

  lemma EncodesButDoesNotDecode(ds: seq<nat>, basics: seq<nat>)
    requires forall k :: 0 <= k < |basics| ==> basics[k] < INITIAL_N
    requires AllFit(ds) && !Fits(ds, Start(basics))
    ensures var cps := Apply(ds, Start(basics)).out;
      EncodePoints(cps).Success? && DecodePoints(EncodePoints(cps).value).Failure?
  {
    var s := Start(basics);
    DeltasOfApply(ds, s);
    ApplyKeepsBasics(ds, s);
    LtAll(basics, INITIAL_N);
    DecodeOfEncodePoints(Apply(ds, s).out);
  }

  lemma TwoDeltas(d: nat, d': nat, s: State)
    ensures Apply([d, d'], s) == Insert(Advance(Insert(Advance(s, d)), d'))
    ensures Fits([d, d'], s) ==> Insert(Advance(s, d)).i + d' <= MAX_UINT32
  {
    var s1 := Insert(Advance(s, d));
    assert [d, d'][1..] == [d'] && [d'][1..] == [];
    assert Apply([d'], s1) == Apply([], Insert(Advance(s1, d')));
    assert Fits([d'], s1) ==> s1.i + d' <= MAX_UINT32;
  }
}
