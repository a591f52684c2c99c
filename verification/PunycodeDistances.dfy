/**
  * When the encoder overflows, read off the code points alone: its delta is the distance between two
  * successive insertions, counted in positions passed over.
  */
module PunycodeDistances {
  import opened Basics
  import opened Arithmetic
  import opened PunycodeDigits
  import opened PunycodeStates
  import opened Punycode
  import opened PunycodePositions

  /** The index after the last occurrence of v, 0 if there is none. */
  ghost function AfterLast(s: seq<nat>, v: nat): nat {
    if s == [] then 0 else if s[|s| - 1] == v then |s| else AfterLast(s[..|s| - 1], v)
  }

  /** Where the insertion before the insertion point left the index. */
  ghost function PreviousIndex(cps: seq<nat>, n: nat, i: nat): nat
    requires i <= |Lt(cps, n + 1)|
  {
    if n in Lt(cps, n + 1)[..i] then AfterLast(Lt(cps, n + 1)[..i], n)
    else AfterLast(Lt(cps, n), Previous(cps, n, i))
  }

  /** From the insertion before to the insertion point. */
  ghost function Distance(cps: seq<nat>, n: nat, i: nat): int
    requires i <= |Lt(cps, n + 1)|
  {
    Position(cps, n, i) - PreviousIndex(cps, n, i)
  }

  ghost predicate DistancesFit(cps: seq<nat>) {
    forall n: nat, i: nat :: n >= INITIAL_N && InsertionPoint(cps, n, i) ==> Distance(cps, n, i) <= MAX_UINT32
  }

  ghost predicate NearFrom(cps: seq<nat>, s: State) {
    forall n: nat, i: nat :: NotBefore(n, i, s) && InsertionPoint(cps, n, i) ==> Distance(cps, n, i) <= MAX_UINT32
  }

  /** s0 is the state the insertion before (n, i) left. */
  ghost predicate Left(cps: seq<nat>, s0: State, n: nat, i: nat)
    requires i <= |Lt(cps, n + 1)|
  {
    s0.n == Previous(cps, n, i) && s0.i == PreviousIndex(cps, n, i)
  }

  // ---------- What a step does to the index left behind ----------

  lemma IndexAfterInnerSkip(cps: seq<nat>, n: nat, i: nat)
    requires i < |Lt(cps, n + 1)| && Lt(cps, n + 1)[i] != n
    ensures PreviousIndex(cps, n, i + 1) == PreviousIndex(cps, n, i)
  {
    var l := Lt(cps, n + 1);
    var front := l[..i + 1];
    assert front == l[..i] + [l[i]] && front[..i] == l[..i];
    PreviousAfterInnerSkip(cps, n, i);
  }

  lemma IndexAfterWrap(cps: seq<nat>, n: nat)
    requires n >= INITIAL_N
    ensures PreviousIndex(cps, n + 1, 0) == PreviousIndex(cps, n, |Lt(cps, n + 1)|)
  {
    hide Previous, AfterLast;
    var l := Lt(cps, n + 1);
    assert l[..|l|] == l;
    PreviousAfterWrap(cps, n);
    if n in l {
      PreviousWithin(cps, n);
    } else {
      LtOfLt(cps, n + 1, n);
      LtAll(l, n);
    }
  }

  lemma PreviousWithin(cps: seq<nat>, n: nat)
    requires n in Lt(cps, n + 1)
    ensures Previous(cps, n, |Lt(cps, n + 1)|) == n
  {
    assert Lt(cps, n + 1)[..|Lt(cps, n + 1)|] == Lt(cps, n + 1);
  }

  lemma LeftAfterSkip(cps: seq<nat>, s0: State, s: State, size: nat)
    requires size == |Lt(cps, s.n + 1)| && s.i <= size && s.n >= INITIAL_N && Left(cps, s0, s.n, s.i)
    requires if s.i < size then s.i < |s.out| && Lt(cps, s.n + 1)[s.i] != s.n else s.i == |s.out|
    ensures Skip(s).i <= |Lt(cps, Skip(s).n + 1)|
    ensures Left(cps, s0, Skip(s).n, Skip(s).i)
  {
    hide Lt, Previous, PreviousIndex;
    PreviousAfterSkip(cps, s, size);
    if s.i < size {
      IndexAfterInnerSkip(cps, s.n, s.i);
    } else {
      IndexAfterWrap(cps, s.n);
    }
  }

  lemma LeftAfterInsert(cps: seq<nat>, s: State)
    requires Sync(cps, s) && AtInsertion(cps, s) && s.i <= |s.out|
    ensures s.i + 1 <= |Lt(cps, s.n + 1)| && Left(cps, Insert(s), s.n, s.i + 1)
  {
    PreviousAfterInsert(cps, s);
    var front := Lt(cps, s.n + 1)[..s.i + 1];
    assert front[s.i] == s.n;
  }

  // ---------- The deltas are the distances ----------

  lemma AllFitStep(ds: seq<nat>, d: nat, rest: seq<nat>)
    requires ds == [d] + rest
    ensures AllFit(ds) <==> d <= MAX_UINT32 && AllFit(rest)
  {
    assert ds[0] == d && forall k :: 0 <= k < |rest| ==> ds[k + 1] == rest[k];
    assert forall k :: 1 <= k < |ds| ==> ds[k] == rest[k - 1];
  }

  lemma NoneIsAllFit()
    ensures AllFit([])
  {
  }

  lemma NearFromInsert(cps: seq<nat>, s: State)
    requires Sync(cps, s) && AtInsertion(cps, s) && s.i <= |s.out|
    ensures NearFrom(cps, s) <==> Distance(cps, s.n, s.i) <= MAX_UINT32 && NearFrom(cps, Insert(s))
  {
    assert InsertionPoint(cps, s.n, s.i) && NotBefore(s.n, s.i, s);
    assert forall n: nat, i: nat :: NotBefore(n, i, s) <==> NotBefore(n, i, Insert(s)) || (n == s.n && i == s.i);
  }

  lemma NearFromSkip(cps: seq<nat>, s: State)
    requires Sync(cps, s) && !AtInsertion(cps, s)
    ensures NearFrom(cps, s) <==> NearFrom(cps, Skip(s))
  {
    SamePointsAfterSkip(cps, s);
  }

  lemma NearWhenDone(cps: seq<nat>, s: State)
    requires Sync(cps, s)
    ensures |s.out| == |cps| ==> Deltas(cps, s, 0) == [] && NearFrom(cps, s)
  {
    if |s.out| == |cps| {
      NothingAfterDone(cps, s);
    }
  }

  /** The delta of an insertion point is its distance. */
  lemma AllFitAtInsertion(cps: seq<nat>, s0: State, s: State, d: nat)
    requires Sync(cps, s) && AtInsertion(cps, s) && s == Advance(s0, d) && Left(cps, s0, s.n, s.i)
    ensures s.i <= |s.out| && Sync(cps, Insert(s))
    ensures AllFit(Deltas(cps, s, d))
            <==> Distance(cps, s.n, s.i) <= MAX_UINT32 && AllFit(Deltas(cps, Insert(s), 0))
  {
    hide Position, AllFit;
    SyncInsert(cps, s);
    DeltasAtInsertion(cps, s, d);
    AllFitStep(Deltas(cps, s, d), d, Deltas(cps, Insert(s), 0));
    PositionAtState(cps, s0, s, d);
  }

  /** What holds after the insertion holds before it, and it holds when nothing is left to insert. */
  lemma AllFitBeforeInsertion(cps: seq<nat>, s0: State, s: State, d: nat)
    requires Sync(cps, s) && AtInsertion(cps, s) && s == Advance(s0, d) && Left(cps, s0, s.n, s.i)
    ensures s.i <= |s.out| && Sync(cps, Insert(s))
    ensures |s.out| + 1 == |cps| || (AllFit(Deltas(cps, Insert(s), 0)) <==> NearFrom(cps, Insert(s)))
            ==> (AllFit(Deltas(cps, s, d)) <==> NearFrom(cps, s))
  {
    hide NearFrom, Left, Lt, Distance, AtInsertion, Deltas;
    AllFitAtInsertion(cps, s0, s, d);
    NearFromInsert(cps, s);
    NearWhenDone(cps, Insert(s));
  }

  lemma DeltasAtSkip(cps: seq<nat>, s: State, d: nat)
    requires Sync(cps, s) && !AtInsertion(cps, s) && |s.out| != |cps|
    ensures Sync(cps, Skip(s)) && Deltas(cps, s, d) == Deltas(cps, Skip(s), d + 1)
  {
    SyncSkip(cps, s);
  }

  lemma {:induction false} AllFitIsNearFrom(cps: seq<nat>, s0: State, s: State, d: nat)
    requires Sync(cps, s) && s == Advance(s0, d) && |s0.out| != |cps|
    requires s0.n >= INITIAL_N && Left(cps, s0, s.n, s.i)
    ensures AllFit(Deltas(cps, s, d)) <==> NearFrom(cps, s)
    decreases |cps| - |s.out|, Highest(cps) + 1 - s.n, |s.out| - s.i
  {
    hide AllFit, NearFrom, Left, Lt, Deltas;
    SyncSize(cps, s);
    if AtInsertion(cps, s) {
      SyncInsert(cps, s);
      AllFitBeforeInsertion(cps, s0, s, d);
      var next := Insert(s);
      if |next.out| != |cps| {
        AdvanceZero(next);
        LeftAfterInsert(cps, s);
        AllFitIsNearFrom(cps, next, next, 0);
      }
    } else {
      StillToCome(cps, s);
      SkipCases(cps, s, |Lt(cps, s.n + 1)|);
      LeftAfterSkip(cps, s0, s, |Lt(cps, s.n + 1)|);
      AdvanceOneMore(s0, d);
      NearFromSkip(cps, s);
      DeltasAtSkip(cps, s, d);
      AllFitIsNearFrom(cps, s0, Skip(s), d + 1);
    }
  }

  lemma NothingLeftAtStart(cps: seq<nat>)
    ensures Left(cps, Start(Lt(cps, INITIAL_N)), INITIAL_N, 0)
  {
    var l := Lt(cps, INITIAL_N);
    HighestIsLeast(l, INITIAL_N);
    NowhereLast(l, INITIAL_N);
  }

  lemma {:induction false} NowhereLast(s: seq<nat>, v: nat)
    requires v !in s
    ensures AfterLast(s, v) == 0
    decreases |s|
  {
    if s != [] {
      NowhereLast(s[..|s| - 1], v);
    }
  }

  /** The encoder succeeds if and only if no two successive insertions are further apart than 32 bits can say. */
  lemma EncodesIff(cps: seq<nat>)
    ensures EncodePoints(cps).Success? <==> DistancesFit(cps)
  {
    hide AllFit, Deltas, Distance, InsertionPoint, Left;
    var s := Start(Lt(cps, INITIAL_N));
    SyncStart(cps);
    assert forall n: nat, i: nat :: NotBefore(n, i, s) <==> n >= INITIAL_N;
    if |s.out| == |cps| {
      NearWhenDone(cps, s);
      NoneIsAllFit();
    } else {
      AllFitIsNearFromStart(cps, s);
    }
  }

  lemma AllFitIsNearFromStart(cps: seq<nat>, s: State)
    requires s == Start(Lt(cps, INITIAL_N)) && Sync(cps, s) && |s.out| != |cps|
    ensures AllFit(Deltas(cps, s, 0)) <==> NearFrom(cps, s)
  {
    hide AllFit, Deltas, NearFrom, Left;
    AdvanceZero(s);
    NothingLeftAtStart(cps);
    AllFitIsNearFrom(cps, s, s, 0);
  }
}
