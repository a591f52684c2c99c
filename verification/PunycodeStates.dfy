/**
  * The insertion machine of section 6 of RFC 3492, one unit step at a time.
  *
  * A state says that the next code point n could go in before position i. Skipping moves i, and past the
  * end wraps to the next n; inserting puts n in place. A delta is a number of skips before an insertion,
  * so a list of deltas and the string it builds determine each other: Apply and Deltas are inverse.
  */
module PunycodeStates {
  import opened Arithmetic

  datatype State = State(n: nat, i: nat, out: seq<nat>)

  // ---------- Steps ----------

  function Skip(s: State): State {
    if s.i < |s.out| then s.(i := s.i + 1) else State(s.n + 1, 0, s.out)
  }

  /** The effect of d skips, as the decoder computes it: one division. */
  function Advance(s: State, d: nat): (s': State)
    ensures s'.i <= |s.out| && s'.out == s.out && s'.n >= s.n
  {
    var len := |s.out| + 1;
    DivMod(s.i + d, len);
    QuotientAtMost(s.i + d, len);
    State(s.n + (s.i + d) / len, (s.i + d) % len, s.out)
  }

  function Insert(s: State): State
    requires s.i <= |s.out|
  {
    State(s.n, s.i + 1, s.out[..s.i] + [s.n] + s.out[s.i..])
  }

  function Apply(ds: seq<nat>, s: State): State {
    if ds == [] then s else Apply(ds[1..], Insert(Advance(s, ds[0])))
  }

  lemma AdvanceZero(s: State)
    requires s.i <= |s.out|
    ensures Advance(s, 0) == s
  {
    DivModUnique(s.i, |s.out| + 1, 0, s.i);
  }

  lemma AdvanceOneMore(s: State, d: nat)
    ensures Advance(s, d + 1) == Skip(Advance(s, d))
  {
    var len := |s.out| + 1;
    var x := s.i + d;
    DivMod(x, len);
    if x % len + 1 < len {
      DivModUnique(x + 1, len, x / len, x % len + 1);
    } else {
      MulDistributes(x / len, 1, len);
      DivModUnique(x + 1, len, x / len + 1, 0);
    }
  }

  // ---------- Strings restricted to small code points ----------

  /** The code points of s below the bound, in order. */
  function Lt(s: seq<nat>, bound: nat): (r: seq<nat>)
    ensures |r| <= |s|
    ensures forall k :: 0 <= k < |r| ==> r[k] < bound
  {
    if s == [] then [] else (if s[0] < bound then [s[0]] else []) + Lt(s[1..], bound)
  }

  lemma {:induction false} LtConcat(a: seq<nat>, b: seq<nat>, bound: nat)
    ensures Lt(a + b, bound) == Lt(a, bound) + Lt(b, bound)
  {
    if a == [] {
      assert a + b == b;
    } else {
      assert (a + b)[0] == a[0] && (a + b)[1..] == a[1..] + b;
      LtConcat(a[1..], b, bound);
    }
  }

  lemma {:induction false} LtOfLt(s: seq<nat>, wide: nat, narrow: nat)
    requires narrow <= wide
    ensures Lt(Lt(s, wide), narrow) == Lt(s, narrow)
  {
    if s != [] {
      LtOfLt(s[1..], wide, narrow);
      var head := if s[0] < wide then [s[0]] else [];
      LtConcat(head, Lt(s[1..], wide), narrow);
      assert Lt(head, narrow) == if s[0] < narrow then [s[0]] else [];
    }
  }

  lemma {:induction false} LtAll(s: seq<nat>, bound: nat)
    requires forall k :: 0 <= k < |s| ==> s[k] < bound
    ensures Lt(s, bound) == s
  {
    if s != [] {
      LtAll(s[1..], bound);
    }
  }

  lemma {:induction false} LtNothingDropped(s: seq<nat>, bound: nat)
    requires |Lt(s, bound)| == |s|
    ensures Lt(s, bound) == s
  {
    if s != [] {
      LtNothingDropped(s[1..], bound);
    }
  }

  lemma {:induction false} LtSomethingDropped(s: seq<nat>, bound: nat) returns (k: nat)
    requires |Lt(s, bound)| != |s|
    ensures k < |s| && s[k] >= bound
  {
    if s[0] >= bound {
      k := 0;
    } else {
      k := LtSomethingDropped(s[1..], bound);
      k := k + 1;
    }
  }

  // ---------- The state in which the encoder's string is partly built ----------

  /**
    * s is a state on the way to target: everything below n is in, and of the code points equal to n exactly
    * those before the i-th code point of target that is at most n.
    */
  ghost predicate Sync(target: seq<nat>, s: State) {
    var l := Lt(target, s.n + 1);
    s.i <= |l| && s.out == l[..s.i] + Lt(l[s.i..], s.n)
  }

  ghost predicate AtInsertion(target: seq<nat>, s: State) {
    var l := Lt(target, s.n + 1);
    s.i < |l| && l[s.i] == s.n
  }

  lemma SyncSize(target: seq<nat>, s: State)
    requires Sync(target, s)
    ensures s.i <= |s.out| <= |Lt(target, s.n + 1)| <= |target|
    ensures |s.out| == |target| ==> s.out == target && !AtInsertion(target, s)
  {
    var l := Lt(target, s.n + 1);
    var front, back := l[..s.i], l[s.i..];
    var kept := Lt(back, s.n);
    assert s.out == front + kept;
    if |s.out| == |target| {
      SyncDone(target, s, l, front, back);
    }
  }

  lemma SyncDone(target: seq<nat>, s: State, l: seq<nat>, front: seq<nat>, back: seq<nat>)
    requires l == Lt(target, s.n + 1) && s.i <= |l| && front == l[..s.i] && back == l[s.i..]
    requires s.out == front + Lt(back, s.n) && |s.out| == |target|
    ensures s.out == target && !AtInsertion(target, s)
  {
    hide Lt;
    LtNothingDropped(target, s.n + 1);
    assert |Lt(back, s.n)| == |back|;
    LtNothingDropped(back, s.n);
    assert target == front + back;
    if s.i < |l| {
      assert l[s.i] == back[0] == Lt(back, s.n)[0] < s.n;
    }
  }

  lemma SyncInsert(target: seq<nat>, s: State)
    requires Sync(target, s) && AtInsertion(target, s)
    ensures s.i <= |s.out| && |s.out| < |target| && Sync(target, Insert(s))
  {
    SyncSize(target, s);
    var l := Lt(target, s.n + 1);
    var front, back := l[..s.i], l[s.i + 1..];
    assert l[s.i..] == [s.n] + back;
    assert Lt(l[s.i..], s.n) == Lt(back, s.n);
    var s' := Insert(s);
    assert l[..s.i + 1] == front + [s.n];
    assert s'.out == front + [s.n] + Lt(back, s.n);
    SyncSize(target, s');
  }

  lemma SyncSkip(target: seq<nat>, s: State)
    requires Sync(target, s) && !AtInsertion(target, s)
    ensures Sync(target, Skip(s))
  {
    if s.i < |Lt(target, s.n + 1)| {
      SyncInnerSkip(target, s);
    } else {
      SyncWrap(target, s);
    }
  }

  lemma SyncInnerSkip(target: seq<nat>, s: State)
    requires Sync(target, s) && !AtInsertion(target, s) && s.i < |Lt(target, s.n + 1)|
    ensures s.i < |s.out| && Sync(target, s.(i := s.i + 1))
  {
    var l := Lt(target, s.n + 1);
    var c, back := l[s.i], l[s.i + 1..];
    var kept := Lt(back, s.n);
    assert Lt(l[s.i..], s.n) == [c] + kept by {
      assert l[s.i..][0] == c && l[s.i..][1..] == back;
    }
    assert s.out == l[..s.i] + ([c] + kept);
    assert l[..s.i] + ([c] + kept) == (l[..s.i] + [c]) + kept;
    assert l[..s.i] + [c] == l[..s.i + 1];
  }

  lemma SyncWrap(target: seq<nat>, s: State)
    requires Sync(target, s) && s.i == |Lt(target, s.n + 1)|
    ensures s.i == |s.out| && Sync(target, State(s.n + 1, 0, s.out))
  {
    var l := Lt(target, s.n + 1);
    assert s.out == l;
    var l' := Lt(target, s.n + 2);
    LtOfLt(target, s.n + 2, s.n + 1);
    assert l'[0..] == l';
    assert l'[..0] + Lt(l', s.n + 1) == l;
  }

  function Highest(s: seq<nat>): nat {
    if s == [] then 0
    else
      var m := Highest(s[1..]);
      if s[0] > m then s[0] else m
  }

  lemma {:induction false} HighestIsUpperBound(s: seq<nat>, k: nat)
    requires k < |s|
    ensures s[k] <= Highest(s)
  {
    if k > 0 {
      HighestIsUpperBound(s[1..], k - 1);
    }
  }

  lemma {:induction false} HighestIsLeast(s: seq<nat>, bound: nat)
    requires forall k :: 0 <= k < |s| ==> s[k] <= bound
    ensures Highest(s) <= bound
  {
    if s != [] {
      HighestIsLeast(s[1..], bound);
    }
  }

  lemma StillToCome(target: seq<nat>, s: State)
    requires Sync(target, s) && |s.out| != |target|
    ensures Highest(target) >= s.n
  {
    var l := Lt(target, s.n + 1);
    if |l| != |target| {
      var k := LtSomethingDropped(target, s.n + 1);
      HighestIsUpperBound(target, k);
    } else {
      LtNothingDropped(target, s.n + 1);
      var k := LtSomethingDropped(l[s.i..], s.n);
      HighestIsUpperBound(target, s.i + k);
    }
  }

  // ---------- From the string to the deltas ----------

  /** The deltas that lead from s, after d skips already counted, to target: RFC 3492's encoder, unit by unit. */
  ghost function Deltas(target: seq<nat>, s: State, d: nat): seq<nat>
    requires Sync(target, s)
    decreases |target| - |s.out|, Highest(target) + 1 - s.n, |s.out| - s.i
  {
    SyncSize(target, s);
    if |s.out| == |target| then []
    else if AtInsertion(target, s) then
      SyncInsert(target, s);
      [d] + Deltas(target, Insert(s), 0)
    else
      SyncSkip(target, s);
      StillToCome(target, s);
      Deltas(target, Skip(s), d + 1)
  }

  /** Decoding the deltas of a string gives the string. */
  lemma {:induction false} ApplyOfDeltas(target: seq<nat>, s0: State, s: State, d: nat)
    requires Sync(target, s) && s == Advance(s0, d)
    requires |s0.out| != |target|
    ensures Apply(Deltas(target, s, d), s0).out == target
    decreases |target| - |s.out|, Highest(target) + 1 - s.n, |s.out| - s.i
  {
    SyncSize(target, s);
    if AtInsertion(target, s) {
      SyncInsert(target, s);
      var next := Insert(s);
      var rest := Deltas(target, next, 0);
      assert ([d] + rest)[1..] == rest;
      SyncSize(target, next);
      if |next.out| != |target| {
        AdvanceZero(next);
        ApplyOfDeltas(target, next, next, 0);
      }
    } else {
      SyncSkip(target, s);
      StillToCome(target, s);
      AdvanceOneMore(s0, d);
      ApplyOfDeltas(target, s0, Skip(s), d + 1);
    }
  }

  // ---------- From the deltas to the string ----------

  /** What every decoder state satisfies: the code points from i on are strictly below n. */
  ghost predicate Reachable(s: State) {
    s.i <= |s.out|
    && (forall k :: 0 <= k < |s.out| ==> s.out[k] <= s.n)
    && (forall k :: s.i <= k < |s.out| ==> s.out[k] < s.n)
  }

  lemma ReachableStep(s: State, d: nat)
    requires Reachable(s)
    ensures Reachable(Advance(s, d)) && Reachable(Insert(Advance(s, d)))
  {
    var s' := Advance(s, d);
    if s'.n == s.n {
      DivMod(s.i + d, |s.out| + 1);
      assert s'.i == s.i + d;
    }
  }

  lemma SyncEnd(s: State)
    requires Reachable(s)
    ensures Sync(s.out, s)
  {
    hide Lt, Sync;
    LtAll(s.out, s.n + 1);
    LtAll(s.out[s.i..], s.n);
    assert s.out == s.out[..s.i] + s.out[s.i..];
    SyncIntro(s.out, s, s.out);
  }

  lemma SyncBeforeInsert(target: seq<nat>, s: State)
    requires s.i <= |s.out| && Sync(target, Insert(s))
    ensures Sync(target, s) && AtInsertion(target, s)
  {
    var l := Lt(target, s.n + 1);
    var back := l[s.i + 1..];
    assert Insert(s).out == l[..s.i + 1] + Lt(back, s.n);
    assert Lt([s.n] + back, s.n) == Lt(back, s.n) by { assert ([s.n] + back)[1..] == back; }
    hide Lt, Sync;
    BeforeInsertParts(s, l, back, Lt(back, s.n));
    assert s.out == l[..s.i] + Lt(l[s.i..], s.n);
    SyncIntro(target, s, l);
  }

  lemma SyncIntro(target: seq<nat>, s: State, l: seq<nat>)
    requires l == Lt(target, s.n + 1) && s.i <= |l| && s.out == l[..s.i] + Lt(l[s.i..], s.n)
    ensures Sync(target, s)
  {
  }

  /** Taking the inserted code point out again. */
  lemma BeforeInsertParts(s: State, l: seq<nat>, back: seq<nat>, tail: seq<nat>)
    requires s.i <= |s.out| && s.i + 1 <= |l| && back == l[s.i + 1..]
    requires Insert(s).out == l[..s.i + 1] + tail
    ensures l[s.i] == s.n && l[s.i..] == [s.n] + back && s.out == l[..s.i] + tail
  {
    var out := Insert(s).out;
    assert out[s.i] == s.n && out[s.i] == l[s.i];
    assert out[..s.i] == s.out[..s.i] && out[..s.i] == l[..s.i];
    assert out[s.i + 1..] == s.out[s.i..] && out[s.i + 1..] == tail;
    assert s.out == s.out[..s.i] + s.out[s.i..];
  }

  lemma SyncBeforeSkip(target: seq<nat>, s: State)
    requires Reachable(s) && Sync(target, Skip(s))
    ensures Sync(target, s) && !AtInsertion(target, s)
  {
    if s.i < |s.out| {
      SyncBeforeInnerSkip(target, s);
    } else {
      SyncBeforeWrap(target, s);
    }
  }

  lemma SyncBeforeInnerSkip(target: seq<nat>, s: State)
    requires Reachable(s) && s.i < |s.out| && Sync(target, s.(i := s.i + 1))
    ensures Sync(target, s) && !AtInsertion(target, s)
  {
    var l := Lt(target, s.n + 1);
    var front, back := l[..s.i + 1], l[s.i + 1..];
    var kept := Lt(back, s.n);
    assert s.out == front + kept;
    assert l[s.i] == front[s.i] == s.out[s.i] < s.n;
    assert l[s.i..] == [l[s.i]] + back;
    assert Lt(l[s.i..], s.n) == [l[s.i]] + kept;
    assert front == l[..s.i] + [l[s.i]];
    assert l[..s.i] + ([l[s.i]] + kept) == front + kept;
  }

  lemma SyncBeforeWrap(target: seq<nat>, s: State)
    requires s.i == |s.out| && Sync(target, State(s.n + 1, 0, s.out))
    ensures Sync(target, s) && !AtInsertion(target, s)
  {
    var l := Lt(target, s.n + 1);
    var l' := Lt(target, s.n + 2);
    LtOfLt(target, s.n + 2, s.n + 1);
    assert l'[0..] == l';
    assert s.out == [] + Lt(l', s.n + 1) == l;
    assert s.i == |l| && l[s.i..] == [] && Lt(l[s.i..], s.n) == [];
    hide Lt;
    assert l[..s.i] + [] == l;
    SyncIntro(target, s, l);
  }

  /** The skips from s up to d of them lead into the state after d skips, counting as they go. */
  lemma {:induction false} DeltasThroughSkips(target: seq<nat>, s: State, e: nat, d: nat)
    requires Reachable(s) && e <= d
    requires Sync(target, Advance(s, d)) && AtInsertion(target, Advance(s, d))
    ensures Sync(target, Advance(s, e))
    ensures Deltas(target, Advance(s, e), e) == Deltas(target, Advance(s, d), d)
    decreases d - e
  {
    if e < d {
      DeltasThroughSkips(target, s, e + 1, d);
      AdvanceOneMore(s, e);
      ReachableStep(s, e);
      SyncBeforeSkip(target, Advance(s, e));
      SyncInsert(target, Advance(s, d));
    }
  }

  /** Encoding what a list of deltas builds gives the list of deltas. */
  lemma {:induction false} DeltasOfApply(ds: seq<nat>, s: State)
    requires Reachable(s)
    ensures Sync(Apply(ds, s).out, s)
    ensures Deltas(Apply(ds, s).out, s, 0) == ds
    decreases |ds|
  {
    var target := Apply(ds, s).out;
    if ds == [] {
      SyncEnd(s);
    } else {
      var at := Advance(s, ds[0]);
      ReachableStep(s, ds[0]);
      DeltasOfApply(ds[1..], Insert(at));
      SyncBeforeInsert(target, at);
      DeltasThroughSkips(target, s, 0, ds[0]);
      AdvanceZero(s);
      SyncInsert(target, at);
      assert Deltas(target, at, ds[0]) == [ds[0]] + ds[1..];
    }
  }
}
