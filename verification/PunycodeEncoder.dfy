/**
  * `Punycode::encode`: a search for the next code point to insert, a jump of delta over everything in
  * between, and a pass over the input. It computes the unit-step encoding of PunycodeStates.
  */
module PunycodeEncoder {
  import opened Basics
  import opened Arithmetic
  import opened Utf8
  import opened PunycodeDigits
  import opened PunycodeStates
  import opened Punycode
  import opened PunycodeCodec

  // ---------- Emitting one more number ----------

  function BiasAfter(ds: seq<nat>, len: nat, bias: nat, first: bool): nat {
    if ds == [] then bias else BiasAfter(ds[1..], len + 1, Adapt(ds[0], len + 1, first), false)
  }

  lemma {:induction false} EncodeTextAppend(ds: seq<nat>, d: nat, len: nat, bias: nat, first: bool)
    ensures EncodeText(ds + [d], len, bias, first)
            == EncodeText(ds, len, bias, first) + Digits(d, BASE, BiasAfter(ds, len, bias, first))
    ensures BiasAfter(ds + [d], len, bias, first) == Adapt(d, len + |ds| + 1, ds == [] && first)
    decreases |ds|
  {
    if ds == [] {
      assert (ds + [d])[1..] == [];
    } else {
      assert (ds + [d])[1..] == ds[1..] + [d];
      EncodeTextAppend(ds[1..], d, len + 1, Adapt(ds[0], len + 1, first), false);
    }
  }

  /** The inner loop over k. */
  method EmitDigits(output0: Bytes, delta: uint32, bias: uint32) returns (output: Bytes)
    requires bias <= 204
    ensures output == output0 + Digits(delta, BASE, bias)
  {
    output := output0;
    var q: uint32, k: nat := delta, BASE;
    while true
      invariant output + Digits(q, k, bias) == output0 + Digits(delta, BASE, bias)
      decreases q
    {
      var t := Threshold(k, bias);
      if q < t {
        break;
      }
      ghost var d, rest := SplitAtThreshold(q, t, 1);
      output := output + [DigitToBasic(t + (q - t) % (BASE - t))];
      q := (q - t) / (BASE - t);
      k := k + BASE;
    }
    output := output + [DigitToBasic(q)];
  }

  // ---------- Jumping and passing, in unit steps ----------

  lemma {:induction false} LtDropsLarge(s: seq<nat>, bound: nat, k: nat)
    requires k < |s| && s[k] >= bound
    ensures |Lt(s, bound)| < |s|
  {
    if s[0] < bound {
      LtDropsLarge(s[1..], bound, k - 1);
    }
  }

  /** A delta too large for 32 bits stays too large until it is emitted. */
  lemma {:induction false} DeltasTooBig(cps: seq<nat>, s: State, d: nat)
    requires Sync(cps, s) && |s.out| < |cps| && d > MAX_UINT32
    ensures !AllFit(Deltas(cps, s, d))
    decreases |cps| - |s.out|, Highest(cps) + 1 - s.n, |s.out| - s.i
  {
    SyncSize(cps, s);
    if AtInsertion(cps, s) {
      SyncInsert(cps, s);
      assert Deltas(cps, s, d)[0] == d;
    } else {
      SyncSkip(cps, s);
      StillToCome(cps, s);
      DeltasTooBig(cps, Skip(s), d + 1);
    }
  }

  /** The state between passes: everything below n is in. */
  function RowStart(cps: seq<nat>, n: nat): State {
    State(n, 0, Lt(cps, n))
  }

  lemma SyncRowStart(cps: seq<nat>, n: nat)
    ensures Sync(cps, RowStart(cps, n))
  {
    var l := Lt(cps, n + 1);
    LtOfLt(cps, n + 1, n);
    assert l[0..] == l;
    assert l[..0] + Lt(l, n) == Lt(l, n);
  }

  lemma {:induction false} LtUnchanged(cps: seq<nat>, n: nat, m: nat)
    requires n <= m && forall k :: 0 <= k < |cps| ==> !(n <= cps[k] < m)
    ensures Lt(cps, m) == Lt(cps, n)
  {
    if cps != [] {
      LtUnchanged(cps[1..], n, m);
    }
  }

  /** Without a code point equal to n there is nothing to insert anywhere in row n. */
  lemma NothingInRow(cps: seq<nat>, n: nat, i: nat)
    requires n !in cps && i <= |Lt(cps, n)|
    ensures Sync(cps, State(n, i, Lt(cps, n))) && !AtInsertion(cps, State(n, i, Lt(cps, n)))
  {
    hide Lt;
    var out := Lt(cps, n);
    LtUnchanged(cps, n, n + 1);
    LtAll(out[i..], n);
    assert out[..i] + out[i..] == out;
  }

  lemma DeltasSkip(cps: seq<nat>, s: State, d: nat)
    requires Sync(cps, s) && !AtInsertion(cps, s) && |s.out| != |cps|
    ensures Sync(cps, Skip(s)) && Deltas(cps, s, d) == Deltas(cps, Skip(s), d + 1)
  {
    SyncSkip(cps, s);
  }

  /** The rest of such a row is |out| + 1 - i skips. */
  lemma {:induction false} EmptyRow(cps: seq<nat>, n: nat, i: nat, d: nat)
    requires n !in cps && i <= |Lt(cps, n)| < |cps|
    ensures Sync(cps, State(n, i, Lt(cps, n))) && Sync(cps, RowStart(cps, n + 1))
    ensures Deltas(cps, State(n, i, Lt(cps, n)), d) == Deltas(cps, RowStart(cps, n + 1), d + |Lt(cps, n)| + 1 - i)
    decreases |Lt(cps, n)| - i
  {
    hide Lt, Sync, AtInsertion, Deltas;
    var out := Lt(cps, n);
    NothingInRow(cps, n, i);
    SyncRowStart(cps, n + 1);
    DeltasSkip(cps, State(n, i, out), d);
    if i < |out| {
      EmptyRow(cps, n, i + 1, d + 1);
    } else {
      LtUnchanged(cps, n, n + 1);
    }
  }

  /** One empty row, from its start to the start of the next. */
  lemma JumpOne(cps: seq<nat>, n: nat, d: nat, out: seq<nat>)
    requires n !in cps && out == Lt(cps, n) && |out| < |cps|
    ensures Lt(cps, n + 1) == out
    ensures Sync(cps, State(n, 0, out)) && Sync(cps, State(n + 1, 0, out))
    ensures Deltas(cps, State(n, 0, out), d) == Deltas(cps, State(n + 1, 0, out), d + |out| + 1)
  {
    LtUnchanged(cps, n, n + 1);
    EmptyRow(cps, n, 0, d);
  }

  /** k rows of the given width. */
  function Rows(k: nat, width: nat): nat {
    if k == 0 then 0 else width + Rows(k - 1, width)
  }

  lemma {:induction false} RowsIsProduct(k: nat, width: nat)
    ensures Rows(k, width) == k * width
  {
    if k > 0 {
      RowsIsProduct(k - 1, width);
      MulDistributes(k - 1, 1, width);
    }
  }

  lemma JumpSync(cps: seq<nat>, n: nat, m: nat, out: seq<nat>)
    requires n <= m && out == Lt(cps, n) && forall k :: 0 <= k < |cps| ==> !(n <= cps[k] < m)
    ensures Lt(cps, m) == out && Sync(cps, State(n, 0, out)) && Sync(cps, State(m, 0, out))
  {
    LtUnchanged(cps, n, m);
    SyncRowStart(cps, n);
    SyncRowStart(cps, m);
  }

  /** Jumping from n to the next code point m adds m - n rows of width |out| + 1. */
  lemma {:induction false} Jump(cps: seq<nat>, n: nat, m: nat, d: nat, out: seq<nat>)
    requires n <= m && out == Lt(cps, n) && |out| < |cps| && forall k :: 0 <= k < |cps| ==> !(n <= cps[k] < m)
    requires Sync(cps, State(n, 0, out)) && Sync(cps, State(m, 0, out))
    ensures Deltas(cps, State(n, 0, out), d) == Deltas(cps, State(m, 0, out), d + Rows(m - n, |out| + 1))
    decreases m - n
  {
    if n < m {
      JumpOne(cps, n, d, out);
      Jump(cps, n + 1, m, d + |out| + 1, out);
    }
  }

  /** The state at index j of the pass for n. */
  function InPass(cps: seq<nat>, n: nat, j: nat): State
    requires j <= |cps|
  {
    State(n, |Lt(cps[..j], n + 1)|, Lt(cps[..j], n + 1) + Lt(cps[j..], n))
  }

  lemma InPassEnds(cps: seq<nat>, n: nat)
    ensures InPass(cps, n, 0) == RowStart(cps, n)
    ensures InPass(cps, n, |cps|) == State(n, |Lt(cps, n + 1)|, Lt(cps, n + 1))
  {
    assert cps[..0] == [] && cps[0..] == cps;
    assert cps[..|cps|] == cps && cps[|cps|..] == [];
    assert [] + Lt(cps, n) == Lt(cps, n);
    assert Lt(cps, n + 1) + [] == Lt(cps, n + 1);
  }

  lemma SyncInPass(cps: seq<nat>, n: nat, j: nat)
    requires j <= |cps|
    ensures Sync(cps, InPass(cps, n, j))
    ensures Lt(cps, n + 1) == Lt(cps[..j], n + 1) + Lt(cps[j..], n + 1)
  {
    var front, back := cps[..j], cps[j..];
    assert cps == front + back;
    LtConcat(front, back, n + 1);
    LtOfLt(back, n + 1, n);
    var l, i := Lt(cps, n + 1), |Lt(front, n + 1)|;
    assert l[..i] == Lt(front, n + 1) && l[i..] == Lt(back, n + 1);
  }

  /** The state at index j, with the code point there made explicit. */
  lemma InPassSplit(cps: seq<nat>, n: nat, j: nat, c: nat, lf: seq<nat>, lb: seq<nat>)
    requires j < |cps| && c == cps[j] && lf == Lt(cps[..j], n + 1) && lb == Lt(cps[j + 1..], n)
    ensures InPass(cps, n, j) == State(n, |lf|, lf + ((if c < n then [c] else []) + lb))
    ensures InPass(cps, n, j + 1)
            == State(n, |lf| + (if c <= n then 1 else 0), (lf + (if c <= n then [c] else [])) + lb)
  {
    var front, back := cps[..j], cps[j + 1..];
    assert cps[..j + 1] == front + [c] && cps[j..] == [c] + back;
    LtConcat(front, [c], n + 1);
    assert Lt([c], n + 1) == if c <= n then [c] else [];
    assert ([c] + back)[1..] == back;
  }

  lemma AtInsertionInPass(cps: seq<nat>, n: nat, j: nat)
    requires j < |cps|
    ensures Sync(cps, InPass(cps, n, j))
    ensures cps[j] <= n ==> (AtInsertion(cps, InPass(cps, n, j)) <==> cps[j] == n)
  {
    SyncInPass(cps, n, j);
    if cps[j] <= n {
      var lf, rest := Lt(cps[..j], n + 1), Lt(cps[j..], n + 1);
      assert rest[0] == cps[j];
      assert (lf + rest)[|lf|] == cps[j];
    }
  }

  /** Moving on by one index is no step, a skip or an insertion, as the code point there is above, below or at n. */
  lemma PassStep(cps: seq<nat>, n: nat, j: nat)
    requires j < |cps|
    ensures var s, s' := InPass(cps, n, j), InPass(cps, n, j + 1);
      && s.i <= |s.out|
      && (cps[j] > n ==> s' == s)
      && (cps[j] < n ==> s' == Skip(s))
      && (cps[j] == n ==> s' == Insert(s))
  {
    var c := cps[j];
    var lf, lb := Lt(cps[..j], n + 1), Lt(cps[j + 1..], n);
    InPassSplit(cps, n, j, c, lf, lb);
    if c < n {
      assert lf + ([c] + lb) == lf + [c] + lb;
    } else {
      assert [] + lb == lb && lf + [] == lf;
      assert (lf + lb)[..|lf|] == lf && (lf + lb)[|lf|..] == lb;
    }
  }

  // ---------- The loops ----------

  /** What has been emitted, and what the rest of the run will still emit, together make up the encoding. */
  ghost predicate Progress(cps: seq<nat>, s: State, delta: nat, done: seq<nat>, bias: nat, output: Bytes) {
    var basics := Lt(cps, INITIAL_N);
    && Sync(cps, s)
    && done + Deltas(cps, s, delta) == DeltasOf(cps) && AllFit(done)
    && |s.out| == |basics| + |done|
    && bias == BiasAfter(done, |basics|, INITIAL_BIAS, true) && bias <= 204
    && output == BasicPart(basics) + EncodeText(done, |basics|, INITIAL_BIAS, true)
  }

  lemma ProgressInsert(cps: seq<nat>, s: State, delta: uint32, done: seq<nat>, bias: nat, output: Bytes)
    requires Progress(cps, s, delta, done, bias, output) && AtInsertion(cps, s)
    ensures s.i <= |s.out| && |s.out| < |cps| && bias <= 204
    ensures Progress(cps, Insert(s), 0, done + [delta],
                     Adapt(delta, |s.out| + 1, |s.out| == |Lt(cps, INITIAL_N)|), output + Digits(delta, BASE, bias))
  {
    hide Lt, Sync, BasicPart, EncodeText, BiasAfter, Digits, Adapt;
    SyncSize(cps, s);
    SyncInsert(cps, s);
    var basics := Lt(cps, INITIAL_N);
    var rest := Deltas(cps, Insert(s), 0);
    assert Deltas(cps, s, delta) == [delta] + rest;
    assert done + ([delta] + rest) == done + [delta] + rest;
    EncodeTextAppend(done, delta, |basics|, INITIAL_BIAS, true);
    AdaptBound(delta, |s.out| + 1, |s.out| == |basics|);
    var text, digits := EncodeText(done, |basics|, INITIAL_BIAS, true), Digits(delta, BASE, bias);
    assert BasicPart(basics) + text + digits == BasicPart(basics) + (text + digits);
  }

  lemma ProgressOverflow(cps: seq<nat>, s: State, delta: nat, done: seq<nat>, bias: nat, output: Bytes)
    requires Progress(cps, s, delta, done, bias, output) && |s.out| < |cps| && delta > MAX_UINT32
    ensures EncodePoints(cps) == Failure(OverflowDelta)
  {
    DeltasTooBig(cps, s, delta);
    var rest := Deltas(cps, s, delta);
    var k :| 0 <= k < |rest| && rest[k] > MAX_UINT32;
    assert DeltasOf(cps)[|done| + k] == rest[k];
  }

  lemma ProgressSkip(cps: seq<nat>, s: State, delta: nat, done: seq<nat>, bias: nat, output: Bytes)
    requires Progress(cps, s, delta, done, bias, output) && !AtInsertion(cps, s)
    ensures Progress(cps, Skip(s), delta + 1, done, bias, output)
  {
    SyncSkip(cps, s);
    SyncSize(cps, s);
  }

  /** While a code point equal to n is still ahead, the string is not complete. */
  lemma StillWaiting(cps: seq<nat>, n: nat, j: nat)
    requires j <= |cps| && n in cps[j..]
    ensures |InPass(cps, n, j).out| < |cps|
  {
    var back := cps[j..];
    var k :| 0 <= k < |back| && back[k] == n;
    LtDropsLarge(back, n, k);
  }

  lemma ProgressStart(cps: seq<nat>, output: Bytes)
    requires output == BasicPart(Lt(cps, INITIAL_N))
    ensures Progress(cps, RowStart(cps, INITIAL_N), 0, [], INITIAL_BIAS, output)
  {
    SyncRowStart(cps, INITIAL_N);
    assert [] + DeltasOf(cps) == DeltasOf(cps);
    assert output + [] == output;
  }

  lemma ProgressJump(cps: seq<nat>, n: nat, m: nat, v: EncoderVars, done: seq<nat>)
    requires Progress(cps, RowStart(cps, n), v.delta, done, v.bias, v.output)
    requires v.h == |Lt(cps, n)| < |cps| && n <= m
    requires forall k :: 0 <= k < |cps| ==> !(n <= cps[k] < m)
    ensures Lt(cps, m) == Lt(cps, n) && (m - n) * (v.h + 1) >= 0
    ensures Progress(cps, RowStart(cps, m), v.delta + (m - n) * (v.h + 1), done, v.bias, v.output)
  {
    hide Progress, Lt, Sync;
    var out := Lt(cps, n);
    JumpSync(cps, n, m, out);
    RowsIsProduct(m - n, v.h + 1);
    ProgressMoved(cps, n, m, v, done, out, v.delta + Rows(m - n, v.h + 1));
  }

  lemma ProgressMoved(cps: seq<nat>, n: nat, m: nat, v: EncoderVars, done: seq<nat>, out: seq<nat>, d: nat)
    requires n <= m && v.h == |out| < |cps| && out == Lt(cps, n) == Lt(cps, m) && d == v.delta + Rows(m - n, |out| + 1)
    requires forall k :: 0 <= k < |cps| ==> !(n <= cps[k] < m)
    requires Progress(cps, State(n, 0, out), v.delta, done, v.bias, v.output) && Sync(cps, State(m, 0, out))
    ensures Progress(cps, State(m, 0, out), d, done, v.bias, v.output)
  {
    hide Deltas, DeltasOf, Lt, Sync, BasicPart, EncodeText, BiasAfter;
    Jump(cps, n, m, v.delta, out);
  }

  lemma ProgressWrap(cps: seq<nat>, n: nat, v: EncoderVars, done: seq<nat>)
    requires v.h == |Lt(cps, n + 1)|
    requires Progress(cps, State(n, v.h, Lt(cps, n + 1)), v.delta, done, v.bias, v.output)
    ensures Progress(cps, RowStart(cps, n + 1), v.delta + 1, done, v.bias, v.output)
  {
    hide Progress, Lt;
    var s := State(n, v.h, Lt(cps, n + 1));
    assert !AtInsertion(cps, s);
    ProgressSkip(cps, s, v.delta, done, v.bias, v.output);
  }

  lemma ProgressEnd(cps: seq<nat>, n: nat, v: EncoderVars, done: seq<nat>)
    requires Progress(cps, RowStart(cps, n), v.delta, done, v.bias, v.output)
    requires |Lt(cps, n)| >= |cps|
    ensures EncodePoints(cps) == Success(v.output)
  {
    assert Deltas(cps, RowStart(cps, n), v.delta) == [];
    assert done + [] == done;
  }

  lemma SomethingLeft(cps: seq<nat>, n: nat)
    requires |Lt(cps, n)| < |cps|
    ensures exists k :: 0 <= k < |cps| && cps[k] >= n
  {
    var k := LtSomethingDropped(cps, n);
  }

  /** The search for the smallest code point that is at least n. */
  method NextCodePoint(codepoints: seq<uint32>, n: uint32) returns (m: uint32)
    requires exists k :: 0 <= k < |codepoints| && codepoints[k] >= n
    ensures m in codepoints && m >= n
    ensures forall k :: 0 <= k < |codepoints| ==> !(n <= codepoints[k] < m)
  {
    m := MAX_UINT32;
    for it := 0 to |codepoints|
      invariant m >= n && forall k :: 0 <= k < it ==> !(n <= codepoints[k] < m)
      invariant m == MAX_UINT32 || m in codepoints
    {
      if codepoints[it] >= n && codepoints[it] < m {
        m := codepoints[it];
      }
    }
  }

  /** The loop state of a pass before index j; h0 code points were in place at its start. */
  ghost predicate PassState(cps: seq<uint32>, n: nat, j: nat, h0: nat, v: EncoderVars, done: seq<nat>)
    requires j <= |cps|
  {
    && Progress(cps, InPass(cps, n, j), v.delta, done, v.bias, v.output)
    && v.h == |InPass(cps, n, j).out| >= h0
    && (n in cps[j..] || (v.delta <= j && v.h > h0))
  }

  /** The variables the loops of `encode` share. */
  datatype EncoderVars = EncoderVars(delta: uint32, bias: uint32, h: nat, output: Bytes)

  /** One code point of a pass: below n it is counted, at n a number is emitted for it. */
  method EncodeStep(codepoints: seq<uint32>, n: uint32, it: nat, v0: EncoderVars, b: nat,
                    ghost h0: nat, ghost done0: seq<nat>)
    returns (r: Result<EncoderVars, Error>, ghost done: seq<nat>)
    requires it < |codepoints| < MAX_UINT32 && b == |Lt(codepoints, INITIAL_N)|
    requires PassState(codepoints, n, it, h0, v0, done0)
    ensures r.Failure? ==> r.error == OverflowDelta && EncodePoints(codepoints) == Failure(OverflowDelta)
    ensures r.Success? ==> PassState(codepoints, n, it + 1, h0, r.value, done)
  {
    hide Progress, EncodePoints, AtInsertion;
    var EncoderVars(delta, bias, h, output) := v0;
    done := done0;
    ghost var s := InPass(codepoints, n, it);
    assert codepoints[it..] == [codepoints[it]] + codepoints[it + 1..];
    PassStep(codepoints, n, it);
    AtInsertionInPass(codepoints, n, it);
    SyncSize(codepoints, s);
    if codepoints[it] < n {
      ProgressSkip(codepoints, s, delta, done, bias, output);
      if delta == MAX_UINT32 {
        StillWaiting(codepoints, n, it);
        ProgressOverflow(codepoints, Skip(s), delta + 1, done, bias, output);
        return Failure(OverflowDelta), done;
      }
      delta := delta + 1;
    }
    if codepoints[it] == n {
      ProgressInsert(codepoints, s, delta, done, bias, output);
      done := done + [delta];
      output := EmitDigits(output, delta, bias);
      bias := AdaptBias(delta, h + 1, h == b);
      delta := 0;
      h := h + 1;
    }
    r := Success(EncoderVars(delta, bias, h, output));
  }

  /** The pass over the input for one n. It fails only when the whole encoding fails. */
  method EncodePass(codepoints: seq<uint32>, n: uint32, v0: EncoderVars, b: nat, ghost done0: seq<nat>)
    returns (r: Result<EncoderVars, Error>, ghost done: seq<nat>)
    requires |codepoints| < MAX_UINT32 && n in codepoints && b == |Lt(codepoints, INITIAL_N)|
    requires Progress(codepoints, RowStart(codepoints, n), v0.delta, done0, v0.bias, v0.output)
    requires v0.h == |Lt(codepoints, n)|
    ensures r.Failure? ==> r.error == OverflowDelta && EncodePoints(codepoints) == Failure(OverflowDelta)
    ensures r.Success? ==>
      var v := r.value;
      && v.h == |Lt(codepoints, n + 1)| > v0.h && v.delta <= |codepoints|
      && Progress(codepoints, State(n, v.h, Lt(codepoints, n + 1)), v.delta, done, v.bias, v.output)
  {
    hide Progress, EncodePoints, Lt;
    var v := v0;
    done := done0;
    InPassEnds(codepoints, n);
    assert codepoints[0..] == codepoints;
    for it := 0 to |codepoints|
      invariant PassState(codepoints, n, it, v0.h, v, done)
    {
      var step;
      step, done := EncodeStep(codepoints, n, it, v, b, v0.h, done);
      if step.Failure? {
        return step, done;
      }
      v := step.value;
    }
    assert codepoints[|codepoints|..] == [];
    r := Success(v);
  }

  /** The main loop: every pass inserts at least one code point. */
  method EncodeExtended(codepoints: seq<uint32>, b: nat, output0: Bytes) returns (r: Result<Bytes, Error>)
    requires |codepoints| < MAX_UINT32
    requires forall k :: 0 <= k < |codepoints| ==> codepoints[k] < MAX_UINT32
    requires b == |Lt(codepoints, INITIAL_N)| && output0 == BasicPart(Lt(codepoints, INITIAL_N))
    ensures r == EncodePoints(codepoints)
  {
    hide Progress, EncodePoints;
    var n: uint32 := INITIAL_N;
    var v := EncoderVars(0, INITIAL_BIAS, b, output0);
    ghost var done: seq<nat> := [];
    ProgressStart(codepoints, output0);
    while v.h < |codepoints|
      invariant v.h == |Lt(codepoints, n)| <= |codepoints|
      invariant Progress(codepoints, RowStart(codepoints, n), v.delta, done, v.bias, v.output)
      decreases |codepoints| - v.h
    {
      SomethingLeft(codepoints, n);
      var m := NextCodePoint(codepoints, n);
      ProgressJump(codepoints, n, m, v, done);
      ExceedsQuotient(m - n, MAX_UINT32 - v.delta, v.h + 1);
      if m - n > (MAX_UINT32 - v.delta) / (v.h + 1) {
        ProgressOverflow(codepoints, RowStart(codepoints, m), v.delta + (m - n) * (v.h + 1), done, v.bias, v.output);
        return Failure(OverflowDelta);
      }
      v := v.(delta := v.delta + (m - n) * (v.h + 1));
      n := m;
      var pass;
      pass, done := EncodePass(codepoints, n, v, b, done);
      if pass.Failure? {
        return Failure(pass.error);
      }
      v := pass.value;
      ProgressWrap(codepoints, n, v, done);
      v := v.(delta := v.delta + 1);
      n := n + 1;
    }
    ProgressEnd(codepoints, n, v, done);
    r := Success(v.output);
  }

  function PrependPoints(front: seq<nat>, r: Result<seq<nat>, Utf8Error>): Result<seq<nat>, Utf8Error> {
    match r
    case Failure(e) => Failure(e)
    case Success(s) => Success(front + s)
  }

  lemma PrependPoint(front: seq<nat>, s: Bytes, value: nat, rest: Bytes)
    requires s != [] && ReadFirst(s) == Success((value, rest))
    ensures PrependPoints(front, ReadAll(s)) == PrependPoints(front + [value], ReadAll(rest))
  {
    match ReadAll(rest)
    case Failure(e) =>
    case Success(values) => assert front + ([value] + values) == front + [value] + values;
  }

  /** The first loop: every code point, and the basic ones once more as output. */
  method ReadPoints(str: Bytes) returns (r: Result<(seq<uint32>, Bytes), Utf8Error>)
    ensures match ReadAll(str)
            case Failure(e) => r == Failure(e)
            case Success(cps) =>
              && r == Success((cps, Lt(cps, INITIAL_N))) && |cps| <= |str|
              && forall k :: 0 <= k < |cps| ==> cps[k] < MAX_UINT32
  {
    var output: Bytes := [];
    var codepoints: seq<uint32> := [];
    var it := 0;
    assert str[0..] == str;
    assert forall s: seq<nat> :: [] + s == s;
    while it != |str|
      invariant 0 <= it <= |str| && |codepoints| <= it
      invariant PrependPoints(codepoints, ReadAll(str[it..])) == ReadAll(str)
      invariant forall k :: 0 <= k < |codepoints| ==> codepoints[k] < MAX_UINT32
      invariant output == Lt(codepoints, INITIAL_N)
      decreases |str| - it
    {
      hide ReadFirst;
      ghost var here := str[it..];
      var value, next := ReadCodepoint(str, it);
      if value.Failure? {
        return Failure(value.error);
      }
      ReadFirstBound(here);
      PrependPoint(codepoints, here, value.value, str[next..]);
      LtConcat(codepoints, [value.value], INITIAL_N);
      assert Lt([value.value], INITIAL_N) == if value.value < INITIAL_N then [value.value] else [];
      if value.value < 0x80 {
        output := output + [value.value];
      }
      codepoints := codepoints + [value.value];
      it := next;
    }
    assert ReadAll(str[|str|..]) == Success([]);
    assert codepoints + [] == codepoints;
    r := Success((codepoints, output));
  }

  method Encode(str: Bytes) returns (r: Result<Bytes, Error>)
    requires |str| < MAX_UINT32
    ensures r == Encoded(str)
  {
    hide EncodePoints;
    var points := ReadPoints(str);
    if points.Failure? {
      return Failure(Utf8(points.error));
    }
    var (codepoints, output) := points.value;
    var b := |output|;
    if b > 0 {
      LtAll(output, INITIAL_N);
      output := output + [DELIMITER];
    }
    r := EncodeExtended(codepoints, b, output);
  }
}
