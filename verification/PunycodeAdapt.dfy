/** What bias adaptation computes, with the numbers of section 5 of RFC 3492 written out. */
module PunycodeAdapt {
  import opened Arithmetic
  import opened PunycodeDigits

  function Power(b: nat, m: nat): (p: nat)
    requires b > 0
    ensures p > 0
  {
    if m == 0 then 1
    else
      MulMonotone(1, b, Power(b, m - 1));
      b * Power(b, m - 1)
  }

  /** m is the least number of divisions by 35 that bring e down to 455. */
  predicate Divisions(e: nat, m: nat) {
    e / Power(35, m) <= 455 && forall j :: 0 <= j < m ==> e / Power(35, j) > 455
  }

  /** 36 for every division, and a fraction of the next 36. */
  function Scaled(x: nat, m: nat): nat {
    QuotientBelow(36 * x, x + 38, 36);
    36 * m + 36 * x / (x + 38)
  }

  lemma {:induction false} LoopDivides(e: nat, k: nat) returns (m: nat)
    ensures Divisions(e, m) && AdaptLoop(e, k) == k + Scaled(e / Power(35, m), m)
    decreases e
  {
    if e <= 455 {
      m := 0;
      assert e / Power(35, 0) == e;
    } else {
      var less := LoopDivides(e / 35, k + 36);
      m := less + 1;
      forall j | 0 <= j <= less
        ensures e / Power(35, j + 1) == e / 35 / Power(35, j)
      {
        DivideTwice(e, 35, Power(35, j));
      }
      assert forall j :: 0 < j < m ==> e / Power(35, j) == e / 35 / Power(35, j - 1);
      assert e / Power(35, 0) == e;
    }
  }

  /**
    * Bias adaptation in closed form: a 700th of the delta at first and half of it later, with its share of every
    * code point added, is divided by 35 until it is at most 455, and the number of divisions and what is left
    * give the bias.
    */
  lemma AdaptIs(delta: nat, n: nat, first: bool) returns (m: nat)
    requires n > 0
    ensures
      var d := if first then delta / 700 else delta / 2;
      var e := d + d / n;
      && e >= 0 && Divisions(e, m)
      && Adapt(delta, n, first) == 36 * m + 36 * (e / Power(35, m)) / (e / Power(35, m) + 38)
  {
    var d := if first then delta / 700 else delta / 2;
    QuotientAtMost(d, n);
    m := LoopDivides(d + d / n, 0);
  }

  /** q * (a + 38) <= 36 * a stays true when a grows and q is at most 36. */
  lemma RoomGrows(a: nat, b: nat, q: nat)
    requires a <= b && q <= 36 && q * (a + 38) <= 36 * a
    ensures q * (b + 38) <= 36 * b
  {
    MulMonotone(q, 36, b - a);
    MulDistributes(a + 38, b - a, q);
    MulCommutes(q, a + 38);
    MulCommutes(q, b - a);
    MulCommutes(q, b + 38);
  }

  lemma FractionGrows(a: nat, b: nat)
    requires a <= b
    ensures 36 * a / (a + 38) <= 36 * b / (b + 38)
  {
    var q, p := 36 * a / (a + 38), 36 * b / (b + 38);
    DivMod(36 * a, a + 38);
    DivMod(36 * b, b + 38);
    QuotientBelow(36 * a, a + 38, 36);
    QuotientAtMost(36 * a, a + 38);
    RoomGrows(a, b, q);
    if p < q {
      MulMonotone(p + 1, q, b + 38);
      MulDistributes(p, 1, b + 38);
      assert false;
    }
  }

  /** A larger delta never gives a smaller bias. */
  lemma {:induction false} LoopGrows(a: nat, b: nat, k: nat)
    requires a <= b
    ensures AdaptLoop(a, k) <= AdaptLoop(b, k)
    decreases b
  {
    if a > 455 {
      LoopGrows(a / 35, b / 35, k + 36);
    } else if b <= 455 {
      FractionGrows(a, b);
    } else {
      QuotientBelow(36 * a, a + 38, 36);
      LoopGrows(0, b / 35, k + 36);
    }
  }

  lemma QuotientGrows(a: nat, b: nat, n: nat)
    requires a <= b && n > 0
    ensures a / n <= b / n
  {
    DivMod(a, n);
    DivMod(b, n);
    if b / n < a / n {
      MulMonotone(b / n + 1, a / n, n);
      MulDistributes(b / n, 1, n);
      assert false;
    }
  }

  /** The bias grows with the delta, and the first adaptation is the more cautious one. */
  lemma AdaptGrows(delta: nat, larger: nat, n: nat)
    requires n > 0 && delta <= larger
    ensures Adapt(delta, n, true) <= Adapt(larger, n, true)
    ensures Adapt(delta, n, false) <= Adapt(larger, n, false)
    ensures Adapt(delta, n, true) <= Adapt(delta, n, false)
  {
    hide AdaptLoop;
    QuotientsGrow(delta / 700, larger / 700, n);
    QuotientsGrow(delta / 2, larger / 2, n);
    QuotientsGrow(delta / 700, delta / 2, n);
  }

  lemma QuotientsGrow(d: nat, larger: nat, n: nat)
    requires n > 0 && d <= larger
    ensures 0 <= d / n <= larger / n && AdaptLoop(d + d / n, 0) <= AdaptLoop(larger + larger / n, 0)
  {
    QuotientAtMost(d, n);
    QuotientGrows(d, larger, n);
    LoopGrows(d + d / n, larger + larger / n, 0);
  }
}
