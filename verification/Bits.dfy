/**
  * Bitwise operations on unsigned words, as numbers: bit k of x is x / 2^k % 2.
  *
  * No width is built in: a word of w bits is a number below 2^w, a shift left is a product modulo 2^w.
  */
module Bits {
  import opened Arithmetic

  function Pow2(n: nat): (p: nat)
    ensures p > 0
  {
    if n == 0 then 1 else 2 * Pow2(n - 1)
  }

  function And(x: nat, y: nat): nat
    decreases x
  {
    if x == 0 then 0 else x % 2 * (y % 2) + 2 * And(x / 2, y / 2)
  }

  function Or(x: nat, y: nat): nat
    decreases x + y
  {
    if x == 0 && y == 0 then 0
    else (if x % 2 == 1 || y % 2 == 1 then 1 else 0) + 2 * Or(x / 2, y / 2)
  }

  function Xor(x: nat, y: nat): nat
    decreases x + y
  {
    if x == 0 && y == 0 then 0 else (x + y) % 2 + 2 * Xor(x / 2, y / 2)
  }

  lemma Halves(x: nat, p: nat)
    requires p > 0
    ensures x % (2 * p) == x % 2 + 2 * (x / 2 % p)
    ensures x < 2 * p ==> x / 2 < p
  {
    DivMod(x / 2, p);
    var q, r := x / 2 / p, x / 2 % p;
    QuotientAtMost(x / 2, p);
    assert x == q * p * 2 + (x % 2 + 2 * r);
    MulAssociative(q, p, 2);
    DivModUnique(x, 2 * p, q, x % 2 + 2 * r);
  }

  lemma {:induction false} OrBound(x: nat, y: nat, n: nat)
    requires x < Pow2(n) && y < Pow2(n)
    ensures Or(x, y) < Pow2(n)
    decreases n
  {
    if n > 0 {
      OrBound(x / 2, y / 2, n - 1);
    }
  }

  lemma {:induction false} XorBound(x: nat, y: nat, n: nat)
    requires x < Pow2(n) && y < Pow2(n)
    ensures Xor(x, y) < Pow2(n)
    decreases n
  {
    if n > 0 {
      XorBound(x / 2, y / 2, n - 1);
    }
  }

  lemma {:induction false} AndBound(x: nat, y: nat, n: nat)
    requires y < Pow2(n)
    ensures And(x, y) < Pow2(n)
    decreases n
  {
    if n > 0 && x > 0 {
      AndBound(x / 2, y / 2, n - 1);
    } else if x > 0 {
      AndZero(x);
    }
  }

  lemma {:induction false} AndZero(x: nat)
    ensures And(x, 0) == 0
    decreases x
  {
    if x > 0 {
      AndZero(x / 2);
    }
  }

  /** The low n bits of a disjunction come from the low n bits. */
  lemma {:induction false} OrMod(x: nat, y: nat, n: nat)
    ensures Or(x, y) % Pow2(n) == Or(x % Pow2(n), y % Pow2(n))
    decreases n
  {
    if n > 0 {
      var p := Pow2(n - 1);
      Halves(x, p);
      Halves(y, p);
      Halves(Or(x, y), p);
      OrMod(x / 2, y / 2, n - 1);
      OrStep(x, y);
      OrStep(x % (2 * p), y % (2 * p));
    }
  }

  lemma OrStep(x: nat, y: nat)
    ensures Or(x, y) % 2 == (if x % 2 == 1 || y % 2 == 1 then 1 else 0) && Or(x, y) / 2 == Or(x / 2, y / 2)
  {
    assert Or(0, 0) == 0;
  }

  /** A conjunction with fewer than n bits does not see the other operand's higher bits. */
  lemma {:induction false} AndMod(x: nat, y: nat, n: nat)
    requires y < Pow2(n)
    ensures And(x, y) == And(x % Pow2(n), y)
    decreases n
  {
    if n == 0 {
      AndZero(x);
    } else {
      var p := Pow2(n - 1);
      Halves(x, p);
      Halves(y, p);
      AndMod(x / 2, y / 2, n - 1);
      AndStep(x, y);
      AndStep(x % (2 * p), y);
    }
  }

  lemma AndStep(x: nat, y: nat)
    ensures And(x, y) == x % 2 * (y % 2) + 2 * And(x / 2, y / 2)
  {
    assert And(0, y / 2) == 0;
  }

  /** Disjoint bits: `|` is `+`. */
  lemma {:induction false} OrDisjoint(a: nat, b: nat, n: nat)
    requires b < Pow2(n)
    ensures Or(a * Pow2(n), b) == a * Pow2(n) + b
    decreases n
  {
    if n == 0 {
      OrZero(a);
    } else {
      var p := Pow2(n - 1);
      Halves(b, p);
      MulAssociative(a, p, 2);
      MulAssociative(a, 2, p);
      MulCommutes(a, 2 * p);
      OrDisjoint(a, b / 2, n - 1);
      assert a * Pow2(n) == 2 * (a * p);
      OrStep(a * Pow2(n), b);
    }
  }

  lemma {:induction false} OrZero(a: nat)
    ensures Or(a, 0) == a
    decreases a
  {
    if a > 0 {
      OrZero(a / 2);
    }
  }
}
