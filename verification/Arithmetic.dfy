/** The few facts about products and Euclidean division that the solver does not find by itself. */
module Arithmetic {

  lemma MulAssociative(a: int, b: int, c: int)
    ensures a * b * c == a * (b * c)
  {
  }

  lemma MulDistributes(a: int, b: int, c: int)
    ensures (a + b) * c == a * c + b * c
  {
  }

  lemma MulMonotone(a: int, b: int, c: nat)
    requires a <= b
    ensures a * c <= b * c
  {
  }

  lemma MulCommutes(a: int, b: int)
    ensures a * b == b * a
  {
  }

  lemma DivMod(x: int, m: int)
    requires m > 0
    ensures x == (x / m) * m + x % m && 0 <= x % m < m
  {
  }

  /** Quotient and remainder are the only way to write x as q * m + r with 0 <= r < m. */
  lemma DivModUnique(x: int, m: int, q: int, r: int)
    requires 0 <= r < m && x == q * m + r
    ensures x / m == q && x % m == r
  {
    DivMod(x, m);
    var p := x / m;
    if p > q {
      MulMonotone(q + 1, p, m);
      MulDistributes(q, 1, m);
      assert false;
    } else if p < q {
      MulMonotone(p + 1, q, m);
      MulDistributes(p, 1, m);
      assert false;
    }
  }

  lemma QuotientAtMost(a: nat, m: nat)
    requires m > 0
    ensures 0 <= a / m <= a
  {
    DivMod(a, m);
    var q := a / m;
    if q < 0 {
      MulMonotone(q, -1, m);
      assert false;
    }
    MulMonotone(1, m, q);
    MulCommutes(q, m);
  }

  lemma QuotientBelow(a: nat, m: nat, bound: nat)
    requires m > 0 && a < bound * m
    ensures a / m < bound
  {
    DivMod(a, m);
    if a / m >= bound {
      MulMonotone(bound, a / m, m);
      assert false;
    }
  }

  /** Dividing twice is dividing by the product. */
  lemma DivideTwice(x: nat, a: nat, b: nat)
    requires a > 0 && b > 0
    ensures a * b > 0 && x / a / b == x / (a * b)
  {
    MulMonotone(1, a, b);
    DivMod(x, a);
    QuotientAtMost(x, a);
    var y := x / a;
    DivMod(y, b);
    var q, s, r := y / b, y % b, x % a;
    MulDistributes(q * b, s, a);
    MulAssociative(q, b, a);
    MulCommutes(b, a);
    MulMonotone(0, s, a);
    MulMonotone(s, b - 1, a);
    MulDistributes(b, -1, a);
    DivModUnique(x, a * b, q, s * a + r);
  }

  /** Reducing a factor first makes no difference to a product that is reduced. */
  lemma MulOfMod(x: int, c: int, m: int)
    requires m > 0
    ensures (x % m) * c % m == x * c % m
  {
    DivMod(x, m);
    var q, r := x / m, x % m;
    DivMod(r * c, m);
    MulDistributes(q * m, r, c);
    MulAssociative(q, m, c);
    MulCommutes(m, c);
    MulAssociative(q, c, m);
    MulDistributes(q * c, r * c / m, m);
    DivModUnique(x * c, m, q * c + r * c / m, r * c % m);
  }
}
