/** Steps about products that the solver does not find by itself. */
module Arith {
  lemma ProductGrows(d: nat, a: nat, b: nat)
    requires a < b
    ensures d * b >= d * a + d
  {
    Distribute(d, a, b - a);
    Multiple(d, b - a);
  }

  lemma Distribute(d: nat, a: nat, k: nat)
    ensures d * (a + k) == d * a + d * k
  {}

  lemma Multiple(d: nat, k: nat)
    requires k >= 1
    ensures d * k >= d
  {
    Distribute(d, k - 1, 1);
  }

  lemma ProductOrder(a: nat, b: nat, c: nat, d: nat)
    requires a <= c && b <= d
    ensures a * b <= c * d
  {
    Distribute(a, b, d - b);
    Distribute(d, a, c - a);
    assert a * d == d * a && c * d == d * c;
  }

  /** Quotient and remainder are unique. */
  lemma Remainder(x: nat, d: nat, q: nat, r: nat)
    requires x == d * q + r && r < d
    ensures x % d == r && x / d == q
  {
    var q', r' := x / d, x % d;
    assert x == d * q' + r';
    if q < q' {
      ProductGrows(d, q, q');
    } else if q' < q {
      ProductGrows(d, q', q);
    }
  }

  /** Dividing in two steps. */
  lemma DivideTwice(a: nat, d: nat, p: nat)
    requires d > 0 && p > 0
    ensures d * p > 0 && a % (d * p) == d * (a / d % p) + a % d && a / (d * p) == a / d / p
  {
    var q, r := a / d / p, a / d % p;
    Multiple(d, p);
    Split(a, d);
    Split(a / d, p);
    Distribute(d, p * q, r);
    Associate(d, p, q);
    ProductOrder(d, r + 1, d, p);
    Distribute(d, r, 1);
    Remainder(a, d * p, q, d * r + a % d);
  }

  lemma Split(a: nat, d: nat)
    requires d > 0
    ensures a == d * (a / d) + a % d
  {}

  lemma Associate(a: nat, b: nat, c: nat)
    ensures (a * b) * c == a * (b * c)
  {}
}
