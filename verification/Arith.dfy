/** Integer facts kept out of the solver's way elsewhere: products, quotients and remainders. */
module Arith {
  lemma MulLe(a: int, b: int, p: nat)
    requires a <= b
    ensures a * p <= b * p
  {}

  /** With remainders below p, the quotient decides the order. */
  lemma TopDigitLess(a: int, b: int, d: int, e: int, p: int)
    requires 0 <= a < p && 0 <= b < p && d < e
    ensures a + d * p < b + e * p
  {
    MulLe(d + 1, e, p);
    assert (d + 1) * p == d * p + p;
  }

  lemma QuotientIs(a: int, d: int, q: int, r: int)
    requires 0 <= r < d && a == q * d + r
    ensures a / d == q && a % d == r
  {
    if q < a / d {
      TopDigitLess(r, a % d, q, a / d, d);
    } else if a / d < q {
      TopDigitLess(a % d, r, a / d, q, d);
    }
  }

  lemma Distribute(a: int, b: int, p: int)
    ensures (a + b) * p == a * p + b * p
    ensures p * (a + b) == p * a + p * b
  {}

  lemma Associate(a: int, b: int, c: int)
    ensures a * (b * c) == (a * b) * c == b * (a * c)
  {}

  /** Dividing twice is dividing by the product. */
  lemma DivDiv(n: nat, p: nat, t: nat)
    requires p > 0 && t > 0
    ensures p * t > 0 && n / (p * t) == n / p / t
  {
    MulLe(1, p, t);
    var q, r := n / p, n % p;
    var q', r' := q / t, q % t;
    MulLe(r' + 1, t, p);
    assert n == (q' * t + r') * p + r;
    assert (q' * t + r') * p == q' * (p * t) + r' * p;
    Distribute(r', 1, p);
    QuotientIs(n, p * t, q', r' * p + r);
  }

  lemma QuotientPositive(n: nat, d: nat)
    requires d > 0
    ensures n / d == 0 <==> n < d
  {
    if n < d {
      QuotientIs(n, d, 0, n);
    } else {
      assert n == n / d * d + n % d;
    }
  }

  /** A leading digit between two bounds bounds the number. */
  lemma LeadingDigit(low: nat, p: nat, lower: nat, top: nat, upper: nat)
    requires low < p && lower <= top < upper
    ensures lower * p <= low + top * p < upper * p
  {
    MulLe(lower, top, p);
    MulLe(top + 1, upper, p);
    Distribute(top, 1, p);
  }

  /** Multiples of an even multiple of t do not show in the parity of the quotient by t. */
  lemma ParityOfQuotient(d: nat, t: nat, w: nat)
    requires t > 0
    ensures (d + 2 * (w * t)) / t % 2 == d / t % 2
  {
    var q, r := d / t, d % t;
    Distribute(q, 2 * w, t);
    assert 2 * w * t == 2 * (w * t);
    QuotientIs(d + 2 * (w * t), t, q + 2 * w, r);
  }

  lemma QuotientBelow(n: nat, d: nat, bound: nat)
    requires d > 0 && (n < bound || n < bound * d)
    ensures 0 <= n / d < bound
  {
    var q := n / d;
    if q < 0 {
      MulLe(q, -1, d);
    } else if q >= bound {
      MulLe(bound, q, d);
      MulLe(1, d, bound);
    }
  }

  lemma QuotientNonnegative(k: nat, d: nat)
    requires d > 0
    ensures 0 <= k / d <= k
  {
    MulLe(1, d, k + 1);
    QuotientBelow(k, d, k + 1);
  }
}
