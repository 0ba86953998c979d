/** Powers, the binomial theorem and Fermat's little theorem. */
module Fermat {
  import opened Arith
  import opened Modular
  import opened Field

  /** b to the e. */
  function Exp(b: int, e: nat): int {
    if e == 0 then 1 else b * Exp(b, e - 1)
  }

  lemma {:induction false} ExpAdd(b: int, d: nat, e: nat)
    ensures Exp(b, d + e) == Exp(b, d) * Exp(b, e)
  {
    if d > 0 {
      ExpAdd(b, d - 1, e);
      Associate(b, Exp(b, d - 1), Exp(b, e));
    }
  }

  lemma {:induction false} ExpCong(a: int, b: int, e: nat, m: nat)
    requires m > 0 && Cong(a, b, m)
    ensures Cong(Exp(a, e), Exp(b, e), m)
  {
    hide Cong;
    if e == 0 {
      CongRefl(1, m);
    } else {
      ExpCong(a, b, e - 1, m);
      CongMul(a, b, Exp(a, e - 1), Exp(b, e - 1), m);
    }
  }

  lemma {:induction false} ExpNonnegative(b: nat, e: nat)
    ensures Exp(b, e) >= 0
  {
    if e > 0 {
      ExpNonnegative(b, e - 1);
    }
  }

  /** The binomial coefficients, by Pascal's rule. */
  function Binomial(n: nat, k: nat): nat {
    if k == 0 then 1 else if n == 0 then 0 else Binomial(n - 1, k - 1) + Binomial(n - 1, k)
  }

  lemma {:induction false} BinomialAbove(n: nat, k: nat)
    requires k > n
    ensures Binomial(n, k) == 0
  {
    if n > 0 {
      BinomialAbove(n - 1, k - 1);
      BinomialAbove(n - 1, k);
    }
  }

  lemma {:induction false} BinomialDiagonal(n: nat)
    ensures Binomial(n, n) == 1
  {
    if n > 0 {
      BinomialDiagonal(n - 1);
      BinomialAbove(n - 1, n);
    }
  }

  /** k C(n, k) = n C(n - 1, k - 1). */
  lemma {:induction false} Absorb(n: nat, k: nat)
    requires n > 0 && k > 0
    ensures k * Binomial(n, k) == n * Binomial(n - 1, k - 1)
  {
    if n == 1 {
      if k > 1 {
        BinomialAbove(1, k);
        BinomialAbove(0, k - 1);
      }
    } else if k == 1 {
      Absorb(n - 1, 1);
    } else {
      Absorb(n - 1, k - 1);
      Absorb(n - 1, k);
      AbsorbTerms(n, k, Binomial(n - 1, k - 1), Binomial(n - 1, k), Binomial(n - 2, k - 2), Binomial(n - 2, k - 1));
    }
  }

  lemma AbsorbTerms(n: int, k: int, a: int, b: int, c: int, d: int)
    requires (k - 1) * a == (n - 1) * c && k * b == (n - 1) * d && a == c + d
    ensures k * (a + b) == n * a
  {
    Distribute(a, b, k);
    Distribute(k - 1, 1, a);
    Distribute(n - 1, 1, a);
    Distribute(c, d, n - 1);
  }

  /** The first k + 1 terms of (1 + a) to the n. */
  function Terms(n: nat, k: nat, a: int): int {
    (if k == 0 then 0 else Terms(n, k - 1, a)) + Binomial(n, k) * Exp(a, k)
  }

  lemma {:induction false} TermsStep(n: nat, k: nat, a: int)
    requires n > 0 && k > 0
    ensures Terms(n, k, a) == Terms(n - 1, k, a) + a * Terms(n - 1, k - 1, a)
  {
    if k > 1 {
      TermsStep(n, k - 1, a);
    }
    var s := if k > 1 then Terms(n - 1, k - 2, a) else 0;
    TermTerms(Binomial(n - 1, k - 1), Binomial(n - 1, k), Exp(a, k - 1), a, s);
  }

  lemma TermTerms(b: int, c: int, e: int, a: int, s: int)
    ensures (b + c) * (a * e) == c * (a * e) + a * (s + b * e) - a * s
  {}

  lemma {:induction false} BinomialTheorem(n: nat, a: int)
    ensures Terms(n, n, a) == Exp(1 + a, n)
  {
    if n > 0 {
      BinomialTheorem(n - 1, a);
      TermsStep(n, n, a);
      BinomialAbove(n - 1, n);
      assert Terms(n - 1, n, a) == Terms(n - 1, n - 1, a);
      Distribute(1, a, Exp(1 + a, n - 1));
    }
  }

  lemma LastTerm(n: nat, a: int)
    requires n > 0
    ensures Terms(n, n, a) == Terms(n, n - 1, a) + Exp(a, n)
  {
    hide Exp, Binomial;
    BinomialDiagonal(n);
  }

  /** A prime divides its inner binomial coefficients. */
  lemma PrimeBinomial(p: nat, k: nat)
    requires Prime(p) && 0 < k < p
    ensures Divides(p, Binomial(p, k))
  {
    Absorb(p, k);
    assert p * Binomial(p - 1, k - 1) == Binomial(p - 1, k - 1) * p;
    DividesMultiple(Binomial(p - 1, k - 1), p);
    PrimeProduct(p, k, Binomial(p, k));
    QuotientIs(k, p, 0, k);
  }

  lemma {:induction false} InnerTerms(p: nat, k: nat, a: int)
    requires Prime(p) && k < p
    ensures Cong(Terms(p, k, a), 1, p)
  {
    hide Cong;
    if k == 0 {
      CongRefl(1, p);
    } else {
      InnerTerms(p, k - 1, a);
      PrimeBinomial(p, k);
      DividesProduct(p, Binomial(p, k), Exp(a, k));
      var m := DivisionOf(Binomial(p, k) * Exp(a, k), p);
      CongFrom(Terms(p, k, a), Terms(p, k - 1, a), m, p);
      CongTrans(Terms(p, k, a), Terms(p, k - 1, a), 1, p);
    }
  }

  /** a^p = a modulo a prime p. */
  lemma {:induction false} Little(a: nat, p: nat)
    requires Prime(p)
    ensures Cong(Exp(a, p), a, p)
  {
    hide Cong, Exp, Terms, Binomial, Divides;
    if a == 0 {
      ExpStep(0, p);
      CongRefl(0, p);
    } else {
      Little(a - 1, p);
      BinomialTheorem(p, a - 1);
      LastTerm(p, a - 1);
      InnerTerms(p, p - 1, a - 1);
      CongAdd(Terms(p, p - 1, a - 1), 1, Exp(a - 1, p), a - 1, p);
    }
  }

  /** Multiples of p - 1 do not show in a positive exponent. */
  lemma {:induction false} ExponentPeriod(a: nat, e: nat, k: nat, p: nat)
    requires Prime(p) && e > 0
    ensures Cong(Exp(a, e + k * (p - 1)), Exp(a, e), p)
  {
    hide Cong, Exp;
    if k == 0 {
      CongRefl(Exp(a, e), p);
    } else {
      ExponentPeriod(a, e, k - 1, p);
      var f := e + (k - 1) * (p - 1);
      Distribute(k - 1, 1, p - 1);
      MulLe(0, k - 1, p - 1);
      Little(a, p);
      ExpStep(a, f);
      ExpAdd(a, p, f - 1);
      CongRefl(Exp(a, f - 1), p);
      CongMul(Exp(a, p), a, Exp(a, f - 1), Exp(a, f - 1), p);
      CongTrans(Exp(a, f + (p - 1)), Exp(a, f), Exp(a, e), p);
    }
  }

  lemma ExpStep(a: int, e: nat)
    requires e > 0
    ensures Exp(a, e) == a * Exp(a, e - 1)
  {}

  lemma {:induction false} ExpPositive(x: nat, e: nat)
    requires x > 0
    ensures Exp(x, e) > 0
  {
    if e > 0 {
      ExpPositive(x, e - 1);
      MulLe(1, x, Exp(x, e - 1));
    }
  }

  /** x^(p - 1) = 1 modulo a prime p that does not divide x. */
  lemma UnitPower(x: nat, p: nat)
    requires Prime(p) && 0 < x < p
    ensures Cong(Exp(x, p - 1), 1, p)
  {
    hide Cong, Exp, Divides;
    var e := Exp(x, p - 1);
    Little(x, p);
    ExpStep(x, p);
    ExpPositive(x, p - 1);
    CongIs(Exp(x, p), x, p);
    Distribute(e - 1, 1, x);
    PrimeProduct(p, x, e - 1);
    SmallDivides(p, x);
    CongIs(e, 1, p);
  }

  lemma SmallDivides(p: nat, x: nat)
    requires 0 < x < p
    ensures !Divides(p, x)
  {
    QuotientIs(x, p, 0, x);
  }

  /** Positive exponents that agree modulo p - 1 give the same power modulo a prime p. */
  lemma ExponentCong(a: nat, d: nat, e: nat, p: nat)
    requires Prime(p) && d > 0 && e > 0 && p > 1 && Cong(d, e, p - 1)
    ensures Cong(Exp(a, d), Exp(a, e), p)
  {
    hide Cong, Exp;
    var k := CongWitness(d, e, p - 1);
    if k >= 0 {
      ExponentPeriod(a, e, k, p);
    } else {
      assert e == d + (-k) * (p - 1);
      ExponentPeriod(a, d, -k, p);
      CongSym(Exp(a, e), Exp(a, d), p);
    }
  }
}
