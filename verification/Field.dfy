/** Arithmetic modulo m on residues 0 .. m-1, related to integers by congruence. */
module Field {
  import opened Arith
  import opened Modular

  function FAdd(a: int, b: int, m: int): (r: int)
    requires m > 0
    ensures 0 <= r < m
  {
    (a + b) % m
  }

  function FSub(a: int, b: int, m: int): (r: int)
    requires m > 0
    ensures 0 <= r < m
  {
    (a - b) % m
  }

  function FMul(a: int, b: int, m: int): (r: int)
    requires m > 0
    ensures 0 <= r < m
  {
    a * b % m
  }

  lemma AddCong(a: int, b: int, x: int, y: int, m: int)
    requires m > 0 && Cong(a, x, m) && Cong(b, y, m)
    ensures Cong(FAdd(a, b, m), x + y, m)
  {
    CongMod(a + b, m);
    CongAdd(a, x, b, y, m);
    CongTrans(FAdd(a, b, m), a + b, x + y, m);
  }

  lemma SubCong(a: int, b: int, x: int, y: int, m: int)
    requires m > 0 && Cong(a, x, m) && Cong(b, y, m)
    ensures Cong(FSub(a, b, m), x - y, m)
  {
    CongMod(a - b, m);
    CongSub(a, x, b, y, m);
    CongTrans(FSub(a, b, m), a - b, x - y, m);
  }

  lemma MulCong(a: int, b: int, x: int, y: int, m: int)
    requires m > 0 && Cong(a, x, m) && Cong(b, y, m)
    ensures Cong(FMul(a, b, m), x * y, m)
  {
    CongMod(a * b, m);
    CongMul(a, x, b, y, m);
    CongTrans(FMul(a, b, m), a * b, x * y, m);
  }

  ghost predicate Prime(p: nat) {
    p > 1 && forall d: nat :: 0 < d && Divides(d, p) ==> d == 1 || d == p
  }

  /** b is an inverse of a modulo m. */
  ghost predicate IsInverse(a: int, b: int, m: int)
    requires m > 0
  {
    Cong(a * b, 1, m)
  }

  lemma PrimeCoprime(p: nat, a: nat)
    requires Prime(p) && !Divides(p, a)
    ensures Coprime(a, p)
  {
    forall d: nat | d > 0 && Divides(d, a) && Divides(d, p) ensures d == 1 {
    }
  }

  /** Coprime numbers have a Bezout combination equal to 1. */
  lemma {:induction false} Bezout(a: nat, b: nat) returns (x: int, y: int, g: nat)
    requires a > 0 || b > 0
    ensures a * x + b * y == g && IsGcd(g, a, b)
    decreases b
  {
    if b == 0 {
      x, y, g := 1, 0, a;
      forall d: nat | d > 0 ensures Divides(d, a) <==> Divides(d, a) && Divides(d, b) {
      }
    } else {
      var x', y', g' := Bezout(b, a % b);
      g := g';
      BezoutStep(a, b, x', y', g);
      x, y := y', x' - a / b * y';
      forall d: nat | d > 0 ensures Divides(d, g) <==> Divides(d, a) && Divides(d, b) {
        RemainderDivisor(d, a, b);
      }
    }
  }

  lemma BezoutStep(a: nat, b: nat, x: int, y: int, g: nat)
    requires b > 0 && b * x + a % b * y == g
    ensures a * y + b * (x - a / b * y) == g
  {
    var q, r := a / b, a % b;
    assert a == b * q + r;
    assert a * y == b * (q * y) + r * y by {
      Distribute(b * q, r, y);
      Associate(b, q, y);
    }
    Distribute(x, -(q * y), b);
    assert b * -(q * y) == -(b * (q * y));
  }

  lemma RemainderDivisor(d: nat, a: nat, b: nat)
    requires d > 0 && b > 0
    ensures Divides(d, b) && Divides(d, a % b) <==> Divides(d, a) && Divides(d, b)
  {
    var q, r := a / b, a % b;
    assert a == q * b + r;
    if Divides(d, b) {
      DividesProduct(d, q, b);
      if Divides(d, r) {
        DividesSum(d, q * b, r);
      }
      if Divides(d, a) {
        DividesSum(d, a, q * b);
      }
    }
  }

  lemma CoprimeHasInverse(a: nat, m: nat) returns (b: nat)
    requires m > 1 && Coprime(a, m)
    ensures b < m && IsInverse(a, b, m)
  {
    hide *;
    var x, y, g := Bezout(a, m);
    GcdOfCoprime(g, a, m);
    b := Residue(x, m);
    CongMulSelf(a, x, m);
    CongFrom(a * x, 1, -y, m) by {
      assert a * x == 1 + (-y) * m by { NegateProduct(y, m); }
    }
    CongTrans(a * b, a * x, 1, m);
    InverseIs(a, b, m);
  }

  lemma NegateProduct(y: int, m: int)
    ensures (-y) * m == -(m * y)
  {}

  function Residue(x: int, m: nat): (r: nat)
    requires m > 0
    ensures r < m
  {
    x % m
  }

  lemma CongMulSelf(a: int, x: int, m: nat)
    requires m > 0
    ensures Cong(a * Residue(x, m), a * x, m)
  {
    CongMod(x, m);
    CongRefl(a, m);
    CongMul(a, a, Residue(x, m), x, m);
  }

  lemma InverseIs(a: int, b: int, m: int)
    requires m > 0
    ensures IsInverse(a, b, m) <==> Cong(a * b, 1, m)
  {}

  /** Inverses are unique among residues, and a factor with an inverse can be cancelled. */
  lemma Cancel(a: int, b: int, x: int, y: int, m: int)
    requires m > 0 && IsInverse(a, b, m) && Cong(a * x, a * y, m)
    ensures Cong(x, y, m)
  {
    hide Cong;
    CongRefl(b, m);
    CongMul(b, b, a * x, a * y, m);
    CongRefl(x, m);
    CongRefl(y, m);
    CongMul(a * b, 1, x, x, m);
    CongMul(a * b, 1, y, y, m);
    Associate(b, a, x);
    Associate(b, a, y);
    assert a * b == b * a;
    CongSym(a * b * x, 1 * x, m);
    CongTrans(x, a * b * x, a * b * y, m);
    CongTrans(x, a * b * y, y, m);
  }

  lemma InverseUnique(a: int, b: int, c: int, m: int)
    requires m > 0 && IsInverse(a, b, m) && IsInverse(a, c, m) && 0 <= b < m && 0 <= c < m
    ensures b == c
  {
    CongSym(a * c, 1, m);
    CongTrans(a * b, 1, a * c, m);
    Cancel(a, b, b, c, m);
    CongUnique(b, c, m);
  }

  /** Modulo a prime, a product is zero only if a factor is. */
  lemma PrimeProduct(p: nat, a: nat, b: nat)
    requires Prime(p) && Divides(p, a * b)
    ensures Divides(p, a) || Divides(p, b)
  {
    if !Divides(p, a) {
      PrimeCoprime(p, a);
      var c := CoprimeHasInverse(a, p);
      assert a * 0 == 0;
      CongZero(a * b, p);
      CongZero(b, p);
      Cancel(a, c, b, 0, p);
    }
  }
}
