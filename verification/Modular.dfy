/** Divisibility and congruence. */
module Modular {
  import opened Arith

  predicate Divides(d: int, n: int)
    requires d > 0
  {
    n % d == 0
  }

  predicate IsDifference(d: int, a: int, b: int) {
    d == a - b
  }

  /** Congruence modulo m, stated through the difference so that it is unfolded only where that is named. */
  ghost predicate Cong(a: int, b: int, m: int)
    requires m > 0
  {
    forall d: int :: IsDifference(d, a, b) ==> d % m == 0
  }

  lemma CongIs(a: int, b: int, m: int)
    requires m > 0
    ensures Cong(a, b, m) <==> Divides(m, a - b)
  {
    assert IsDifference(a - b, a, b);
  }

  lemma CongZero(a: int, m: int)
    requires m > 0
    ensures Cong(a, 0, m) <==> Divides(m, a)
  {
    CongIs(a, 0, m);
  }

  lemma DivisionOf(n: int, d: int) returns (k: int)
    requires d > 0 && Divides(d, n)
    ensures n == k * d
  {
    k := n / d;
  }

  lemma DividesMultiple(k: int, d: int)
    requires d > 0
    ensures Divides(d, k * d)
  {
    QuotientIs(k * d, d, k, 0);
  }

  lemma CongFrom(a: int, b: int, k: int, m: int)
    requires m > 0 && a == b + k * m
    ensures Cong(a, b, m)
  {
    DividesMultiple(k, m);
  }

  lemma CongWitness(a: int, b: int, m: int) returns (k: int)
    requires m > 0 && Cong(a, b, m)
    ensures a == b + k * m
  {
    CongIs(a, b, m);
    k := DivisionOf(a - b, m);
  }

  lemma CongRefl(a: int, m: int)
    requires m > 0
    ensures Cong(a, a, m)
  {
    CongFrom(a, a, 0, m);
  }

  lemma CongSym(a: int, b: int, m: int)
    requires m > 0 && Cong(a, b, m)
    ensures Cong(b, a, m)
  {
    var k := CongWitness(a, b, m);
    CongFrom(b, a, -k, m);
  }

  lemma CongTrans(a: int, b: int, c: int, m: int)
    requires m > 0 && Cong(a, b, m) && Cong(b, c, m)
    ensures Cong(a, c, m)
  {
    var k := CongWitness(a, b, m);
    var l := CongWitness(b, c, m);
    Distribute(k, l, m);
    CongFrom(a, c, k + l, m);
  }

  lemma CongAdd(a: int, b: int, c: int, d: int, m: int)
    requires m > 0 && Cong(a, b, m) && Cong(c, d, m)
    ensures Cong(a + c, b + d, m)
  {
    var k := CongWitness(a, b, m);
    var l := CongWitness(c, d, m);
    Distribute(k, l, m);
    CongFrom(a + c, b + d, k + l, m);
  }

  lemma CongSub(a: int, b: int, c: int, d: int, m: int)
    requires m > 0 && Cong(a, b, m) && Cong(c, d, m)
    ensures Cong(a - c, b - d, m)
  {
    var k := CongWitness(a, b, m);
    var l := CongWitness(c, d, m);
    Distribute(k, -l, m);
    assert (-l) * m == -(l * m);
    CongFrom(a - c, b - d, k - l, m);
  }

  lemma CongMul(a: int, b: int, c: int, d: int, m: int)
    requires m > 0 && Cong(a, b, m) && Cong(c, d, m)
    ensures Cong(a * c, b * d, m)
  {
    var k := CongWitness(a, b, m);
    var l := CongWitness(c, d, m);
    ProductOfSums(b, k, d, l, m);
    CongFrom(a * c, b * d, b * l + k * d + k * l * m, m);
  }

  lemma ProductOfSums(b: int, k: int, d: int, l: int, m: int)
    ensures (b + k * m) * (d + l * m) == b * d + (b * l + k * d + k * l * m) * m
  {}

  lemma CongMod(a: int, m: int)
    requires m > 0
    ensures Cong(a % m, a, m) && Cong(a, a % m, m)
  {
    CongFrom(a, a % m, a / m, m);
    CongSym(a, a % m, m);
  }

  lemma CongUnique(a: int, b: int, m: int)
    requires m > 0 && Cong(a, b, m) && 0 <= a < m && 0 <= b < m
    ensures a == b
  {
    var k := CongWitness(a, b, m);
    QuotientIs(a, m, k, b);
    QuotientIs(a, m, 0, a);
  }

  lemma CongIffMod(a: int, b: int, m: int)
    requires m > 0
    ensures Cong(a, b, m) <==> a % m == b % m
  {
    CongMod(a, m);
    CongMod(b, m);
    if Cong(a, b, m) {
      CongTrans(a % m, a, b, m);
      CongTrans(a % m, b, b % m, m);
      CongUnique(a % m, b % m, m);
    }
    if a % m == b % m {
      CongTrans(a, a % m, b, m);
    }
  }

  /** An odd modulus lets 2 be cancelled. */
  lemma CancelTwo(a: int, m: int)
    requires m > 0 && m % 2 == 1 && Divides(m, 2 * a)
    ensures Divides(m, a)
  {
    var k := DivisionOf(2 * a, m);
    ParityOfProduct(k, m, a);
    var h := k / 2;
    assert k * m == 2 * (h * m);
    DividesMultiple(h, m);
  }

  lemma ParityOfProduct(k: int, m: int, a: int)
    requires k * m == 2 * a && m % 2 == 1
    ensures k % 2 == 0
  {
    var j := m / 2;
    assert m == 2 * j + 1;
    assert k * m == 2 * (k * j) + k;
  }

  lemma DividesSum(d: int, a: int, b: int)
    requires d > 0 && Divides(d, a) && Divides(d, b)
    ensures Divides(d, a + b) && Divides(d, a - b)
  {
    var k := DivisionOf(a, d);
    var l := DivisionOf(b, d);
    Distribute(k, l, d);
    Distribute(k, -l, d);
    assert (-l) * d == -(l * d);
    DividesMultiple(k + l, d);
    DividesMultiple(k - l, d);
  }

  lemma DividesProduct(d: int, a: int, b: int)
    requires d > 0 && (Divides(d, a) || Divides(d, b))
    ensures Divides(d, a * b)
  {
    if Divides(d, a) {
      var k := DivisionOf(a, d);
      Associate(b, k, d);
      DividesMultiple(b * k, d);
    } else {
      var k := DivisionOf(b, d);
      Associate(a, k, d);
      DividesMultiple(a * k, d);
    }
  }

  lemma DividesSelf(d: int)
    requires d > 0
    ensures Divides(d, d)
  {
    DividesMultiple(1, d);
  }

  /** x and y have exactly the common divisors of a and b. */
  ghost predicate SameDivisors(x: nat, y: nat, a: nat, b: nat) {
    forall d: nat :: d > 0 ==> (Divides(d, x) && Divides(d, y) <==> Divides(d, a) && Divides(d, b))
  }

  /** g is the greatest common divisor of a and b: its divisors are their common divisors. */
  ghost predicate IsGcd(g: nat, a: nat, b: nat) {
    g > 0 && forall d: nat :: d > 0 ==> (Divides(d, g) <==> Divides(d, a) && Divides(d, b))
  }

  ghost predicate Coprime(a: nat, b: nat) {
    forall d: nat :: d > 0 && Divides(d, a) && Divides(d, b) ==> d == 1
  }

  lemma GcdOfCoprime(g: nat, a: nat, b: nat)
    requires IsGcd(g, a, b) && Coprime(a, b)
    ensures g == 1
  {
    DividesSelf(g);
  }
}
