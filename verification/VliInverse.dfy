/** The binary extended GCD of vli_modInv. */
module VliInverse {
  import opened Arith
  import opened Modular
  import opened Digits
  import opened Bits
  import opened Vli
  import opened Carry
  import opened VliSum

  /** The loop invariant of vli_modInv: u and v are the cofactors of a and b modulo m. */
  ghost predicate Cofactors(a: nat, b: nat, u: nat, v: nat, x: nat, m: nat) {
    && m % 2 == 1 && 0 < a && 0 < b && (a % 2 == 1 || b % 2 == 1)
    && u < m && v < m
    && Cong(u * x, a, m) && Cong(v * x, b, m)
    && SameDivisors(a, b, x, m)
  }

  /** Halving modulo an odd m: an odd number is made even by adding m. */
  function Half(u: int, m: int): int { if u % 2 == 0 then u / 2 else (u + m) / 2 }

  lemma HalfCong(u: nat, m: nat, x: int, a: int)
    requires m % 2 == 1 && u < m && Cong(u * x, 2 * a, m)
    ensures 0 <= Half(u, m) < m && Cong(Half(u, m) * x, a, m)
  {
    var h := Half(u, m);
    var k := CongWitness(u * x, 2 * a, m);
    var o := if u % 2 == 0 then 0 else 1;
    assert 2 * h == u + o * m;
    Distribute(u, o * m, x);
    Associate(o * x, 1, m);
    assert o * m * x == o * x * m;
    Distribute(k, o * x, m);
    assert 2 * (h * x - a) == (k + o * x) * m;
    DividesMultiple(k + o * x, m);
    CancelTwo(h * x - a, m);
  }

  lemma DividesTwice(d: nat, a: nat, b: nat)
    requires d > 0 && b % 2 == 1
    ensures Divides(d, 2 * a) && Divides(d, b) <==> Divides(d, a) && Divides(d, b)
  {
    if Divides(d, b) {
      var k := DivisionOf(b, d);
      OddFactor(k, d, b);
      if Divides(d, 2 * a) {
        CancelTwo(a, d);
      }
    }
    if Divides(d, a) {
      DividesProduct(d, 2, a);
    }
  }

  lemma OddFactor(k: int, d: int, b: int)
    requires b == k * d && b % 2 == 1
    ensures d % 2 == 1
  {
    if d % 2 == 0 {
      EvenFactor(k, d);
    }
  }

  lemma EvenFactor(k: int, d: int)
    requires d % 2 == 0
    ensures k * d % 2 == 0
  {
    assert k * d == 2 * (k * (d / 2));
  }

  lemma SameDivisorsHalved(a: nat, b: nat, x: nat, m: nat)
    requires SameDivisors(2 * a, b, x, m) && b % 2 == 1
    ensures SameDivisors(a, b, x, m)
  {
    forall d: nat | d > 0 ensures Divides(d, a) && Divides(d, b) <==> Divides(d, x) && Divides(d, m) {
      DividesTwice(d, a, b);
    }
  }

  lemma SameDivisorsSubtract(a: nat, b: nat, x: nat, m: nat)
    requires SameDivisors(a, b, x, m) && a >= b
    ensures SameDivisors(a - b, b, x, m)
  {
    forall d: nat | d > 0 ensures Divides(d, a - b) && Divides(d, b) <==> Divides(d, x) && Divides(d, m) {
      if Divides(d, b) {
        if Divides(d, a) {
          DividesSum(d, a, b);
        }
        if Divides(d, a - b) {
          DividesSum(d, a - b, b);
        }
      }
    }
  }

  lemma CofactorsSwap(a: nat, b: nat, u: nat, v: nat, x: nat, m: nat)
    requires Cofactors(a, b, u, v, x, m)
    ensures Cofactors(b, a, v, u, x, m)
  {
    hide Divides, Cong;
  }

  lemma CofactorsStart(x: nat, m: nat)
    requires x > 0 && m > 1 && m % 2 == 1
    ensures Cofactors(x, m, 1, 0, x, m)
  {
    hide Divides, Cong;
    CongRefl(x, m);
    CongFrom(0, m, -1, m);
    assert 0 * x == 0 && 1 * x == x;
  }

  /** The branch for an even a. */
  lemma CofactorsHalve(a: nat, b: nat, u: nat, v: nat, x: nat, m: nat)
    requires Cofactors(a, b, u, v, x, m) && a % 2 == 0
    ensures Half(u, m) >= 0 && Cofactors(a / 2, b, Half(u, m), v, x, m)
  {
    hide Divides, Cong, SameDivisors, Half;
    assert a == 2 * (a / 2);
    HalfCong(u, m, x, a / 2);
    SameDivisorsHalved(a / 2, b, x, m);
  }

  /** The branch that replaces a by (a - b) / 2. */
  lemma CofactorsSubtract(a: nat, b: nat, u: nat, v: nat, x: nat, m: nat)
    requires Cofactors(a, b, u, v, x, m) && a % 2 == 1 && b % 2 == 1 && a > b
    ensures var w := if u < v then u + m - v else u - v;
            0 <= w < m && Half(w, m) >= 0 && Cofactors((a - b) / 2, b, Half(w, m), v, x, m)
  {
    hide Divides, Cong, SameDivisors, Half;
    var w := if u < v then u + m - v else u - v;
    var h := (a - b) / 2;
    assert a - b == 2 * h;
    DifferenceCong(u, v, w, a, b, x, m);
    SameDivisorsSubtract(a, b, x, m);
    HalfCong(w, m, x, h);
    SameDivisorsHalved(h, b, x, m);
  }

  /** The difference of the cofactors, up to the modulus, belongs to the difference of the numbers. */
  lemma DifferenceCong(u: nat, v: nat, w: int, a: nat, b: nat, x: nat, m: nat)
    requires m > 0 && Cong(u * x, a, m) && Cong(v * x, b, m) && (w == u - v || w == u + m - v)
    ensures Cong(w * x, a - b, m)
  {
    hide Cong;
    CongSub(u * x, a, v * x, b, m);
    var o := if w == u - v then 0 else 1;
    DifferenceOfProducts(u, v, o * m, x);
    Associate(o, x, m);
    Associate(o, m, x);
    CongFrom(w * x, u * x - v * x, o * x, m);
    CongTrans(w * x, u * x - v * x, a - b, m);
  }

  lemma DifferenceOfProducts(u: int, v: int, t: int, x: int)
    ensures (u + t - v) * x == u * x - v * x + t * x
  {
    Distribute(u + t, -v, x);
    Distribute(u, t, x);
    assert -v * x == -(v * x);
  }

  lemma CofactorsDone(a: nat, u: nat, v: nat, x: nat, m: nat)
    requires Cofactors(a, a, u, v, x, m)
    ensures u < m && Cong(u * x, a, m) && IsGcd(a, x, m)
  {
    hide Divides, Cong;
  }

  lemma EvenDigit(a: array<Byte>)
    requires a.Length == DIGITS
    ensures And(a[0], 1) == V(a) % 2
  {
    hide *;
    DigitsIs();
    VIs(a);
    SmallTwos();
    AndPower(a[0], 0);
    DigitBit(a[0..DIGITS], 0);
    BitIs(V(a), 0);
    BitIs(a[0], 0);
  }

  /** The macro EVEN. */
  method Even(a: array<Byte>) returns (r: bool)
    requires a.Length == DIGITS
    ensures r <==> V(a) % 2 == 0
  {
    EvenDigit(a);
    r := And(a[0], 1) == 0;
  }

  lemma HalfIs(u: int, m: int)
    ensures Half(u, m) == if u % 2 == 0 then u / 2 else (u + m) / 2
  {}

  /** Halving in place: the carry of the sum comes back as the top bit. */
  method HalveInPlace(u: array<Byte>, mod: array<Byte>)
    requires u.Length == mod.Length == DIGITS && u != mod
    modifies u
    ensures V(u) == Half(old(V(u)), V(mod))
  {
    hide V, Half;
    HalfIs(V(u), V(mod));
    var carry := 0;
    var even := Even(u);
    if !even {
      carry := Add(u, u, mod);
    }
    Rshift1(u);
    if carry != 0 {
      SetTop(u);
    }
  }

  /** u = (u - v) mod m, the carry of the sum and the borrow of the difference both dropped. */
  method SubtractCofactor(u: array<Byte>, v: array<Byte>, mod: array<Byte>)
    requires u.Length == v.Length == mod.Length == DIGITS && u != v && u != mod
    requires V(u) < V(mod) && V(v) < V(mod)
    modifies u
    ensures V(u) == if old(V(u)) < V(v) then old(V(u)) + V(mod) - V(v) else old(V(u)) - V(v)
  {
    hide V;
    var c := Cmp(u, v);
    if c < 0 {
      var _ := Add(u, u, mod);
    }
    var _ := Sub(u, u, v);
  }

  /** The four numbers of the loop. */
  datatype Quad = Quad(a: nat, b: nat, u: int, v: int)

  /** u - v modulo m, for residues. */
  function Less(u: int, v: int, m: int): int { if u < v then u + m - v else u - v }

  /** One round of the loop of vli_modInv. */
  function Round(q: Quad, m: nat): Quad {
    if q.a % 2 == 0 then Quad(q.a / 2, q.b, Half(q.u, m), q.v)
    else if q.b % 2 == 0 then Quad(q.a, q.b / 2, q.u, Half(q.v, m))
    else if q.a > q.b then Quad((q.a - q.b) / 2, q.b, Half(Less(q.u, q.v, m), m), q.v)
    else Quad(q.a, (q.b - q.a) / 2, q.u, Half(Less(q.v, q.u, m), m))
  }

  function Rounds(q: Quad, m: nat, n: nat): Quad {
    if n == 0 then q else Round(Rounds(q, m, n - 1), m)
  }

  /** For input 0 the loop never ends: a stays 0 and b stays the modulus. */
  lemma {:induction false} ZeroLoops(m: nat, n: nat)
    requires m > 0
    ensures var q := Rounds(Quad(0, m, 1, 0), m, n);
            q.a == 0 && q.b == m && q.a != q.b
  {
    if n > 0 {
      ZeroLoops(m, n - 1);
    }
  }

  /** A round keeps the cofactors and makes the numbers smaller. */
  lemma RoundKeeps(q: Quad, x: nat, m: nat)
    requires q.u >= 0 && q.v >= 0 && Cofactors(q.a, q.b, q.u, q.v, x, m) && q.a != q.b
    ensures var r := Round(q, m);
            r.u >= 0 && r.v >= 0 && Cofactors(r.a, r.b, r.u, r.v, x, m) && r.a + r.b < q.a + q.b
  {
    hide Cofactors, Half;
    CofactorsBounds(q.a, q.b, q.u, q.v, x, m);
    if q.a % 2 == 0 {
      CofactorsHalve(q.a, q.b, q.u, q.v, x, m);
    } else if q.b % 2 == 0 {
      CofactorsSwap(q.a, q.b, q.u, q.v, x, m);
      CofactorsHalve(q.b, q.a, q.v, q.u, x, m);
      CofactorsSwap(q.b / 2, q.a, Half(q.v, m), q.u, x, m);
    } else if q.a > q.b {
      CofactorsSubtract(q.a, q.b, q.u, q.v, x, m);
    } else {
      CofactorsSwap(q.a, q.b, q.u, q.v, x, m);
      CofactorsSubtract(q.b, q.a, q.v, q.u, x, m);
      CofactorsSwap((q.b - q.a) / 2, q.a, Half(Less(q.v, q.u, m), m), q.u, x, m);
    }
  }

  /** result = 1 / input modulo an odd mod.  For every nonzero input the loop ends, and the result is
      the cofactor of the greatest common divisor; it is the inverse exactly when that is 1. */
  method ModInv(result: array<Byte>, input: array<Byte>, mod: array<Byte>) returns (ghost g: nat)
    requires result.Length == input.Length == mod.Length == DIGITS && result != mod
    requires V(input) > 0 && V(mod) > 1 && V(mod) % 2 == 1
    modifies result
    ensures V(result) < V(mod)
    ensures Cong(V(result) * old(V(input)), g, V(mod)) && IsGcd(g, old(V(input)), V(mod))
  {
    hide V, Cofactors, Half, Cong, IsGcd;
    var a, b, u, v := new Byte[32], new Byte[32], new Byte[32], new Byte[32];
    Set(a, input);
    Set(b, mod);
    Clear(u);
    SetOne(u);
    Clear(v);
    CofactorsStart(V(input), V(mod));
    g := InverseLoop(a, b, u, v, mod, V(input));
    Set(result, u);
  }

  /** The loop of vli_modInv. */
  method InverseLoop(a: array<Byte>, b: array<Byte>, u: array<Byte>, v: array<Byte>, mod: array<Byte>, ghost x: nat)
    returns (ghost g: nat)
    requires a.Length == b.Length == u.Length == v.Length == mod.Length == DIGITS
    requires a != b && a != u && a != v && b != u && b != v && u != v
    requires mod != a && mod != b && mod != u && mod != v
    requires Cofactors(V(a), V(b), V(u), V(v), x, V(mod))
    modifies a, b, u, v
    ensures V(u) < V(mod) && Cong(V(u) * x, g, V(mod)) && IsGcd(g, x, V(mod))
  {
    hide V, Cofactors, Half, Cong, IsGcd;
    CofactorsBounds(V(a), V(b), V(u), V(v), x, V(mod));
    var cmp := Cmp(a, b);
    while cmp != 0
      invariant cmp == if V(a) > V(b) then 1 else if V(a) < V(b) then -1 else 0
      invariant Cofactors(V(a), V(b), V(u), V(v), x, V(mod))
      decreases V(a) + V(b)
    {
      CofactorsBounds(V(a), V(b), V(u), V(v), x, V(mod));
      RoundKeeps(Quad(V(a), V(b), V(u), V(v)), x, V(mod));
      Iterate(a, b, u, v, mod, cmp);
      cmp := Cmp(a, b);
    }
    CofactorsDone(V(a), V(u), V(v), x, V(mod));
    g := V(a);
  }

  lemma CofactorsBounds(a: nat, b: nat, u: nat, v: nat, x: nat, m: nat)
    requires Cofactors(a, b, u, v, x, m)
    ensures 0 < a && 0 < b && u < m && v < m && m % 2 == 1 && (a % 2 == 1 || b % 2 == 1)
  {}

  /** One round of the loop, its four branches. */
  method Iterate(a: array<Byte>, b: array<Byte>, u: array<Byte>, v: array<Byte>, mod: array<Byte>, cmp: int)
    requires a.Length == b.Length == u.Length == v.Length == mod.Length == DIGITS
    requires a != b && a != u && a != v && b != u && b != v && u != v
    requires mod != a && mod != b && mod != u && mod != v
    requires cmp != 0 && cmp == if V(a) > V(b) then 1 else if V(a) < V(b) then -1 else 0
    requires V(u) < V(mod) && V(v) < V(mod)
    modifies a, b, u, v
    ensures Quad(V(a), V(b), V(u), V(v)) == Round(old(Quad(V(a), V(b), V(u), V(v))), V(mod))
  {
    hide V, Half;
    var evenA := Even(a);
    var evenB := Even(b);
    if evenA {
      Rshift1(a);
      HalveInPlace(u, mod);
    } else if evenB {
      Rshift1(b);
      HalveInPlace(v, mod);
    } else if cmp > 0 {
      HalveDifference(a, b, u, v, mod);
    } else {
      HalveDifference(b, a, v, u, mod);
    }
  }

  /** a = (a - b) / 2 and u = (u - v) / 2 modulo mod. */
  method HalveDifference(a: array<Byte>, b: array<Byte>, u: array<Byte>, v: array<Byte>, mod: array<Byte>)
    requires a.Length == b.Length == u.Length == v.Length == mod.Length == DIGITS
    requires a != b && a != u && a != v && b != u && u != v && mod != a && mod != u
    requires V(a) > V(b) && V(u) < V(mod) && V(v) < V(mod)
    modifies a, u
    ensures V(a) == (old(V(a)) - V(b)) / 2 && V(u) == Half(Less(old(V(u)), V(v), V(mod)), V(mod))
  {
    hide V, Half;
    var _ := Sub(a, a, b);
    Rshift1(a);
    SubtractCofactor(u, v, mod);
    HalveInPlace(u, mod);
  }

  /** vli_modInv as a call that may not come back: it ends exactly for an input other than 0. */
  method ModInvEnds(result: array<Byte>, input: array<Byte>, mod: array<Byte>) returns (ends: bool, ghost g: nat)
    requires result.Length == input.Length == mod.Length == DIGITS && result != mod
    requires V(mod) > 1 && V(mod) % 2 == 1
    modifies result
    ensures ends <==> old(V(input)) != 0
    ensures ends ==> V(result) < V(mod) && Cong(V(result) * old(V(input)), g, V(mod)) && IsGcd(g, old(V(input)), V(mod))
    ensures !ends ==> V(result) == old(V(result)) && forall k: nat :: Stuck(old(V(input)), V(mod), k)
  {
    hide V, Cong, IsGcd, Stuck;
    g := 0;
    var zero := IsZero(input);
    if zero {
      NeverEnds(V(mod));
      return false, 0;
    }
    ends := true;
    g := ModInv(result, input, mod);
  }

  /** After k rounds the loop for this input has not ended, and its numbers are those it began with. */
  ghost predicate Stuck(input: nat, m: nat, k: nat) {
    var q := Rounds(Quad(input, m, 1, 0), m, k);
    q.a == input && q.b == m && q.a != q.b
  }

  lemma NeverEnds(m: nat)
    requires m > 0
    ensures forall k: nat :: Stuck(0, m, k)
  {
    forall k: nat ensures Stuck(0, m, k) {
      ZeroLoops(m, k);
    }
  }
}
