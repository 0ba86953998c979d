/** The point routines of ecc.c on digit arrays, each tied to its formula on residues. */
module Points {
  import opened Arith
  import opened Digits
  import opened Bits
  import opened Field
  import opened Vli
  import opened VliSum
  import opened VliInverse
  import opened P256
  import opened CoZ

  lemma HalfFormula(x: nat, half: nat)
    requires x < P && half == (if x % 2 == 0 then x else x + P) / 2
    ensures half == FHalf(x, P) < P
  {}

  /** Halving modulo P in place: an odd number has P added first, and the carry of that sum becomes the top bit. */
  method HalveModP(a: array<Byte>, p: array<Byte>)
    requires a.Length == p.Length == DIGITS && a != p && V(p) == P && V(a) < P
    modifies a
    ensures V(a) == FHalf(old(V(a)), P) < P
  {
    hide V, FHalf, Bit;
    BitZero(V(a));
    ghost var x := V(a);
    var odd := TestBit(a, 0);
    if odd != 0 {
      var carry := Add(a, a, p);
      Rshift1(a);
      OrTopDigit(a, carry);
    } else {
      Rshift1(a);
    }
    HalfFormula(x, V(a));
  }

  lemma BitZero(n: nat)
    ensures Bit(n, 0) == n % 2
  {
    assert Two(0) == 1;
  }

  /** A carry becomes the top bit. */
  method OrTopDigit(a: array<Byte>, carry: Byte)
    requires a.Length == DIGITS && 2 * V(a) < RADIX && carry <= 1
    modifies a
    ensures 2 * V(a) == 2 * old(V(a)) + carry * RADIX
  {
    if carry == 1 {
      SetTop(a);
    } else {
      OrZero(a[DIGITS - 1]);
      a[DIGITS - 1] := Or(a[DIGITS - 1], 0);
      assert a[0..DIGITS] == old(a[0..DIGITS]);
    }
  }

  lemma OrZero(a: nat)
    ensures Or(a, 0) == a
  {}

  /** EccPoint_double_jacobian, in place. */
  method DoubleJacobian(X1: array<Byte>, Y1: array<Byte>, Z1: array<Byte>, p: array<Byte>)
    requires X1.Length == Y1.Length == Z1.Length == p.Length == DIGITS
    requires X1 != Y1 && X1 != Z1 && Y1 != Z1 && p != X1 && p != Y1 && p != Z1
    requires V(p) == P && V(X1) < P && V(Y1) < P
    modifies X1, Y1, Z1
    ensures Jacobian(V(X1), V(Y1), V(Z1))
            == if old(V(Z1)) == 0 then old(Jacobian(V(X1), V(Y1), V(Z1))) else Double(old(V(X1)), old(V(Y1)), old(V(Z1)), P)
    ensures V(X1) < P && V(Y1) < P && V(Z1) < P
  {
    hide V, FAdd, FSub, FMul, FHalf;
    var zero := IsZero(Z1);
    if zero {
      return;
    }
    var t4, t5 := new Byte[32], new Byte[32];
    ghost var x, y, z := V(X1), V(Y1), V(Z1);
    ModSquareFast(t4, Y1, p);
    ModMultFast(t5, X1, t4, p);
    ModSquareFast(t4, t4, p);
    ModMultFast(Y1, Y1, Z1, p);
    ModSquareFast(Z1, Z1, p);
    TangentNumerator(X1, Z1, p);
    DoubleFromSlope(X1, Z1, t4, t5, p);
    Set(X1, Z1);
    Set(Z1, Y1);
    Set(Y1, t4);
  }

  /** The second half of the doubling: from B in X1, y1^4 in t4 and A in t5 to x3 in Z1 and y3 in t4. */
  method DoubleFromSlope(X1: array<Byte>, Z1: array<Byte>, t4: array<Byte>, t5: array<Byte>, p: array<Byte>)
    requires X1.Length == Z1.Length == t4.Length == t5.Length == p.Length == DIGITS
    requires X1 != Z1 && X1 != t4 && X1 != t5 && Z1 != t4 && Z1 != t5 && t4 != t5
    requires p != X1 && p != Z1 && p != t4 && p != t5
    requires V(p) == P && V(X1) < P && V(t4) < P && V(t5) < P
    modifies X1, Z1, t4, t5
    ensures var b, y4, a := old(V(X1)), old(V(t4)), old(V(t5));
            var x3 := FSub(FSub(FMul(b, b, P), a, P), a, P);
            V(Z1) == x3 < P && V(t4) == FSub(FMul(b, FSub(a, x3, P), P), y4, P) < P
  {
    hide V, FAdd, FSub, FMul;
    ModSquareFast(Z1, X1, p);
    ModSub(Z1, Z1, t5, p);
    ModSub(Z1, Z1, t5, p);
    ModSub(t5, t5, Z1, p);
    ModMultFast(X1, X1, t5, p);
    ModSub(t4, X1, t4, p);
  }

  /** 3/2 * (x1^2 - z1^4), from x1 in X1 and z1^2 in Z1. */
  method TangentNumerator(X1: array<Byte>, Z1: array<Byte>, p: array<Byte>)
    requires X1.Length == Z1.Length == p.Length == DIGITS && X1 != Z1 && p != X1 && p != Z1
    requires V(p) == P && V(X1) < P && V(Z1) < P
    modifies X1, Z1
    ensures var x, zz := old(V(X1)), old(V(Z1));
            var s := FAdd(x, zz, P);
            var m := FMul(s, FSub(s, FAdd(zz, zz, P), P), P);
            V(X1) == FHalf(FAdd(m, FAdd(m, m, P), P), P) < P
  {
    hide V, FAdd, FSub, FMul, FHalf;
    ModAdd(X1, X1, Z1, p);
    ModAdd(Z1, Z1, Z1, p);
    ModSub(Z1, X1, Z1, p);
    ModMultFast(X1, X1, Z1, p);
    ModAdd(Z1, X1, X1, p);
    ModAdd(X1, X1, Z1, p);
    HalveModP(X1, p);
  }

  /** apply_z: (x1, y1) becomes (x1 * z^2, y1 * z^3). */
  method ApplyZInPlace(X1: array<Byte>, Y1: array<Byte>, Z: array<Byte>, p: array<Byte>)
    requires X1.Length == Y1.Length == Z.Length == p.Length == DIGITS
    requires X1 != Y1 && X1 != Z && Y1 != Z && p != X1 && p != Y1 && V(p) == P
    modifies X1, Y1
    ensures (V(X1), V(Y1)) == ApplyZ(old(V(X1)), old(V(Y1)), V(Z), P)
    ensures V(X1) < P && V(Y1) < P
  {
    hide V, FAdd, FSub, FMul;
    var t1 := new Byte[32];
    ModSquareFast(t1, Z, p);
    ModMultFast(X1, X1, t1, p);
    ModMultFast(t1, t1, Z, p);
    ModMultFast(Y1, Y1, t1, p);
  }

  /** XYcZ_add, in place. */
  method XYcZAdd(X1: array<Byte>, Y1: array<Byte>, X2: array<Byte>, Y2: array<Byte>, p: array<Byte>)
    requires X1.Length == Y1.Length == X2.Length == Y2.Length == p.Length == DIGITS
    requires X1 != Y1 && X1 != X2 && X1 != Y2 && Y1 != X2 && Y1 != Y2 && X2 != Y2
    requires p != X1 && p != Y1 && p != X2 && p != Y2
    requires V(p) == P && V(X1) < P && V(Y1) < P && V(X2) < P && V(Y2) < P
    modifies X1, Y1, X2, Y2
    ensures Pair(V(X1), V(Y1), V(X2), V(Y2)) == CoZAdd(old(V(X1)), old(V(Y1)), old(V(X2)), old(V(Y2)), P)
    ensures V(X1) < P && V(Y1) < P && V(X2) < P && V(Y2) < P
  {
    hide V, FAdd, FSub, FMul;
    var t5 := new Byte[32];
    ModSub(t5, X2, X1, p);
    ModSquareFast(t5, t5, p);
    ModMultFast(X1, X1, t5, p);
    ModMultFast(X2, X2, t5, p);
    ModSub(Y2, Y2, Y1, p);
    ModSquareFast(t5, Y2, p);
    ModSub(t5, t5, X1, p);
    ModSub(t5, t5, X2, p);
    ModSub(X2, X2, X1, p);
    ModMultFast(Y1, Y1, X2, p);
    ModSub(X2, X1, t5, p);
    ModMultFast(Y2, Y2, X2, p);
    ModSub(Y2, Y2, Y1, p);
    Set(X2, t5);
  }

  /** XYcZ_addC, in place. */
  method XYcZAddC(X1: array<Byte>, Y1: array<Byte>, X2: array<Byte>, Y2: array<Byte>, p: array<Byte>)
    requires X1.Length == Y1.Length == X2.Length == Y2.Length == p.Length == DIGITS
    requires X1 != Y1 && X1 != X2 && X1 != Y2 && Y1 != X2 && Y1 != Y2 && X2 != Y2
    requires p != X1 && p != Y1 && p != X2 && p != Y2
    requires V(p) == P && V(X1) < P && V(Y1) < P && V(X2) < P && V(Y2) < P
    modifies X1, Y1, X2, Y2
    ensures Pair(V(X1), V(Y1), V(X2), V(Y2)) == CoZAddC(old(V(X1)), old(V(Y1)), old(V(X2)), old(V(Y2)), P)
    ensures V(X1) < P && V(Y1) < P && V(X2) < P && V(Y2) < P
  {
    hide V, FAdd, FSub, FMul;
    var t5, t6, t7 := new Byte[32], new Byte[32], new Byte[32];
    AddCProducts(X1, Y1, X2, Y2, t5, t6, p);
    AddCSum(X1, Y1, X2, Y2, t6, t7, p);
    AddCDifference(X1, Y1, t5, t6, t7, p);
    Set(X1, t7);
  }

  /** The first lines of XYcZ_addC: B in X1, C in X2, y2 + y1 in t5, y2 - y1 in Y2, y1 * (C - B) in Y1. */
  method AddCProducts(X1: array<Byte>, Y1: array<Byte>, X2: array<Byte>, Y2: array<Byte>, t5: array<Byte>,
      t6: array<Byte>, p: array<Byte>)
    requires X1.Length == Y1.Length == X2.Length == Y2.Length == t5.Length == t6.Length == p.Length == DIGITS
    requires X1 != Y1 && X1 != X2 && X1 != Y2 && Y1 != X2 && Y1 != Y2 && X2 != Y2
    requires t5 != X1 && t5 != Y1 && t5 != X2 && t5 != Y2 && t6 != X1 && t6 != Y1 && t6 != X2 && t6 != Y2 && t5 != t6
    requires p != X1 && p != Y1 && p != X2 && p != Y2 && p != t5 && p != t6
    requires V(p) == P && V(X1) < P && V(Y1) < P && V(X2) < P && V(Y2) < P
    modifies X1, Y1, X2, Y2, t5, t6
    ensures var t := FSub(old(V(X2)), old(V(X1)), P);
            var a := FMul(t, t, P);
            V(X1) == FMul(old(V(X1)), a, P) < P && V(X2) == FMul(old(V(X2)), a, P) < P
    ensures V(t5) == FAdd(old(V(Y2)), old(V(Y1)), P) < P
    ensures V(Y2) == FSub(old(V(Y2)), old(V(Y1)), P) < P
    ensures V(Y1) == FMul(old(V(Y1)), FSub(V(X2), V(X1), P), P) < P
  {
    hide V, FAdd, FSub, FMul;
    ModSub(t5, X2, X1, p);
    ModSquareFast(t5, t5, p);
    ModMultFast(X1, X1, t5, p);
    ModMultFast(X2, X2, t5, p);
    ModAdd(t5, Y2, Y1, p);
    ModSub(Y2, Y2, Y1, p);
    ModSub(t6, X2, X1, p);
    ModMultFast(Y1, Y1, t6, p);
  }

  /** The sum of XYcZ_addC in X2 and Y2; B + C stays in t6. */
  method AddCSum(X1: array<Byte>, Y1: array<Byte>, X2: array<Byte>, Y2: array<Byte>, t6: array<Byte>, t7: array<Byte>,
      p: array<Byte>)
    requires X1.Length == Y1.Length == X2.Length == Y2.Length == t6.Length == t7.Length == p.Length == DIGITS
    requires X1 != Y1 && X1 != X2 && X1 != Y2 && Y1 != X2 && Y1 != Y2 && X2 != Y2
    requires t7 != X1 && t7 != Y1 && t7 != X2 && t7 != Y2 && t6 != X1 && t6 != Y1 && t6 != X2 && t6 != Y2 && t7 != t6
    requires p != X1 && p != Y1 && p != X2 && p != Y2 && p != t7 && p != t6
    requires V(p) == P && V(X1) < P && V(Y1) < P && V(X2) < P && V(Y2) < P
    modifies X2, Y2, t6, t7
    ensures V(t6) == FAdd(V(X1), old(V(X2)), P) < P
    ensures V(X2) == FSub(FMul(old(V(Y2)), old(V(Y2)), P), V(t6), P) < P
    ensures V(Y2) == FSub(FMul(old(V(Y2)), FSub(V(X1), V(X2), P), P), V(Y1), P) < P
  {
    hide V, FAdd, FSub, FMul;
    ModAdd(t6, X1, X2, p);
    ModSquareFast(X2, Y2, p);
    ModSub(X2, X2, t6, p);
    ModSub(t7, X1, X2, p);
    ModMultFast(Y2, Y2, t7, p);
    ModSub(Y2, Y2, Y1, p);
  }

  /** The difference of XYcZ_addC in t7 and Y1. */
  method AddCDifference(X1: array<Byte>, Y1: array<Byte>, t5: array<Byte>, t6: array<Byte>, t7: array<Byte>, p: array<Byte>)
    requires X1.Length == Y1.Length == t5.Length == t6.Length == t7.Length == p.Length == DIGITS
    requires X1 != Y1 && t5 != X1 && t5 != Y1 && t6 != X1 && t6 != Y1 && t7 != X1 && t7 != Y1
    requires t5 != t6 && t5 != t7 && t6 != t7 && p != X1 && p != Y1 && p != t5 && p != t6 && p != t7
    requires V(p) == P && V(X1) < P && V(Y1) < P && V(t5) < P && V(t6) < P
    modifies Y1, t6, t7
    ensures V(t7) == FSub(FMul(V(t5), V(t5), P), old(V(t6)), P) < P
    ensures V(Y1) == FSub(FMul(FSub(V(t7), V(X1), P), V(t5), P), old(V(Y1)), P) < P
  {
    hide V, FAdd, FSub, FMul;
    ModSquareFast(t7, t5, p);
    ModSub(t7, t7, t6, p);
    ModSub(t6, t7, X1, p);
    ModMultFast(t6, t6, t5, p);
    ModSub(Y1, t6, Y1, p);
  }
}
