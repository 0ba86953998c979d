/** Multiples of a curve point, and the co-Z formulas as additions of curve points. */
module Scalar {
  import opened Arith
  import opened Modular
  import opened Field
  import opened CoZ
  import opened Curves

  /** The one fact about the curve taken as a hypothesis: addition of curve points is associative. */
  ghost predicate GroupLaw(c: Curve) {
    && ValidCurve(c)
    && forall P, Q, R {:trigger Plus(Plus(P, Q, c), R, c)} :: OnCurve(P, c) && OnCurve(Q, c) && OnCurve(R, c)
                         ==> Plus(Plus(P, Q, c), R, c) == Plus(P, Plus(Q, R, c), c)
  }

  lemma Associates(P: Point, Q: Point, R: Point, c: Curve)
    requires GroupLaw(c) && OnCurve(P, c) && OnCurve(Q, c) && OnCurve(R, c)
    ensures Plus(Plus(P, Q, c), R, c) == Plus(P, Plus(Q, R, c), c)
  {}

  lemma GroupIsValid(c: Curve)
    requires GroupLaw(c)
    ensures ValidCurve(c) && c.p > 3
  {}

  /** k times P. */
  ghost function Times(k: nat, P: Point, c: Curve): Point
    requires c.p > 0
    decreases k, 1
  {
    if k == 0 then Infinity else OneMore(k - 1, P, c)
  }

  /** k times P, and P. */
  ghost function OneMore(k: nat, P: Point, c: Curve): Point
    requires c.p > 0
    decreases k, 2
  {
    Plus(Times(k, P, c), P, c)
  }

  lemma AddInfinity(P: Point, c: Curve)
    requires c.p > 0
    ensures Plus(Infinity, P, c) == P == Plus(P, Infinity, c)
  {}

  lemma TimesStep(k: nat, P: Point, c: Curve)
    requires c.p > 0
    ensures Times(0, P, c) == Infinity && Times(k + 1, P, c) == Plus(Times(k, P, c), P, c)
  {
    hide Plus;
  }

  lemma {:induction false} TimesOnCurve(k: nat, P: Point, c: Curve)
    requires ValidCurve(c) && OnCurve(P, c)
    ensures OnCurve(Times(k, P, c), c)
  {
    hide Plus;
    if k > 0 {
      TimesOnCurve(k - 1, P, c);
      AddOnCurve(Times(k - 1, P, c), P, c);
    }
  }

  lemma {:induction false} TimesAdd(i: nat, j: nat, P: Point, c: Curve)
    requires GroupLaw(c) && OnCurve(P, c)
    ensures Times(i + j, P, c) == Plus(Times(i, P, c), Times(j, P, c), c)
  {
    hide Plus, GroupLaw, OnCurve, Times;
    GroupIsValid(c);
    TimesStep(0, P, c);
    if j == 0 {
      AddInfinity(Times(i, P, c), c);
    } else {
      TimesAdd(i, j - 1, P, c);
      TimesStep(i + j - 1, P, c);
      TimesStep(j - 1, P, c);
      TimesOnCurve(i, P, c);
      TimesOnCurve(j - 1, P, c);
      Associates(Times(i, P, c), Times(j - 1, P, c), P, c);
    }
  }

  lemma TimesOne(P: Point, c: Curve)
    requires c.p > 0
    ensures Times(1, P, c) == P
  {
    hide Plus;
    AddInfinity(P, c);
  }

  lemma {:induction false} TimesTimes(i: nat, j: nat, P: Point, c: Curve)
    requires GroupLaw(c) && OnCurve(P, c)
    ensures Times(i, Times(j, P, c), c) == Times(i * j, P, c)
  {
    hide Plus, GroupLaw, OnCurve, Times;
    GroupIsValid(c);
    var Q := Times(j, P, c);
    if i == 0 {
      TimesStep(0, P, c);
      TimesStep(0, Q, c);
    } else {
      TimesTimes(i - 1, j, P, c);
      TimesStep(i - 1, Q, c);
      Distribute(i - 1, 1, j);
      TimesAdd((i - 1) * j, j, P, c);
    }
  }

  /** The sum of two points is infinity only if they are opposite. */
  lemma OppositeIs(P: Point, Q: Point, c: Curve)
    requires GroupLaw(c) && OnCurve(P, c) && OnCurve(Q, c) && Plus(P, Q, c) == Infinity
    ensures Q == Neg(P, c)
  {
    hide Plus, GroupLaw, OnCurve, Neg;
    GroupIsValid(c);
    NegOnCurve(P, c);
    AddNeg(P, c);
    AddCommutes(P, Neg(P, c), c);
    Associates(Neg(P, c), P, Q, c);
    AddInfinity(Q, c);
    AddInfinity(Neg(P, c), c);
  }

  /** The difference of consecutive multiples. */
  lemma Difference(i: nat, j: nat, P: Point, c: Curve)
    requires GroupLaw(c) && OnCurve(P, c)
    ensures Plus(Times(i + j, P, c), Neg(Times(i, P, c), c), c) == Times(j, P, c)
    ensures Plus(Times(i, P, c), Neg(Times(i + j, P, c), c), c) == Neg(Times(j, P, c), c)
  {
    hide Plus, GroupLaw, OnCurve, Neg, Times;
    GroupIsValid(c);
    var S, T, U := Times(i, P, c), Times(j, P, c), Times(i + j, P, c);
    TimesOnCurve(i, P, c);
    TimesOnCurve(j, P, c);
    TimesOnCurve(i + j, P, c);
    NegOnCurve(S, c);
    NegOnCurve(U, c);
    TimesAdd(j, i, P, c);
    Associates(T, S, Neg(S, c), c);
    AddNeg(S, c);
    AddInfinity(T, c);
    Associates(T, S, Neg(U, c), c);
    AddNeg(U, c);
    AddOnCurve(S, Neg(U, c), c);
    OppositeIs(T, Plus(S, Neg(U, c), c), c);
  }

  /** Multiples that share an x-coordinate differ or add up to infinity. */
  lemma DistinctX(i: nat, j: nat, P: Point, c: Curve)
    requires GroupLaw(c) && OnCurve(P, c)
    requires Times(i, P, c).Affine? && Times(i + j, P, c).Affine?
    requires Times(j, P, c) != Infinity && Times(2 * i + j, P, c) != Infinity
    ensures Times(i, P, c).x != Times(i + j, P, c).x
  {
    hide Plus, GroupLaw, OnCurve, Neg, Times, ValidCurve, FAdd;
    GroupIsValid(c);
    var S, U := Times(i, P, c), Times(i + j, P, c);
    TimesOnCurve(i, P, c);
    TimesOnCurve(i + j, P, c);
    TimesAdd(i, i + j, P, c);
    assert i + (i + j) == 2 * i + j;
    Difference(i, j, P, c);
    AddNeg(U, c);
    if S.x == U.x {
      SameX(S.x, S.y, U.y, c);
      OppositeSum(S, U, c);
    }
  }

  lemma OppositeSum(S: Point, U: Point, c: Curve)
    requires c.p > 0 && S.Affine? && U.Affine? && S.x == U.x
    ensures FAdd(S.y, U.y, c.p) == 0 ==> Plus(S, U, c) == Infinity
  {}

  /** (X, Y) with coordinate Z stands for the affine point P. */
  ghost predicate RepPoint(X: int, Y: int, Z: int, P: Point, c: Curve) {
    && c.p > 0 && P.Affine? && Rep(X, Y, Z, P.x, P.y, c.p)
  }

  lemma RepReduced(X: int, Y: int, Z: int, x: int, y: int, p: nat)
    requires p > 0 && Rep(X, Y, Z, x, y, p)
    ensures Rep(X, Y, Z, x % p, y % p, p)
  {
    hide Cong;
    CongMod(x, p);
    CongMod(y, p);
    CongRefl(Z, p);
    CongMul(x, x % p, Z, Z, p);
    CongMul(x * Z, x % p * Z, Z, Z, p);
    CongMul(y, y % p, Z, Z, p);
    CongMul(y * Z, y % p * Z, Z, Z, p);
    CongMul(y * Z * Z, y % p * Z * Z, Z, Z, p);
    CongTrans(X, x * Z * Z, x % p * Z * Z, p);
    CongTrans(Y, y * Z * Z * Z, y % p * Z * Z * Z, p);
  }

  lemma RepThird(X: int, Y: int, Z: int, l: int, P: Point, Q: Point, c: Curve)
    requires c.p > 0 && P.Affine? && Q.Affine?
    requires Rep(X, Y, Z, ThirdX(l, P.x, Q.x), ThirdY(l, P.x, P.y, Q.x), c.p)
    ensures RepPoint(X, Y, Z, Third(l, P.x, P.y, Q.x, c.p), c)
  {
    hide Rep, ThirdX, ThirdY;
    RepReduced(X, Y, Z, ThirdX(l, P.x, Q.x), ThirdY(l, P.x, P.y, Q.x), c.p);
  }

  /** Representatives of points with different x-coordinates differ. */
  lemma RepDistinct(X1: int, X2: int, Y1: int, Y2: int, Z: int, P: Point, Q: Point, c: Curve)
    requires ValidCurve(c) && OnCurve(P, c) && OnCurve(Q, c) && !Divides(c.p, Z)
    requires RepPoint(X1, Y1, Z, P, c) && RepPoint(X2, Y2, Z, Q, c) && P.x != Q.x
    ensures !Divides(c.p, X2 - X1) && !Divides(c.p, Z * (X2 - X1))
  {
    hide Divides, Cong;
    var d, p := Q.x - P.x, c.p;
    Spread(X1, X2, P.x, Q.x, Z, p);
    ResiduesDiffer(Q.x, P.x, p);
    NonzeroProduct(d, Z, p);
    NonzeroProduct(d * Z, Z, p);
    NonzeroCong(X2 - X1, d * Z * Z, p);
    NonzeroProduct(Z, X2 - X1, p);
  }

  lemma NonzeroProduct(a: int, b: int, p: nat)
    requires Prime(p) && !Divides(p, a) && !Divides(p, b)
    ensures !Divides(p, a * b)
  {
    CongZero(a * b, p);
    CongZero(a, p);
    if Divides(p, a * b) {
      ZeroProduct(a, b, p);
    }
  }

  lemma NonzeroCong(a: int, b: int, p: nat)
    requires p > 0 && Cong(a, b, p)
    ensures Divides(p, a) <==> Divides(p, b)
  {
    CongIs(a, b, p);
    if Divides(p, a) {
      DividesSum(p, a, a - b);
    }
    if Divides(p, b) {
      DividesSum(p, b, a - b);
    }
  }

  /** XYcZ_add adds the points its arguments stand for, and moves the first one along. */
  lemma CoZAddPoints(X1: int, Y1: int, X2: int, Y2: int, Z: int, P: Point, Q: Point, c: Curve)
    requires ValidCurve(c) && OnCurve(P, c) && OnCurve(Q, c)
    requires RepPoint(X1, Y1, Z, P, c) && RepPoint(X2, Y2, Z, Q, c) && P.x != Q.x
    ensures var r := CoZAdd(X1, Y1, X2, Y2, c.p);
            var W := Z * (X2 - X1);
            Plus(P, Q, c).Affine? && RepPoint(r.x1, r.y1, W, P, c) && RepPoint(r.x2, r.y2, W, Plus(P, Q, c), c)
  {
    hide Rep, Cong, CoZAdd, Slope, Third, OnCurve;
    assert OnCurve(P, c) && OnCurve(Q, c);
    Residues(P, c);
    Residues(Q, c);
    var l := Slope(P.x, P.y, Q.x, Q.y, c.p);
    ChordSlope(P.x, P.y, Q.x, Q.y, c.p);
    CoZAddIs(X1, Y1, X2, Y2, Z, P.x, P.y, Q.x, Q.y, l, c.p);
    var r := CoZAdd(X1, Y1, X2, Y2, c.p);
    RepThird(r.x2, r.y2, Z * (X2 - X1), l, P, Q, c);
  }

  lemma Residues(P: Point, c: Curve)
    requires OnCurve(P, c) && P.Affine?
    ensures 0 <= P.x < c.p && 0 <= P.y < c.p
  {}

  /** XYcZ_addC computes the difference and the sum of the points its arguments stand for. */
  lemma CoZAddCPoints(X1: int, Y1: int, X2: int, Y2: int, Z: int, P: Point, Q: Point, c: Curve)
    requires ValidCurve(c) && OnCurve(P, c) && OnCurve(Q, c)
    requires RepPoint(X1, Y1, Z, P, c) && RepPoint(X2, Y2, Z, Q, c) && P.x != Q.x
    ensures var r := CoZAddC(X1, Y1, X2, Y2, c.p);
            var W := Z * (X2 - X1);
            && Plus(P, Neg(Q, c), c).Affine? && RepPoint(r.x1, r.y1, W, Plus(P, Neg(Q, c), c), c)
            && Plus(P, Q, c).Affine? && RepPoint(r.x2, r.y2, W, Plus(P, Q, c), c)
  {
    hide Rep, Cong, CoZAddC, Slope, Third, OnCurve, FSub;
    Residues(P, c);
    Residues(Q, c);
    var N := Neg(Q, c);
    var l, k := Slope(P.x, P.y, Q.x, Q.y, c.p), Slope(P.x, P.y, Q.x, N.y, c.p);
    ChordSlope(P.x, P.y, Q.x, Q.y, c.p);
    ChordSlope(P.x, P.y, Q.x, N.y, c.p);
    NegatedSlope(k * (Q.x - P.x), N.y, Q.y, P.y, c.p);
    CoZAddCIs(X1, Y1, X2, Y2, Z, P.x, P.y, Q.x, Q.y, l, k, c.p);
    var r := CoZAddC(X1, Y1, X2, Y2, c.p);
    RepThird(r.x1, r.y1, Z * (X2 - X1), k, P, N, c);
    RepThird(r.x2, r.y2, Z * (X2 - X1), l, P, Q, c);
  }

  lemma NegatedSlope(s: int, n: int, y: int, y1: int, p: nat)
    requires p > 0 && n == FSub(0, y, p) && Cong(s, n - y1, p)
    ensures Cong(s, -y - y1, p)
  {
    hide Cong;
    CongRefl(0, p);
    CongRefl(y, p);
    CongRefl(y1, p);
    SubCong(0, y, 0, y, p);
    CongSub(n, 0 - y, y1, y1, p);
    CongTrans(s, n - y1, -y - y1, p);
  }

  /** EccPoint_double_jacobian doubles the point its arguments stand for. */
  lemma DoublePoints(X: int, Y: int, Z: int, P: Point, c: Curve)
    requires ValidCurve(c) && OnCurve(P, c) && RepPoint(X, Y, Z, P, c) && !Divides(c.p, Z) && P.y != 0
    ensures var r := Double(X, Y, Z, c.p);
            && Plus(P, P, c).Affine? && RepPoint(r.x, r.y, r.z, Plus(P, P, c), c) && !Divides(c.p, r.z)
  {
    hide Rep, Cong, Double, Slope, Third, OnCurve, FAdd, FMul, Divides;
    Residues(P, c);
    var p := c.p;
    OddPrime(p);
    TangentSlope(P.x, P.y, P.y, p);
    var l := Slope(P.x, P.y, P.x, P.y, p);
    DoubleIs(X, Y, Z, P.x, P.y, l, p);
    var r := Double(X, Y, Z, p);
    RepThird(r.x, r.y, Y * Z, l, P, P, c);
    NotOpposed(P.y, p);
    var D := Third(l, P.x, P.y, P.x, p);
    FMulIs(Y, Z, p);
    RepMoved(r.x, r.y, Y * Z, D, c);
    NonzeroY(X, Y, Z, P, c);
    NonzeroProduct(Y, Z, p);
    ResidueOfProduct(Y, Z, p);
  }

  lemma FMulIs(a: int, b: int, p: nat)
    requires p > 0
    ensures FMul(a, b, p) == a * b % p
  {}

  lemma ResidueOfProduct(a: int, b: int, p: nat)
    requires p > 0
    ensures Divides(p, FMul(a, b, p)) <==> Divides(p, a * b)
  {
    QuotientIs(a * b % p, p, 0, a * b % p);
  }

  /** A representative may be read under any congruent coordinate. */
  lemma RepMoved(X: int, Y: int, Z: int, P: Point, c: Curve)
    requires RepPoint(X, Y, Z, P, c)
    ensures RepPoint(X, Y, Z % c.p, P, c)
  {
    CongMod(Z, c.p);
    RepCong(X, Y, Z, Z % c.p, P.x, P.y, c.p);
  }

  lemma RepCong(X: int, Y: int, Z: int, W: int, x: int, y: int, p: nat)
    requires p > 0 && Rep(X, Y, Z, x, y, p) && Cong(Z, W, p)
    ensures Rep(X, Y, W, x, y, p)
  {
    hide Cong;
    CongRefl(x, p);
    CongRefl(y, p);
    CongMul(x, x, Z, W, p);
    CongMul(x * Z, x * W, Z, W, p);
    CongMul(y, y, Z, W, p);
    CongMul(y * Z, y * W, Z, W, p);
    CongMul(y * Z * Z, y * W * W, Z, W, p);
    CongTrans(X, x * Z * Z, x * W * W, p);
    CongTrans(Y, y * Z * Z * Z, y * W * W * W, p);
  }

  lemma NotOpposed(y: int, p: nat)
    requires p > 3 && Prime(p) && 0 < y < p
    ensures FAdd(y, y, p) != 0
  {
    OddPrime(p);
    if (y + y) % p == 0 {
      assert y + y == 2 * y;
      CancelTwo(y, p);
      QuotientIs(y, p, 0, y);
    }
  }

  lemma NonzeroY(X: int, Y: int, Z: int, P: Point, c: Curve)
    requires ValidCurve(c) && OnCurve(P, c) && RepPoint(X, Y, Z, P, c) && !Divides(c.p, Z) && P.y != 0
    ensures !Divides(c.p, Y)
  {
    hide Divides, Cong;
    ResiduesDiffer(P.y, 0, c.p);
    NonzeroProduct(P.y, Z, c.p);
    NonzeroProduct(P.y * Z, Z, c.p);
    NonzeroProduct(P.y * Z * Z, Z, c.p);
    NonzeroCong(Y, P.y * Z * Z * Z, c.p);
  }
}
