/** What one step of the co-Z Montgomery ladder does to multiples of a point, and its last inversion. */
module LadderSteps {
  import opened Arith
  import opened Modular
  import opened Field
  import opened CoZ
  import opened Curves
  import opened Scalar

  /** The difference and the sum that XYcZ_addC forms from the points m P and (m + 1) P. */
  lemma ConjugateIs(m: nat, bit: nat, P: Point, c: Curve)
    requires GroupLaw(c) && OnCurve(P, c) && P.Affine? && m >= 1 && bit <= 1
    requires Times(m, P, c).Affine? && Times(m + 1, P, c).Affine? && Times(2 * m + 1, P, c) != Infinity
    ensures var A, B := Times(m + bit, P, c), Times(m + 1 - bit, P, c);
            var D, S := if bit == 1 then P else Neg(P, c), Times(2 * m + 1, P, c);
            && OnCurve(A, c) && OnCurve(B, c) && OnCurve(D, c) && OnCurve(S, c)
            && A.Affine? && B.Affine? && S.Affine? && A.x != B.x && Plus(A, Neg(B, c), c) == D && Plus(A, B, c) == S
            && D.Affine? && D.x == P.x
  {
    hide Plus, GroupLaw, Times, OnCurve, FSub;
    GroupIsValid(c);
    TimesOne(P, c);
    TimesOnCurve(m, P, c);
    TimesOnCurve(m + 1, P, c);
    TimesOnCurve(2 * m + 1, P, c);
    NegOnCurve(P, c);
    DistinctX(m, 1, P, c);
    Difference(m, 1, P, c);
    TimesAdd(m, m + 1, P, c);
    TimesAdd(m + 1, m, P, c);
    assert m + (m + 1) == 2 * m + 1 && m + 1 + m == 2 * m + 1;
  }

  /** Then the sum and the difference have different x-coordinates, and add up to twice one of the points. */
  lemma LadderSumIs(m: nat, bit: nat, P: Point, c: Curve)
    requires GroupLaw(c) && OnCurve(P, c) && P.Affine? && m >= 1 && bit <= 1
    requires Times(2 * m, P, c) != Infinity && Times(2 * m + 1, P, c) != Infinity && Times(2 * m + 2, P, c) != Infinity
    ensures var D, S := if bit == 1 then P else Neg(P, c), Times(2 * m + 1, P, c);
            S.Affine? && S.x != P.x && Plus(S, D, c) == Times(2 * m + 2 * bit, P, c)
  {
    hide Plus, GroupLaw, Times, OnCurve, FSub;
    GroupIsValid(c);
    TimesOne(P, c);
    DistinctX(1, 2 * m, P, c);
    Difference(1, 2 * m, P, c);
    TimesAdd(1, 2 * m, P, c);
    NegOnCurve(P, c);
    TimesOnCurve(2 * m, P, c);
    Difference(1, 2 * m, P, c);
    TimesStep(2 * m + 1, P, c);
    assert 1 + 2 * m == 2 * m + 1;
  }

  /** The registers of the ladder: R0 stands for m P and R1 for (m + 1) P under one coordinate. */
  ghost predicate Registers(x0: int, y0: int, x1: int, y1: int, Z: int, m: nat, P: Point, c: Curve)
  {
    && c.p > 0 && !Divides(c.p, Z)
    && RepPoint(x0, y0, Z, Times(m, P, c), c) && RepPoint(x1, y1, Z, Times(m + 1, P, c), c)
  }

  /** After XYcZ_addC(R[bit], R[1 - bit]): the difference is P or -P, the sum (2m + 1) P. */
  lemma AfterAddC(xb: int, yb: int, xn: int, yn: int, Z: int, m: nat, bit: nat, P: Point, c: Curve)
    requires GroupLaw(c) && OnCurve(P, c) && P.Affine? && m >= 1 && bit <= 1
    requires c.p > 0 && !Divides(c.p, Z)
    requires RepPoint(xb, yb, Z, Times(m + bit, P, c), c) && RepPoint(xn, yn, Z, Times(m + 1 - bit, P, c), c)
    requires Times(2 * m + 1, P, c) != Infinity
    ensures var r := CoZAddC(xb, yb, xn, yn, c.p);
            var W := Z * (xn - xb);
            var D := if bit == 1 then P else Neg(P, c);
            && !Divides(c.p, W) && D.Affine? && OnCurve(D, c) && Times(2 * m + 1, P, c).Affine?
            && RepPoint(r.x1, r.y1, W, D, c) && RepPoint(r.x2, r.y2, W, Times(2 * m + 1, P, c), c)
  {
    hide Plus, GroupLaw, Times, OnCurve, FSub, Rep, Divides, CoZAddC;
    GroupIsValid(c);
    ConjugateIs(m, bit, P, c);
    var A, B := Times(m + bit, P, c), Times(m + 1 - bit, P, c);
    CoZAddCPoints(xb, yb, xn, yn, Z, A, B, c);
    RepDistinct(xb, xn, yb, yn, Z, A, B, c);
  }

  /** Then XYcZ_add(R[1 - bit], R[bit]) makes R[1 - bit] = (2m + 1) P and R[bit] = 2 (m + bit) P. */
  lemma AfterAdd(xn: int, yn: int, xb: int, yb: int, W: int, m: nat, bit: nat, P: Point, c: Curve)
    requires GroupLaw(c) && OnCurve(P, c) && P.Affine? && m >= 1 && bit <= 1
    requires Times(m, P, c).Affine? && Times(m + 1, P, c).Affine?
    requires c.p > 0 && !Divides(c.p, W)
    requires RepPoint(xb, yb, W, if bit == 1 then P else Neg(P, c), c) && RepPoint(xn, yn, W, Times(2 * m + 1, P, c), c)
    requires Times(2 * m, P, c) != Infinity && Times(2 * m + 1, P, c) != Infinity && Times(2 * m + 2, P, c) != Infinity
    ensures var s := CoZAdd(xn, yn, xb, yb, c.p);
            var Z := W * (xb - xn);
            && !Divides(c.p, Z) && !Divides(c.p, xb - xn)
            && RepPoint(s.x1, s.y1, Z, Times(2 * m + 1, P, c), c) && RepPoint(s.x2, s.y2, Z, Times(2 * m + 2 * bit, P, c), c)
  {
    hide Plus, GroupLaw, Times, OnCurve, FSub, Rep, Divides, CoZAdd;
    GroupIsValid(c);
    ConjugateIs(m, bit, P, c);
    LadderSumIs(m, bit, P, c);
    var D, S := if bit == 1 then P else Neg(P, c), Times(2 * m + 1, P, c);
    CoZAddPoints(xn, yn, xb, yb, W, S, D, c);
    RepDistinct(xn, xb, yn, yb, W, S, D, c);
  }

  /** Yb * (X1 - X0) * xP, the number the ladder inverts, is the coordinate to come times xP Xb yP,
      up to squares, whatever the last bit is. */
  lemma InversionTerms(sign: int, xb: int, xn: int, xP: int, yP: int, W: int)
    requires sign == 1 || sign == -1
    ensures sign * (xb - xn) * (sign * yP * W * W * W) * xP == W * (xb - xn) * (yP * (xP * W * W))
  {
    var d := xb - xn;
    assert sign * d * (sign * yP * W * W * W) == d * (yP * W * W * W) by {
      if sign == -1 {
        assert -1 * d * (-1 * yP * W * W * W) == d * (yP * W * W * W) by { Signs(d, yP, W); }
      } else {
        assert 1 * yP == yP;
      }
    }
    Reorder(d, yP, xP, W);
  }

  lemma Signs(d: int, y: int, w: int)
    ensures -1 * d * (-1 * y * w * w * w) == d * (y * w * w * w)
  {
    var t := y * w * w * w;
    assert -1 * y * w * w * w == -t;
    assert -1 * d * -t == d * t;
  }

  lemma Reorder(d: int, y: int, x: int, w: int)
    ensures d * (y * w * w * w) * x == w * d * (y * (x * w * w))
  {}

  /** (X1 - X0) * Yb * xP as the ladder computes it, for sign = 1 when the last bit is set. */
  function Denominator(xb: int, xn: int, yb: int, xP: int, bit: nat, p: nat): int
    requires p > 0
  {
    FMul(FMul(if bit == 1 then FSub(xb, xn, p) else FSub(xn, xb, p), yb, p), xP, p)
  }

  /** The number the ladder inverts is congruent to W (xb - xn) yP xb and is not zero. */
  lemma DenominatorIs(xb: int, yb: int, xn: int, W: int, bit: nat, P: Point, c: Curve)
    requires ValidCurve(c) && OnCurve(P, c) && P.Affine? && P.x != 0 && P.y != 0 && bit <= 1
    requires !Divides(c.p, W) && !Divides(c.p, xb - xn)
    requires RepPoint(xb, yb, W, if bit == 1 then P else Neg(P, c), c)
    ensures var d := Denominator(xb, xn, yb, P.x, bit, c.p);
            Cong(d, W * (xb - xn) * (P.y * xb), c.p) && !Divides(c.p, d)
  {
    hide Cong, Divides, FSub, FMul;
    var p := c.p;
    var sign := if bit == 1 then 1 else -1;
    NegatedRep(yb, P.y, W, bit, p);
    var t := if bit == 1 then FSub(xb, xn, p) else FSub(xn, xb, p);
    SignedDifference(xb, xn, bit, p);
    MulCong(t, yb, sign * (xb - xn), sign * P.y * W * W * W, p);
    CongRefl(P.x, p);
    MulCong(FMul(t, yb, p), P.x, sign * (xb - xn) * (sign * P.y * W * W * W), P.x, p);
    InversionTerms(sign, xb, xn, P.x, P.y, W);
    var u := W * (xb - xn);
    CongRefl(u, p);
    CongRefl(P.y, p);
    CongSym(xb, P.x * W * W, p);
    CongMul(P.y, P.y, P.x * W * W, xb, p);
    CongMul(u, u, P.y * (P.x * W * W), P.y * xb, p);
    var d := Denominator(xb, xn, yb, P.x, bit, p);
    CongTrans(d, u * (P.y * (P.x * W * W)), u * (P.y * xb), p);
    Residues(P, c);
    ResiduesDiffer(P.x, 0, p);
    ResiduesDiffer(P.y, 0, p);
    NonzeroProduct(P.x, W, p);
    NonzeroProduct(P.x * W, W, p);
    NonzeroProduct(P.y, P.x * W * W, p);
    NonzeroProduct(W, xb - xn, p);
    NonzeroProduct(u, P.y * (P.x * W * W), p);
    NonzeroCong(d, u * (P.y * (P.x * W * W)), p);
  }

  lemma NegatedRep(yb: int, y: int, W: int, bit: nat, p: nat)
    requires p > 0 && bit <= 1 && Cong(yb, (if bit == 1 then y else FSub(0, y, p)) * W * W * W, p)
    ensures Cong(yb, (if bit == 1 then 1 else -1) * y * W * W * W, p)
  {
    hide Cong, FSub;
    if bit == 0 {
      CongRefl(0, p);
      CongRefl(y, p);
      CongRefl(W, p);
      SubCong(0, y, 0, y, p);
      assert 0 - y == -1 * y;
      CongMul(FSub(0, y, p), -1 * y, W, W, p);
      CongMul(FSub(0, y, p) * W, -1 * y * W, W, W, p);
      CongMul(FSub(0, y, p) * W * W, -1 * y * W * W, W, W, p);
      CongTrans(yb, FSub(0, y, p) * W * W * W, -1 * y * W * W * W, p);
    } else {
      assert 1 * y == y;
    }
  }

  lemma SignedDifference(xb: int, xn: int, bit: nat, p: nat)
    requires p > 0 && bit <= 1
    ensures Cong(if bit == 1 then FSub(xb, xn, p) else FSub(xn, xb, p), (if bit == 1 then 1 else -1) * (xb - xn), p)
  {
    hide Cong, FSub;
    CongRefl(xb, p);
    CongRefl(xn, p);
    SubCong(xb, xn, xb, xn, p);
    SubCong(xn, xb, xn, xb, p);
    assert -1 * (xb - xn) == xn - xb;
  }

  /** yP * xb over the denominator is the true signed 1 / (W (xb - xn)). */
  lemma FinalInverse(d: int, i: int, u: int, y: int, xb: int, p: nat)
    requires p > 0 && Cong(i * d, 1, p) && Cong(d, u * (y * xb), p)
    ensures Cong(u * FMul(FMul(i, y, p), xb, p), 1, p)
  {
    hide Cong, FMul;
    CongRefl(i, p);
    CongRefl(y, p);
    CongRefl(xb, p);
    CongRefl(u, p);
    MulCong(i, y, i, y, p);
    MulCong(FMul(i, y, p), xb, i * y, xb, p);
    var z := FMul(FMul(i, y, p), xb, p);
    CongMul(u, u, z, i * y * xb, p);
    assert u * (i * y * xb) == i * (u * (y * xb));
    CongSym(d, u * (y * xb), p);
    CongMul(i, i, u * (y * xb), d, p);
    CongTrans(u * z, i * (u * (y * xb)), i * d, p);
    CongTrans(u * z, i * d, 1, p);
  }

  /** n is the order of P. */
  ghost predicate OrderIs(n: nat, P: Point, c: Curve)
    requires c.p > 0
  {
    n > 0 && Times(n, P, c) == Infinity && forall j: nat :: 0 < j < n ==> Times(j, P, c) != Infinity
  }
}
