/** The ladder of EccPoint_mult as a function of the scalar, and when the number it inverts is zero. */
module Rungs {
  import opened Arith
  import opened Modular
  import opened Field
  import opened CoZ
  import opened Curves
  import opened Scalar
  import opened LadderSteps

  /** R0 and R1. */
  datatype Regs = Regs(x0: int, y0: int, x1: int, y1: int)

  /** XYcZ_addC(R[bit], R[1 - bit]). */
  function ConjugateAdd(r: Regs, bit: nat, p: nat): Regs
    requires p > 0
  {
    if bit == 1 then
      var c := CoZAddC(r.x1, r.y1, r.x0, r.y0, p);
      Regs(c.x2, c.y2, c.x1, c.y1)
    else
      var c := CoZAddC(r.x0, r.y0, r.x1, r.y1, p);
      Regs(c.x1, c.y1, c.x2, c.y2)
  }

  /** XYcZ_add(R[1 - bit], R[bit]). */
  function PlainAdd(r: Regs, bit: nat, p: nat): Regs
    requires p > 0
  {
    if bit == 1 then
      var c := CoZAdd(r.x0, r.y0, r.x1, r.y1, p);
      Regs(c.x1, c.y1, c.x2, c.y2)
    else
      var c := CoZAdd(r.x1, r.y1, r.x0, r.y0, p);
      Regs(c.x2, c.y2, c.x1, c.y1)
  }

  /** One round of the loop. */
  function Rung(r: Regs, bit: nat, p: nat): Regs
    requires p > 0
  {
    PlainAdd(ConjugateAdd(r, bit, p), bit, p)
  }

  /** XYcZ_initial_double for the point (x, y) and the initial coordinate z: EccPoint_double_jacobian leaves a zero
      coordinate alone. */
  function Start(x: int, y: int, z: int, p: nat): Regs
    requires p > 0
  {
    var a := ApplyZ(x, y, z, p);
    var d := if z == 0 then Jacobian(a.0, a.1, z) else Double(a.0, a.1, z, p);
    var b := ApplyZ(x, y, d.z, p);
    Regs(b.0, b.1, d.x, d.y)
  }

  /** The registers after the leading bits m. */
  function Climb(m: nat, r: Regs, p: nat): Regs
    requires p > 0
  {
    if m <= 1 then r else Rung(Climb(m / 2, r, p), m % 2, p)
  }

  /** The registers before the last addition. */
  function LastRegs(k: nat, x: int, y: int, z: int, p: nat): Regs
    requires p > 0
  {
    ConjugateAdd(Climb(k / 2, Start(x, y, z, p), p), k % 2, p)
  }

  /** (X1 - X0) * Yb * xP for the registers before the last addition. */
  function NumberOf(r: Regs, bit: nat, x: int, p: nat): int
    requires p > 0
  {
    if bit == 1 then Denominator(r.x1, r.x0, r.y1, x, 1, p) else Denominator(r.x0, r.x1, r.y0, x, 0, p)
  }

  /** The number that EccPoint_mult inverts. */
  function Inverted(k: nat, x: int, y: int, z: int, p: nat): int
    requires p > 0
  {
    NumberOf(LastRegs(k, x, y, z, p), k % 2, x, p)
  }

  ghost predicate Residues4(r: Regs, p: nat) {
    0 <= r.x0 < p && 0 <= r.y0 < p && 0 <= r.x1 < p && 0 <= r.y1 < p
  }

  /** R0 and R1 stand for m P and (m + 1) P under the nonzero coordinate Z. */
  ghost predicate Alive(r: Regs, Z: int, m: nat, P: Point, c: Curve) {
    Residues4(r, c.p) && Registers(r.x0, r.y0, r.x1, r.y1, Z, m, P, c)
  }

  /** The coordinate has become zero: one register is (0, 0), the other a point of y^2 = x^3. */
  ghost predicate Dead(r: Regs, p: nat) {
    && p > 0 && Residues4(r, p)
    && (|| (r.x0 == 0 == r.y0 && Cong(r.y1 * r.y1, r.x1 * r.x1 * r.x1, p))
        || (r.x1 == 0 == r.y1 && Cong(r.y0 * r.y0, r.x0 * r.x0 * r.x0, p)))
  }

  lemma ZeroArithmetic(a: int, p: nat)
    requires p > 0
    ensures FMul(0, a, p) == 0 == FMul(a, 0, p) && FSub(0, 0, p) == 0 == FAdd(0, 0, p)
    ensures 0 <= a < p ==> FSub(a, 0, p) == a == FAdd(a, 0, p) == FAdd(0, a, p)
  {
    assert 0 * a == 0 == a * 0;
    QuotientIs(0, p, 0, 0);
    if 0 <= a < p {
      QuotientIs(a, p, 0, a);
    }
  }


  /** The conjugate addition of (0, 0) and a point of the cusp. */
  lemma ConjugateFromZero(X: int, Y: int, p: nat)
    requires p > 0 && 0 <= X < p && 0 <= Y < p && Cong(Y * Y, X * X * X, p)
    ensures CoZAddC(0, 0, X, Y, p) == Pair(0, 0, 0, 0)
  {
    hide Cong, FAdd, FSub, FMul;
    ZeroArithmetic(X, p);
    ZeroArithmetic(Y, p);
    var a := FMul(X, X, p);
    ZeroArithmetic(a, p);
    var c := FMul(X, a, p);
    ZeroArithmetic(c, p);
    ZeroArithmetic(FSub(c, 0, p), p);
    CuspDifference(X, Y, a, c, p);
  }

  /** The conjugate addition of a point of the cusp and (0, 0). */
  lemma ConjugateToZero(X: int, Y: int, p: nat)
    requires p > 0 && 0 <= X < p && 0 <= Y < p && Cong(Y * Y, X * X * X, p)
    ensures CoZAddC(X, Y, 0, 0, p) == Pair(0, 0, 0, 0)
  {
    hide Cong, FAdd, FSub, FMul;
    var t, u := FSub(0, X, p), FSub(0, Y, p);
    ZeroArithmetic(X, p);
    ZeroArithmetic(Y, p);
    NegatedSquares(X, p);
    NegatedSquares(Y, p);
    var a := FMul(t, t, p);
    ZeroArithmetic(a, p);
    var b := FMul(X, a, p);
    ZeroArithmetic(b, p);
    CuspDifference(X, Y, a, b, p);
    NegatedProducts(b, Y, p);
    ZeroArithmetic(FMul(Y, FSub(0, b, p), p), p);
  }

  /** (-a)^2 = a^2. */
  lemma NegatedSquares(a: int, p: nat)
    requires p > 0
    ensures FMul(FSub(0, a, p), FSub(0, a, p), p) == FMul(a, a, p)
  {
    hide Cong, FSub;
    CongRefl(0, p);
    CongRefl(a, p);
    SubCong(0, a, 0, a, p);
    CongMul(FSub(0, a, p), 0 - a, FSub(0, a, p), 0 - a, p);
    assert (0 - a) * (0 - a) == a * a;
    CongIffMod(FSub(0, a, p) * FSub(0, a, p), a * a, p);
  }

  /** (-y) b - y (-b) = 0 and (-b) y - y (-b) = 0. */
  lemma NegatedProducts(b: int, y: int, p: nat)
    requires p > 0
    ensures FMul(FSub(0, y, p), b, p) == FMul(y, FSub(0, b, p), p) == FMul(FSub(0, b, p), y, p)
    ensures FSub(FMul(y, FSub(0, b, p), p), FMul(y, FSub(0, b, p), p), p) == 0
  {
    hide Cong, FSub;
    CongRefl(0, p);
    CongRefl(b, p);
    CongRefl(y, p);
    SubCong(0, y, 0, y, p);
    SubCong(0, b, 0, b, p);
    CongMul(FSub(0, y, p), 0 - y, b, b, p);
    CongMul(y, y, FSub(0, b, p), 0 - b, p);
    assert (0 - y) * b == y * (0 - b);
    CongSym(y * FSub(0, b, p), y * (0 - b), p);
    CongTrans(FSub(0, y, p) * b, y * (0 - b), y * FSub(0, b, p), p);
    CongIffMod(FSub(0, y, p) * b, y * FSub(0, b, p), p);
    assert FSub(0, b, p) * y == y * FSub(0, b, p);
    SelfDifference(FMul(y, FSub(0, b, p), p), p);
  }

  lemma SelfDifference(a: int, p: nat)
    requires p > 0
    ensures FSub(a, a, p) == 0
  {
    QuotientIs(0, p, 0, 0);
  }

  /** y^2 - x^3 = 0 on the cusp, computed on residues. */
  lemma CuspDifference(X: int, Y: int, a: int, c: int, p: nat)
    requires p > 0 && Cong(Y * Y, X * X * X, p) && a == FMul(X, X, p) && c == FMul(X, a, p)
    ensures FMul(Y, Y, p) == c && FSub(FMul(Y, Y, p), c, p) == 0
  {
    hide Cong;
    CongMod(X * X, p);
    CongRefl(X, p);
    CongMul(X, X, a, X * X, p);
    assert X * (X * X) == X * X * X;
    CongSym(X * a, X * X * X, p);
    CongTrans(Y * Y, X * X * X, X * a, p);
    CongIffMod(Y * Y, X * a, p);
    SelfDifference(c, p);
  }

  /** The addition of a point of the cusp and (0, 0) gives another point of the cusp and (0, 0). */
  lemma AddToZero(X: int, Y: int, p: nat)
    requires p > 0 && 0 <= X < p && 0 <= Y < p && Cong(Y * Y, X * X * X, p)
    ensures var r := CoZAdd(X, Y, 0, 0, p);
            r.x2 == 0 == r.y2 && Cong(r.y1 * r.y1, r.x1 * r.x1 * r.x1, p)
  {
    hide Cong, FAdd, FSub, FMul;
    var t, u := FSub(0, X, p), FSub(0, Y, p);
    ZeroArithmetic(X, p);
    ZeroArithmetic(Y, p);
    NegatedSquares(X, p);
    NegatedSquares(Y, p);
    var a := FMul(t, t, p);
    ZeroArithmetic(a, p);
    var b := FMul(X, a, p);
    ZeroArithmetic(b, p);
    CuspDifference(X, Y, a, b, p);
    NegatedProducts(b, Y, p);
    ZeroArithmetic(FMul(Y, FSub(0, b, p), p), p);
    CuspMoved(X, Y, b, FMul(Y, FSub(0, b, p), p), p);
  }

  /** (x^3, -x^3 y) is on the cusp when (x, y) is. */
  lemma CuspMoved(X: int, Y: int, b: int, e: int, p: nat)
    requires p > 0 && Cong(Y * Y, X * X * X, p) && b == FMul(Y, Y, p) && e == FMul(Y, FSub(0, b, p), p)
    ensures Cong(e * e, b * b * b, p)
  {
    hide Cong, FSub;
    CongMod(Y * Y, p);
    CongRefl(0, p);
    CongRefl(b, p);
    CongRefl(Y, p);
    SubCong(0, b, 0, b, p);
    MulCong(Y, FSub(0, b, p), Y, 0 - b, p);
    CongMul(e, Y * (0 - b), e, Y * (0 - b), p);
    assert Y * (0 - b) * (Y * (0 - b)) == Y * Y * (b * b) by { NegatedSquare(Y, b); }
    CongRefl(b * b, p);
    CongSym(b, Y * Y, p);
    CongMul(Y * Y, b, b * b, b * b, p);
    assert b * (b * b) == b * b * b;
    CongTrans(e * e, Y * Y * (b * b), b * b * b, p);
  }

  lemma NegatedSquare(y: int, b: int)
    ensures y * (0 - b) * (y * (0 - b)) == y * y * (b * b)
  {
    assert y * (0 - b) == -(y * b);
    assert y * b * (y * b) == y * y * (b * b);
  }

  /** The addition of points with one x-coordinate gives (0, 0) and a point of the cusp. */
  lemma AddEqualX(X: int, Y1: int, Y2: int, p: nat)
    requires p > 0 && 0 <= X < p && 0 <= Y1 < p && 0 <= Y2 < p
    ensures var r := CoZAdd(X, Y1, X, Y2, p);
            r.x1 == 0 == r.y1 && Cong(r.y2 * r.y2, r.x2 * r.x2 * r.x2, p)
  {
    hide Cong, FAdd, FSub, FMul;
    SelfDifference(X, p);
    ZeroArithmetic(X, p);
    ZeroArithmetic(Y1, p);
    ZeroArithmetic(0, p);
    var dy := FSub(Y2, Y1, p);
    var d := FMul(dy, dy, p);
    ZeroArithmetic(d, p);
    ZeroArithmetic(FMul(dy, FSub(0, d, p), p), p);
    CuspSquare(dy, d, FMul(dy, FSub(0, d, p), p), p);
  }

  /** (d^2, -d^3) is on the cusp. */
  lemma CuspSquare(dy: int, d: int, e: int, p: nat)
    requires p > 0 && d == FMul(dy, dy, p) && e == FMul(dy, FSub(0, d, p), p)
    ensures Cong(e * e, d * d * d, p)
  {
    hide Cong, FSub;
    CongMod(dy * dy, p);
    CongRefl(0, p);
    CongRefl(d, p);
    CongRefl(dy, p);
    SubCong(0, d, 0, d, p);
    MulCong(dy, FSub(0, d, p), dy, 0 - d, p);
    CongMul(e, dy * (0 - d), e, dy * (0 - d), p);
    NegatedSquare(dy, d);
    CongRefl(d * d, p);
    CongSym(d, dy * dy, p);
    CongMul(dy * dy, d, d * d, d * d, p);
    assert d * (d * d) == d * d * d;
    CongTrans(e * e, dy * dy * (d * d), d * d * d, p);
  }

  /** The conjugate addition of opposite points gives (0, 0) and a point of the cusp. */
  lemma ConjugateOpposite(X: int, Y1: int, Y2: int, p: nat)
    requires p > 0 && 0 <= X < p && 0 <= Y1 < p && 0 <= Y2 < p && FAdd(Y2, Y1, p) == 0
    ensures var r := CoZAddC(X, Y1, X, Y2, p);
            r.x1 == 0 == r.y1 && Cong(r.y2 * r.y2, r.x2 * r.x2 * r.x2, p)
  {
    hide Cong, FAdd, FSub, FMul;
    SelfDifference(X, p);
    ZeroArithmetic(X, p);
    ZeroArithmetic(Y1, p);
    ZeroArithmetic(0, p);
    var dy := FSub(Y2, Y1, p);
    var d := FMul(dy, dy, p);
    ZeroArithmetic(d, p);
    ZeroArithmetic(FMul(dy, FSub(0, d, p), p), p);
    CuspSquare(dy, d, FMul(dy, FSub(0, d, p), p), p);
  }

  lemma AllResidues(r: Regs, bit: nat, p: nat)
    requires p > 0
    ensures Residues4(ConjugateAdd(r, bit, p), p) && Residues4(PlainAdd(r, bit, p), p)
  {
    hide FAdd, FSub, FMul;
  }

  /** Once the coordinate is zero the conjugate addition clears both registers. */
  lemma DeadConjugate(r: Regs, bit: nat, p: nat)
    requires Dead(r, p) && bit <= 1
    ensures ConjugateAdd(r, bit, p) == Regs(0, 0, 0, 0)
  {
    hide Cong, CoZAddC;
    if r.x0 == 0 == r.y0 && Cong(r.y1 * r.y1, r.x1 * r.x1 * r.x1, p) {
      ConjugateFromZero(r.x1, r.y1, p);
      ConjugateToZero(r.x1, r.y1, p);
    } else {
      ConjugateFromZero(r.x0, r.y0, p);
      ConjugateToZero(r.x0, r.y0, p);
    }
  }

  /** A zero coordinate stays zero. */
  lemma DeadRung(r: Regs, bit: nat, p: nat)
    requires p > 0 && Dead(r, p) && bit <= 1
    ensures Dead(Rung(r, bit, p), p)
  {
    hide Dead, ConjugateAdd, PlainAdd;
    DeadConjugate(r, bit, p);
    AddedZeros(bit, p);
  }

  lemma ZeroIsOnCusp(p: nat)
    requires p > 0
    ensures Cong(0 * 0, 0 * 0 * 0, p)
  {
    CongRefl(0, p);
  }

  lemma AddedZeros(bit: nat, p: nat)
    requires p > 0 && bit <= 1
    ensures Dead(PlainAdd(Regs(0, 0, 0, 0), bit, p), p)
  {
    hide CoZAdd, Cong;
    ZeroIsOnCusp(p);
    AddToZero(0, 0, p);
    AllResidues(Regs(0, 0, 0, 0), bit, p);
  }

  /** And then the number to be inverted is zero. */
  lemma DeadNumber(r: Regs, bit: nat, x: int, p: nat)
    requires p > 0 && Dead(r, p) && bit <= 1
    ensures NumberOf(ConjugateAdd(r, bit, p), bit, x, p) == 0
  {
    hide Dead, ConjugateAdd, FMul, FSub;
    DeadConjugate(r, bit, p);
    ZeroArithmetic(0, p);
    ZeroArithmetic(x, p);
  }

  /** No point that the round for the leading bits m touches is infinity. */
  ghost predicate RungFinite(m: nat, P: Point, c: Curve)
    requires c.p > 0
  {
    Times(2 * m, P, c) != Infinity && Times(2 * m + 1, P, c) != Infinity && Times(2 * m + 2, P, c) != Infinity
  }

  /** No point that the rounds before the leading bits m touch is infinity. */
  ghost predicate Finite(m: nat, P: Point, c: Curve)
    requires c.p > 0
  {
    m <= 1 || (Finite(m / 2, P, c) && RungFinite(m / 2, P, c))
  }

  /** R[bit] and R[1 - bit]. */
  function Chosen(r: Regs, bit: nat): (int, int) { if bit == 1 then (r.x1, r.y1) else (r.x0, r.y0) }

  function Spare(r: Regs, bit: nat): (int, int) { if bit == 1 then (r.x0, r.y0) else (r.x1, r.y1) }

  lemma AliveMeans(r: Regs, Z: int, m: nat, bit: nat, P: Point, c: Curve)
    requires Alive(r, Z, m, P, c) && bit <= 1
    ensures c.p > 0 && !Divides(c.p, Z) && Residues4(r, c.p)
    ensures RepPoint(Chosen(r, bit).0, Chosen(r, bit).1, Z, Times(m + bit, P, c), c)
    ensures RepPoint(Spare(r, bit).0, Spare(r, bit).1, Z, Times(m + 1 - bit, P, c), c)
    ensures Times(m, P, c).Affine? && Times(m + 1, P, c).Affine?
  {
    hide Times;
  }

  /** The conjugate addition in terms of the selected register. */
  lemma ConjugateSelected(r: Regs, bit: nat, p: nat)
    requires p > 0 && bit <= 1
    ensures var a, b, s := Chosen(r, bit), Spare(r, bit), ConjugateAdd(r, bit, p);
            var c := CoZAddC(a.0, a.1, b.0, b.1, p);
            Chosen(s, bit) == (c.x1, c.y1) && Spare(s, bit) == (c.x2, c.y2)
  {
    hide CoZAddC;
  }

  lemma PlainSelected(r: Regs, bit: nat, p: nat)
    requires p > 0 && bit <= 1
    ensures var a, b, s := Chosen(r, bit), Spare(r, bit), PlainAdd(r, bit, p);
            var c := CoZAdd(b.0, b.1, a.0, a.1, p);
            Chosen(s, bit) == (c.x2, c.y2) && Spare(s, bit) == (c.x1, c.y1)
  {
    hide CoZAdd;
  }

  lemma NumberSelected(r: Regs, bit: nat, x: int, p: nat)
    requires p > 0 && bit <= 1
    ensures var a, b := Chosen(r, bit), Spare(r, bit);
            NumberOf(r, bit, x, p) == Denominator(a.0, b.0, a.1, x, bit, p)
  {
    hide Denominator;
  }

  /** Registers with (0, 0) on one side and the cusp on the other. */
  lemma DeadSelected(r: Regs, bit: nat, p: nat)
    requires p > 0 && Residues4(r, p) && bit <= 1
    requires var a, b := Chosen(r, bit), Spare(r, bit);
             || (a == (0, 0) && Cong(b.1 * b.1, b.0 * b.0 * b.0, p))
             || (b == (0, 0) && Cong(a.1 * a.1, a.0 * a.0 * a.0, p))
    ensures Dead(r, p)
  {
    hide Cong;
  }

  /** Representatives of points with one x-coordinate are equal. */
  lemma EqualRepresentatives(X1: int, Y1: int, X2: int, Y2: int, Z: int, P: Point, Q: Point, c: Curve)
    requires RepPoint(X1, Y1, Z, P, c) && RepPoint(X2, Y2, Z, Q, c) && P.x == Q.x && 0 <= X1 < c.p && 0 <= X2 < c.p
    ensures X1 == X2
  {
    hide Cong;
    CongSym(X2, Q.x * Z * Z, c.p);
    CongTrans(X1, P.x * Z * Z, X2, c.p);
    CongUnique(X1, X2, c.p);
  }

  /** Representatives of opposite points have opposite y. */
  lemma OppositeRepresentatives(X1: int, Y1: int, X2: int, Y2: int, Z: int, P: Point, Q: Point, c: Curve)
    requires RepPoint(X1, Y1, Z, P, c) && RepPoint(X2, Y2, Z, Q, c) && Q == Neg(P, c)
    ensures FAdd(Y2, Y1, c.p) == 0
  {
    hide Cong, FSub, FAdd;
    var p := c.p;
    CongRefl(0, p);
    CongRefl(P.y, p);
    CongRefl(Z, p);
    SubCong(0, P.y, 0, P.y, p);
    CongMul(Q.y, 0 - P.y, Z, Z, p);
    CongMul(Q.y * Z, (0 - P.y) * Z, Z, Z, p);
    CongMul(Q.y * Z * Z, (0 - P.y) * Z * Z, Z, Z, p);
    CongTrans(Y2, Q.y * Z * Z * Z, (0 - P.y) * Z * Z * Z, p);
    AddCong(Y2, Y1, (0 - P.y) * Z * Z * Z, P.y * Z * Z * Z, p);
    assert (0 - P.y) * Z * Z * Z + P.y * Z * Z * Z == 0 by { OppositeTerms(P.y, Z); }
    CongUnique(FAdd(Y2, Y1, p), 0, p);
  }

  lemma OppositeTerms(y: int, Z: int)
    ensures (0 - y) * Z * Z * Z + y * Z * Z * Z == 0
  {
    assert (0 - y) * Z == -(y * Z);
    assert -(y * Z) * Z == -(y * Z * Z);
  }

  /** A round that meets (2m + 1) P = infinity: the conjugate addition leaves (0, 0) and the cusp. */
  lemma MiddleFalls(r: Regs, Z: int, m: nat, bit: nat, P: Point, c: Curve)
    requires GroupLaw(c) && OnCurve(P, c) && P.Affine? && m >= 1 && bit <= 1 && Alive(r, Z, m, P, c)
    requires Times(2 * m + 1, P, c) == Infinity
    ensures var s := ConjugateAdd(r, bit, c.p);
            var a := Spare(s, bit);
            Chosen(s, bit) == (0, 0) && Cong(a.1 * a.1, a.0 * a.0 * a.0, c.p)
  {
    hide Plus, GroupLaw, OnCurve, Times, RepPoint, Alive, ConjugateAdd, CoZAddC, Cong, Neg, FAdd;
    GroupIsValid(c);
    AliveMeans(r, Z, m, bit, P, c);
    var A, B := Times(m + bit, P, c), Times(m + 1 - bit, P, c);
    TimesOnCurve(m + bit, P, c);
    TimesOnCurve(m + 1 - bit, P, c);
    TimesAdd(m + bit, m + 1 - bit, P, c);
    assert m + bit + (m + 1 - bit) == 2 * m + 1;
    OppositeIs(A, B, c);
    NegKeepsX(A, c);
    var a, b := Chosen(r, bit), Spare(r, bit);
    EqualRepresentatives(a.0, a.1, b.0, b.1, Z, A, B, c);
    OppositeRepresentatives(a.0, a.1, b.0, b.1, Z, A, B, c);
    ConjugateOpposite(a.0, a.1, b.1, c.p);
    ConjugateSelected(r, bit, c.p);
  }

  lemma NegKeepsX(P: Point, c: Curve)
    requires c.p > 0 && P.Affine?
    ensures Neg(P, c).Affine? && Neg(P, c).x == P.x
  {}

  /** When 2m P or (2m + 2) P is infinity, the sum has the x-coordinate of the difference. */
  lemma SumMeetsDifference(m: nat, P: Point, c: Curve)
    requires GroupLaw(c) && OnCurve(P, c) && P.Affine? && m >= 1 && Times(2 * m + 1, P, c) != Infinity
    requires Times(2 * m, P, c) == Infinity || Times(2 * m + 2, P, c) == Infinity
    ensures Times(2 * m + 1, P, c).Affine? && Times(2 * m + 1, P, c).x == P.x
  {
    hide Plus, GroupLaw, OnCurve, Times, Neg;
    GroupIsValid(c);
    var S := Times(2 * m + 1, P, c);
    TimesStep(2 * m, P, c);
    TimesStep(2 * m + 1, P, c);
    TimesOnCurve(2 * m + 1, P, c);
    AddInfinity(P, c);
    if Times(2 * m, P, c) != Infinity {
      OppositeIs(S, P, c);
      NegKeepsX(S, c);
    }
  }

  /** A round that meets 2m P or (2m + 2) P = infinity: the conjugate addition leaves one x-coordinate. */
  lemma EndsFall(r: Regs, Z: int, m: nat, bit: nat, P: Point, c: Curve)
    requires GroupLaw(c) && OnCurve(P, c) && P.Affine? && m >= 1 && bit <= 1 && Alive(r, Z, m, P, c)
    requires Times(2 * m + 1, P, c) != Infinity && !RungFinite(m, P, c)
    ensures var s := ConjugateAdd(r, bit, c.p);
            Chosen(s, bit).0 == Spare(s, bit).0
  {
    hide Plus, GroupLaw, OnCurve, Times, RepPoint, Alive, ConjugateAdd, CoZAddC, Neg, Divides;
    GroupIsValid(c);
    AliveMeans(r, Z, m, bit, P, c);
    var a, b := Chosen(r, bit), Spare(r, bit);
    AfterAddC(a.0, a.1, b.0, b.1, Z, m, bit, P, c);
    SumMeetsDifference(m, P, c);
    NegKeepsX(P, c);
    ConjugateSelected(r, bit, c.p);
    AllResidues(r, bit, c.p);
    var s := ConjugateAdd(r, bit, c.p);
    EqualRepresentatives(Chosen(s, bit).0, Chosen(s, bit).1, Spare(s, bit).0, Spare(s, bit).1, Z * (b.0 - a.0),
      if bit == 1 then P else Neg(P, c), Times(2 * m + 1, P, c), c);
  }

  /** A round with an infinite point ends with a zero coordinate. */
  lemma RungFalls(r: Regs, Z: int, m: nat, bit: nat, P: Point, c: Curve)
    requires GroupLaw(c) && OnCurve(P, c) && P.Affine? && m >= 1 && bit <= 1 && Alive(r, Z, m, P, c)
    requires c.p > 0 && !RungFinite(m, P, c)
    ensures Dead(Rung(r, bit, c.p), c.p)
  {
    hide GroupLaw, OnCurve, Times, Alive, ConjugateAdd, PlainAdd, CoZAdd, Cong, RungFinite;
    AliveMeans(r, Z, m, bit, P, c);
    var s := ConjugateAdd(r, bit, c.p);
    var a, b := Chosen(s, bit), Spare(s, bit);
    AllResidues(r, bit, c.p);
    AllResidues(s, bit, c.p);
    PlainSelected(s, bit, c.p);
    if Times(2 * m + 1, P, c) == Infinity {
      MiddleFalls(r, Z, m, bit, P, c);
      AddToZero(b.0, b.1, c.p);
    } else {
      EndsFall(r, Z, m, bit, P, c);
      AddEqualX(b.0, b.1, a.1, c.p);
    }
    DeadSelected(PlainAdd(s, bit, c.p), bit, c.p);
  }

  /** And if it is the last round, the number to be inverted is zero. */
  lemma LastFalls(r: Regs, Z: int, m: nat, bit: nat, P: Point, c: Curve)
    requires GroupLaw(c) && OnCurve(P, c) && P.Affine? && m >= 1 && bit <= 1 && Alive(r, Z, m, P, c)
    requires c.p > 0 && !RungFinite(m, P, c)
    ensures NumberOf(ConjugateAdd(r, bit, c.p), bit, P.x, c.p) == 0
  {
    hide GroupLaw, OnCurve, Times, Alive, ConjugateAdd, Cong, RungFinite, FMul, FSub;
    var s := ConjugateAdd(r, bit, c.p);
    var a, b := Chosen(s, bit), Spare(s, bit);
    NumberSelected(s, bit, P.x, c.p);
    ZeroArithmetic(P.x, c.p);
    if Times(2 * m + 1, P, c) == Infinity {
      MiddleFalls(r, Z, m, bit, P, c);
      ZeroArithmetic(if bit == 1 then FSub(a.0, b.0, c.p) else FSub(b.0, a.0, c.p), c.p);
    } else {
      EndsFall(r, Z, m, bit, P, c);
      SelfDifference(a.0, c.p);
      ZeroArithmetic(a.1, c.p);
    }
  }

  /** A round without an infinite point moves m to 2m + bit. */
  lemma RungStands(r: Regs, Z: int, m: nat, bit: nat, P: Point, c: Curve) returns (Z': int)
    requires GroupLaw(c) && OnCurve(P, c) && P.Affine? && m >= 1 && bit <= 1 && Alive(r, Z, m, P, c)
    requires c.p > 0 && RungFinite(m, P, c)
    ensures Alive(Rung(r, bit, c.p), Z', 2 * m + bit, P, c)
  {
    hide GroupLaw, OnCurve, Times, RepPoint, Alive, ConjugateAdd, PlainAdd, CoZAdd, CoZAddC, Divides;
    AliveMeans(r, Z, m, bit, P, c);
    var a, b := Chosen(r, bit), Spare(r, bit);
    AfterAddC(a.0, a.1, b.0, b.1, Z, m, bit, P, c);
    ConjugateSelected(r, bit, c.p);
    var s := ConjugateAdd(r, bit, c.p);
    var d, e := Chosen(s, bit), Spare(s, bit);
    var W := Z * (b.0 - a.0);
    AfterAdd(e.0, e.1, d.0, d.1, W, m, bit, P, c);
    PlainSelected(s, bit, c.p);
    AllResidues(s, bit, c.p);
    Z' := W * (d.0 - e.0);
    AliveFrom(PlainAdd(s, bit, c.p), Z', m, bit, P, c);
  }

  lemma AliveFrom(r: Regs, Z: int, m: nat, bit: nat, P: Point, c: Curve)
    requires c.p > 0 && !Divides(c.p, Z) && Residues4(r, c.p) && bit <= 1
    requires RepPoint(Spare(r, bit).0, Spare(r, bit).1, Z, Times(2 * m + 1, P, c), c)
    requires RepPoint(Chosen(r, bit).0, Chosen(r, bit).1, Z, Times(2 * m + 2 * bit, P, c), c)
    ensures Alive(r, Z, 2 * m + bit, P, c)
  {
    hide Times, RepPoint, Divides;
  }

  /** In the last round the number to be inverted is zero exactly if the point's x-coordinate is. */
  lemma LastStands(r: Regs, Z: int, m: nat, bit: nat, P: Point, c: Curve)
    requires GroupLaw(c) && OnCurve(P, c) && P.Affine? && P.y != 0 && m >= 1 && bit <= 1 && Alive(r, Z, m, P, c)
    requires c.p > 0 && RungFinite(m, P, c)
    ensures NumberOf(ConjugateAdd(r, bit, c.p), bit, P.x, c.p) == 0 <==> P.x == 0
  {
    hide GroupLaw, OnCurve, Times, RepPoint, Alive, ConjugateAdd, CoZAdd, CoZAddC, Divides, Denominator, Cong, NumberOf;
    GroupIsValid(c);
    AliveMeans(r, Z, m, bit, P, c);
    var a, b := Chosen(r, bit), Spare(r, bit);
    AfterAddC(a.0, a.1, b.0, b.1, Z, m, bit, P, c);
    ConjugateSelected(r, bit, c.p);
    var s := ConjugateAdd(r, bit, c.p);
    var d, e := Chosen(s, bit), Spare(s, bit);
    var W := Z * (b.0 - a.0);
    AfterAdd(e.0, e.1, d.0, d.1, W, m, bit, P, c);
    NumberSelected(s, bit, P.x, c.p);
    if P.x == 0 {
      ZeroX(d.0, e.0, d.1, bit, c.p);
    } else {
      DenominatorIs(d.0, d.1, e.0, W, bit, P, c);
      NonzeroIs(Denominator(d.0, e.0, d.1, P.x, bit, c.p), c.p);
    }
  }

  lemma NonzeroIs(d: int, p: nat)
    requires p > 0 && !Divides(p, d)
    ensures d != 0
  {}

  lemma ZeroX(xb: int, xn: int, yb: int, bit: nat, p: nat)
    requires p > 0
    ensures Denominator(xb, xn, yb, 0, bit, p) == 0
  {
    hide FMul, FSub;
    ZeroArithmetic(FMul(if bit == 1 then FSub(xb, xn, p) else FSub(xn, xb, p), yb, p), p);
  }

  /** R0 = m P and R1 = (m + 1) P for the leading bits m, as long as no point was infinity; a zero coordinate after that. */
  lemma {:induction false} ClimbIs(m: nat, r: Regs, Z: int, P: Point, c: Curve) returns (Z': int)
    requires GroupLaw(c) && OnCurve(P, c) && P.Affine? && m >= 1 && c.p > 0 && Alive(r, Z, 1, P, c)
    ensures if Finite(m, P, c) then Alive(Climb(m, r, c.p), Z', m, P, c) else Dead(Climb(m, r, c.p), c.p)
    decreases m
  {
    hide GroupLaw, OnCurve, Times, Alive, Dead, Rung, RungFinite;
    Z' := Z;
    if m > 1 {
      Z' := ClimbIs(m / 2, r, Z, P, c);
      if !Finite(m / 2, P, c) {
        DeadRung(Climb(m / 2, r, c.p), m % 2, c.p);
      } else if RungFinite(m / 2, P, c) {
        Z' := RungStands(Climb(m / 2, r, c.p), Z', m / 2, m % 2, P, c);
      } else {
        RungFalls(Climb(m / 2, r, c.p), Z', m / 2, m % 2, P, c);
      }
    }
  }

  lemma {:induction false} DeadClimb(m: nat, r: Regs, p: nat)
    requires p > 0 && Dead(r, p)
    ensures Dead(Climb(m, r, p), p)
    decreases m
  {
    hide Dead, Rung;
    if m > 1 {
      DeadClimb(m / 2, r, p);
      DeadRung(Climb(m / 2, r, p), m % 2, p);
    }
  }
}
