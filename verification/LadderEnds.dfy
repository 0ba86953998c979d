/** When the ladder of EccPoint_mult ends, and that it then gives the multiple of the point. */
module LadderEnds {
  import opened Arith
  import opened Modular
  import opened Field
  import opened CoZ
  import opened Curves
  import opened Scalar
  import opened LadderSteps
  import opened Rungs

  /** An initial coordinate that is 0 modulo p clears every register for good. */
  lemma ZeroCoordinateClears(m: nat, x: int, y: int, z: int, p: nat)
    requires p > 0 && Divides(p, z)
    ensures Start(x, y, z, p) == Regs(0, 0, 0, 0) == Climb(m, Start(x, y, z, p), p)
  {
    hide Start;
    ZeroStart(x, y, z, p);
    ZeroClimb(m, p);
  }

  lemma ZeroProductLeft(a: int, b: int, p: nat)
    requires p > 0 && Divides(p, a)
    ensures FMul(a, b, p) == 0
  {
    DividesProduct(p, a, b);
  }

  lemma HalfOfZero(p: nat)
    ensures FHalf(0, p) == 0
  {}

  lemma ZeroStart(x: int, y: int, z: int, p: nat)
    requires p > 0 && Divides(p, z)
    ensures Start(x, y, z, p) == Regs(0, 0, 0, 0)
  {
    hide FAdd, FSub, FMul, FHalf, Divides;
    ZeroProductLeft(z, z, p);
    ZeroArithmetic(0, p);
    ZeroArithmetic(x, p);
    ZeroArithmetic(y, p);
    ZeroArithmetic(z, p);
    HalfOfZero(p);
  }

  lemma ZeroRung(bit: nat, p: nat)
    requires p > 0 && bit <= 1
    ensures Rung(Regs(0, 0, 0, 0), bit, p) == Regs(0, 0, 0, 0)
  {
    hide FAdd, FSub, FMul;
    ZeroArithmetic(0, p);
  }

  lemma {:induction false} ZeroClimb(m: nat, p: nat)
    requires p > 0
    ensures Climb(m, Regs(0, 0, 0, 0), p) == Regs(0, 0, 0, 0)
    decreases m
  {
    hide Rung;
    if m > 1 {
      ZeroClimb(m / 2, p);
      ZeroRung(m % 2, p);
    }
  }

  lemma ZerosAreDead(p: nat)
    requires p > 0
    ensures Dead(Regs(0, 0, 0, 0), p)
  {
    hide Cong;
    ZeroIsOnCusp(p);
  }

  /** Doubling a point with y = 0 starts the ladder with a zero coordinate. */
  lemma TangentStart(x: int, z: int, p: nat)
    requires p > 0
    ensures Dead(Start(x, 0, z, p), p)
  {
    hide FAdd, FSub, FMul, FHalf, Cong;
    ZeroArithmetic(0, p);
    ZeroArithmetic(x, p);
    ZeroArithmetic(z, p);
    if z == 0 {
      ZeroIsOnCusp(p);
    } else {
      var X := FMul(x, FMul(z, z, p), p);
      ZeroArithmetic(FMul(FMul(z, z, p), z, p), p);
      ZeroArithmetic(X, p);
      var zz := FMul(z, z, p);
      var s := FAdd(X, zz, p);
      var m := FMul(s, FSub(s, FAdd(zz, zz, p), p), p);
      var b := FHalf(FAdd(m, FAdd(m, m, p), p), p);
      var d := FMul(b, b, p);
      ZeroArithmetic(d, p);
      ZeroArithmetic(FMul(b, FSub(0, d, p), p), p);
      CuspSquare(b, d, FMul(b, FSub(0, d, p), p), p);
    }
  }

  /** Otherwise the registers start as P and 2P. */
  lemma StartIsAlive(z: int, P: Point, c: Curve) returns (Z: int)
    requires GroupLaw(c) && OnCurve(P, c) && P.Affine? && P.y != 0 && c.p > 0 && !Divides(c.p, z)
    ensures Alive(Start(P.x, P.y, z, c.p), Z, 1, P, c)
  {
    hide GroupLaw, OnCurve, Times, Plus, Rep, Divides, Double, ApplyZ;
    GroupIsValid(c);
    Residues(P, c);
    NonzeroCoordinate(z, c.p);
    ApplyZIs(P.x, P.y, z, c.p);
    var a := ApplyZ(P.x, P.y, z, c.p);
    DoublePoints(a.0, a.1, z, P, c);
    Z := Double(a.0, a.1, z, c.p).z;
    ApplyZIs(P.x, P.y, Z, c.p);
    TimesOne(P, c);
    TimesStep(1, P, c);
    StartResidues(P.x, P.y, z, c.p);
  }

  lemma NonzeroCoordinate(z: int, p: nat)
    requires p > 0 && !Divides(p, z)
    ensures z != 0
  {}

  lemma StartResidues(x: int, y: int, z: int, p: nat)
    requires p > 0 && z != 0
    ensures Residues4(Start(x, y, z, p), p)
  {
    hide FAdd, FSub, FMul, FHalf;
  }

  lemma {:induction false} FiniteDouble(k: nat, P: Point, c: Curve)
    requires c.p > 0 && k >= 2 && Finite(k, P, c)
    ensures Times(2, P, c) != Infinity
    decreases k
  {
    hide Times;
    if k >= 4 {
      FiniteDouble(k / 2, P, c);
    }
  }

  lemma FlatTangent(P: Point, c: Curve)
    requires c.p > 0 && P.Affine? && P.y == 0
    ensures Times(2, P, c) == Infinity
  {
    hide Times;
    TimesOne(P, c);
    TimesStep(1, P, c);
    QuotientIs(0, c.p, 0, 0);
  }

  /** EccPoint_mult inverts a nonzero number exactly if the point's x-coordinate and the initial coordinate are
      nonzero and no point that the ladder touches is infinity. */
  lemma InvertedIff(k: nat, z: int, P: Point, c: Curve)
    requires GroupLaw(c) && OnCurve(P, c) && P.Affine? && k >= 2
    ensures c.p > 0 && (Inverted(k, P.x, P.y, z, c.p) != 0 <==> !Divides(c.p, z) && P.x != 0 && Finite(k, P, c))
  {
    hide GroupLaw, OnCurve, Times, Divides, Start, Climb, Alive, Dead, ConjugateAdd, NumberOf, Finite, RungFinite;
    GroupIsValid(c);
    var r := Start(P.x, P.y, z, c.p);
    if Divides(c.p, z) {
      ZeroStart(P.x, P.y, z, c.p);
      ZerosAreDead(c.p);
      DeadInverted(k, P.x, P.y, z, c.p);
    } else if P.y == 0 {
      TangentStart(P.x, z, c.p);
      DeadInverted(k, P.x, P.y, z, c.p);
      FlatTangent(P, c);
      if Finite(k, P, c) {
        FiniteDouble(k, P, c);
      }
    } else {
      var Z := StartIsAlive(z, P, c);
      AliveInverted(k, z, Z, P, c);
    }
  }

  lemma DeadInverted(k: nat, x: int, y: int, z: int, p: nat)
    requires p > 0 && Dead(Start(x, y, z, p), p)
    ensures Inverted(k, x, y, z, p) == 0
  {
    hide Start, Climb, Dead, ConjugateAdd, NumberOf;
    DeadClimb(k / 2, Start(x, y, z, p), p);
    DeadNumber(Climb(k / 2, Start(x, y, z, p), p), k % 2, x, p);
  }

  lemma AliveInverted(k: nat, z: int, Z: int, P: Point, c: Curve)
    requires GroupLaw(c) && OnCurve(P, c) && P.Affine? && P.y != 0 && k >= 2 && c.p > 0
    requires Alive(Start(P.x, P.y, z, c.p), Z, 1, P, c)
    ensures Inverted(k, P.x, P.y, z, c.p) != 0 <==> P.x != 0 && Finite(k, P, c)
  {
    hide GroupLaw, OnCurve, Times, Start, Climb, Alive, Dead, ConjugateAdd, NumberOf, RungFinite;
    var r := Start(P.x, P.y, z, c.p);
    var s := Climb(k / 2, r, c.p);
    var Z' := ClimbIs(k / 2, r, Z, P, c);
    if !Finite(k / 2, P, c) {
      DeadNumber(s, k % 2, P.x, c.p);
    } else if RungFinite(k / 2, P, c) {
      LastStands(s, Z', k / 2, k % 2, P, c);
    } else {
      LastFalls(s, Z', k / 2, k % 2, P, c);
    }
  }

  /** Multiples repeat after the order. */
  lemma TimesBeyond(n: nat, j: nat, P: Point, c: Curve)
    requires GroupLaw(c) && OnCurve(P, c) && c.p > 0 && OrderIs(n, P, c) && 0 < j < 2 * n
    ensures Times(j, P, c) == Infinity <==> j == n
  {
    hide GroupLaw, OnCurve, Times, Plus;
    if j > n {
      TimesAdd(n, j - n, P, c);
      AddInfinity(Times(j - n, P, c), c);
    }
  }

  /** For a point of odd order n the ladder meets infinity exactly for the scalars n - 1 and n. */
  lemma {:induction false} FiniteIff(k: nat, n: nat, P: Point, c: Curve)
    requires GroupLaw(c) && OnCurve(P, c) && c.p > 0 && OrderIs(n, P, c) && n % 2 == 1 && 1 <= k < 2 * n - 2
    ensures Finite(k, P, c) <==> k == 1 || (k != n - 1 && k != n)
    decreases k
  {
    hide GroupLaw, OnCurve, Times, OrderIs;
    if k > 1 {
      var m := k / 2;
      FiniteIff(m, n, P, c);
      TimesBeyond(n, 2 * m, P, c);
      TimesBeyond(n, 2 * m + 1, P, c);
      TimesBeyond(n, 2 * m + 2, P, c);
    }
  }

  /** The exact condition for such a point: the number to be inverted is zero for x = 0, for an initial coordinate
      that is 0 modulo p, and for the scalars n - 1 and n. */
  lemma InvertedOfOrder(k: nat, z: int, n: nat, P: Point, c: Curve)
    requires GroupLaw(c) && OnCurve(P, c) && P.Affine? && c.p > 0
    requires OrderIs(n, P, c) && n % 2 == 1 && 2 <= k < 2 * n - 2
    ensures Inverted(k, P.x, P.y, z, c.p) != 0 <==> !Divides(c.p, z) && P.x != 0 && k != n - 1 && k != n
  {
    hide GroupLaw, OnCurve, Times, OrderIs, Divides, Inverted, Finite;
    InvertedIff(k, z, P, c);
    FiniteIff(k, n, P, c);
  }

  /** The scalar n - 1 makes the ladder invert 0, whatever the point and the initial coordinate are. */
  lemma LastScalarFails(z: int, n: nat, P: Point, c: Curve)
    requires GroupLaw(c) && OnCurve(P, c) && P.Affine? && c.p > 0 && OrderIs(n, P, c) && n % 2 == 1 && n > 1
    ensures n >= 3 && Inverted(n - 1, P.x, P.y, z, c.p) == 0
  {
    hide GroupLaw, OnCurve, Times, OrderIs, Divides, Inverted;
    InvertedOfOrder(n - 1, z, n, P, c);
  }

  /** And so does every point with x = 0, on any curve and for any scalar. */
  lemma ZeroXFails(k: nat, y: int, z: int, p: nat)
    requires p > 0
    ensures Inverted(k, 0, y, z, p) == 0
  {
    hide LastRegs, Denominator;
    var s, bit := LastRegs(k, 0, y, z, p), k % 2;
    ZeroX(s.x1, s.x0, s.y1, 1, p);
    ZeroX(s.x0, s.x1, s.y0, 0, p);
  }

  /** The number that turns the last coordinate into 1: yP Xb over the inverted number. */
  function Unscale(i: int, s: Regs, bit: nat, y: int, p: nat): int
    requires p > 0
  {
    FMul(FMul(i, y, p), Chosen(s, bit).0, p)
  }

  /** The last addition, and R0 scaled back with the result i of the inversion. */
  function Scaled(s: Regs, bit: nat, y: int, i: int, p: nat): Point
    requires p > 0
  {
    var r := PlainAdd(s, bit, p);
    var a := ApplyZ(r.x0, r.y0, Unscale(i, s, bit, y, p), p);
    Affine(a.0, a.1)
  }

  /** If the number is nonzero, the result is k P. */
  lemma ResultIs(k: nat, z: int, i: int, P: Point, c: Curve)
    requires GroupLaw(c) && OnCurve(P, c) && P.Affine? && k >= 2 && c.p > 0
    requires Inverted(k, P.x, P.y, z, c.p) != 0 && Cong(i * Inverted(k, P.x, P.y, z, c.p), 1, c.p)
    ensures Times(k, P, c) == Scaled(LastRegs(k, P.x, P.y, z, c.p), k % 2, P.y, i, c.p)
  {
    hide GroupLaw, OnCurve, Times, Divides, Start, Climb, Alive, Dead, ConjugateAdd, NumberOf, RungFinite, Cong, Scaled;
    GroupIsValid(c);
    InvertedIff(k, z, P, c);
    YNonzero(k, P, c);
    var Z := StartIsAlive(z, P, c);
    var r := Start(P.x, P.y, z, c.p);
    var Z' := ClimbIs(k / 2, r, Z, P, c);
    LastResult(Climb(k / 2, r, c.p), Z', k, z, i, P, c);
  }

  lemma YNonzero(k: nat, P: Point, c: Curve)
    requires c.p > 0 && P.Affine? && k >= 2 && Finite(k, P, c)
    ensures P.y != 0
  {
    hide Times, Finite;
    FiniteDouble(k, P, c);
    if P.y == 0 {
      FlatTangent(P, c);
    }
  }

  lemma LastResult(r: Regs, Z: int, k: nat, z: int, i: int, P: Point, c: Curve)
    requires GroupLaw(c) && OnCurve(P, c) && P.Affine? && P.y != 0 && P.x != 0 && k >= 2 && c.p > 0
    requires r == Climb(k / 2, Start(P.x, P.y, z, c.p), c.p) && Alive(r, Z, k / 2, P, c) && RungFinite(k / 2, P, c)
    requires Cong(i * Inverted(k, P.x, P.y, z, c.p), 1, c.p)
    ensures Times(k, P, c) == Scaled(LastRegs(k, P.x, P.y, z, c.p), k % 2, P.y, i, c.p)
  {
    hide GroupLaw, OnCurve, Times, RepPoint, Alive, Start, Climb, ConjugateAdd, PlainAdd, CoZAdd, CoZAddC, Divides,
         Denominator, Cong, NumberOf, ApplyZ, Unscale;
    GroupIsValid(c);
    var m, bit := k / 2, k % 2;
    AliveMeans(r, Z, m, bit, P, c);
    var a, b := Chosen(r, bit), Spare(r, bit);
    AfterAddC(a.0, a.1, b.0, b.1, Z, m, bit, P, c);
    ConjugateSelected(r, bit, c.p);
    var s := ConjugateAdd(r, bit, c.p);
    var d, e := Chosen(s, bit), Spare(s, bit);
    var W := Z * (b.0 - a.0);
    AfterAdd(e.0, e.1, d.0, d.1, W, m, bit, P, c);
    NumberSelected(s, bit, P.x, c.p);
    DenominatorIs(d.0, d.1, e.0, W, bit, P, c);
    var w := Unscale(i, s, bit, P.y, c.p);
    UnscaleIs(i, s, bit, P.y, c.p);
    FinalInverse(Denominator(d.0, e.0, d.1, P.x, bit, c.p), i, W * (d.0 - e.0), P.y, d.0, c.p);
    PlainSelected(s, bit, c.p);
    AllResidues(s, bit, c.p);
    AliveFrom(PlainAdd(s, bit, c.p), W * (d.0 - e.0), m, bit, P, c);
    ScaledBack(PlainAdd(s, bit, c.p), W * (d.0 - e.0), w, k, P, c);
  }

  lemma UnscaleIs(i: int, s: Regs, bit: nat, y: int, p: nat)
    requires p > 0
    ensures Unscale(i, s, bit, y, p) == FMul(FMul(i, y, p), Chosen(s, bit).0, p)
  {}

  lemma ScaledBack(r: Regs, Z: int, w: int, k: nat, P: Point, c: Curve)
    requires GroupLaw(c) && OnCurve(P, c) && Alive(r, Z, k, P, c) && Cong(Z * w, 1, c.p)
    ensures Times(k, P, c) == Affine(ApplyZ(r.x0, r.y0, w, c.p).0, ApplyZ(r.x0, r.y0, w, c.p).1)
  {
    hide GroupLaw, OnCurve, Times, Cong, ApplyZ;
    GroupIsValid(c);
    TimesOnCurve(k, P, c);
    var Q := Times(k, P, c);
    Residues(Q, c);
    ApplyInverse(r.x0, r.y0, Z, w, Q.x, Q.y, c.p);
  }
}
