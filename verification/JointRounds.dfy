/** One round of Shamir's trick on Jacobian registers: it adds points in general position, and otherwise the
    coordinate becomes zero and stays zero. */
module JointRounds {
  import opened Arith
  import opened Modular
  import opened Field
  import opened Bits
  import opened P256
  import opened CoZ
  import opened Curves
  import opened Scalar
  import opened Rungs
  import opened Orders
  import opened Ladder
  import opened Joint

  /** The registers hold the point T in Jacobian coordinates. */
  ghost predicate JacobianOf(j: Jacobian, T: Point, c: Curve) {
    c.p > 0 && !Divides(c.p, j.z) && RepPoint(j.x, j.y, j.z, T, c)
  }

  /** Residues in x and y. */
  ghost predicate Reduced(j: Jacobian, p: nat) {
    0 <= j.x < p && 0 <= j.y < p
  }

  /** EccPoint_double_jacobian leaves a zero coordinate alone. */
  function Doubled(j: Jacobian, p: nat): Jacobian
    requires p > 0
  {
    if j.z == 0 then j else Double(j.x, j.y, j.z, p)
  }

  /** The table entry S brought to the coordinate of j by apply_z, and added by XYcZ_add. */
  function Added(j: Jacobian, S: Point, p: nat): Jacobian
    requires p > 0
  {
    if S.Infinity? then j
    else
      var a := ApplyZ(S.x, S.y, j.z, p);
      var r := CoZAdd(a.0, a.1, j.x, j.y, p);
      Jacobian(r.x2, r.y2, FMul(j.z, FSub(j.x, a.0, p), p))
  }

  /** The body of the loop. */
  function ShamirRound(j: Jacobian, S: Point, p: nat): Jacobian
    requires p > 0
  {
    Added(Doubled(j, p), S, p)
  }

  lemma NonzeroIsNonzero(z: int, p: nat)
    requires p > 0 && !Divides(p, z)
    ensures z != 0
  {}

  lemma DoubleStep(j: Jacobian, T: Point, c: Curve)
    requires GroupLaw(c) && OnCurve(T, c) && JacobianOf(j, T, c) && T.y != 0
    ensures OnCurve(Plus(T, T, c), c) && JacobianOf(Doubled(j, c.p), Plus(T, T, c), c)
  {
    hide GroupLaw, OnCurve, Double, Divides, Rep, Plus;
    GroupIsValid(c);
    NonzeroIsNonzero(j.z, c.p);
    DoublePoints(j.x, j.y, j.z, T, c);
    AddOnCurve(T, T, c);
  }

  lemma RepPointCong(X: int, Y: int, Z: int, W: int, Q: Point, c: Curve)
    requires RepPoint(X, Y, Z, Q, c) && Cong(Z, W, c.p)
    ensures RepPoint(X, Y, W, Q, c)
  {
    hide Rep;
    RepCong(X, Y, Z, W, Q.x, Q.y, c.p);
  }

  /** apply_z brings the table entry to the coordinate. */
  lemma EntryIs(S: Point, z: int, c: Curve)
    requires S.Affine? && c.p > 0
    ensures RepPoint(ApplyZ(S.x, S.y, z, c.p).0, ApplyZ(S.x, S.y, z, c.p).1, z, S, c)
  {
    hide ApplyZ, Rep;
    ApplyZIs(S.x, S.y, z, c.p);
  }

  /** The mixed addition of a table entry S to D. */
  lemma MixedStep(j: Jacobian, D: Point, S: Point, c: Curve)
    requires GroupLaw(c) && OnCurve(D, c) && OnCurve(S, c) && JacobianOf(j, D, c)
    requires D.Affine? && S.Affine? && D.x != S.x
    ensures JacobianOf(Added(j, S, c.p), Plus(D, S, c), c)
  {
    hide GroupLaw, OnCurve, CoZAdd, Divides, RepPoint, Plus, FMul, FSub, Cong, ApplyZ;
    GroupIsValid(c);
    EntryIs(S, j.z, c);
    var (tx, ty) := ApplyZ(S.x, S.y, j.z, c.p);
    CoZAddPoints(tx, ty, j.x, j.y, j.z, S, D, c);
    RepDistinct(tx, j.x, ty, j.y, j.z, S, D, c);
    AddCommutes(S, D, c);
    var r, W, w := CoZAdd(tx, ty, j.x, j.y, c.p), j.z * (j.x - tx), FMul(j.z, FSub(j.x, tx, c.p), c.p);
    ScaledCoordinate(j.x, tx, j.z, c.p);
    NonzeroCong(w, W, c.p);
    RepPointCong(r.x2, r.y2, W, w, Plus(D, S, c), c);
  }

  lemma ScaledCoordinate(x: int, t: int, z: int, p: nat)
    requires p > 0
    ensures Cong(FMul(z, FSub(x, t, p), p), z * (x - t), p) && Cong(z * (x - t), FMul(z, FSub(x, t, p), p), p)
  {
    hide Cong, FMul, FSub;
    CongRefl(x, p);
    CongRefl(t, p);
    CongRefl(z, p);
    SubCong(x, t, x, t, p);
    MulCong(z, FSub(x, t, p), z, x - t, p);
    CongSym(FMul(z, FSub(x, t, p), p), z * (x - t), p);
  }

  /** In general position the round adds. */
  lemma RoundAdds(j: Jacobian, T: Point, S: Point, c: Curve)
    requires GroupLaw(c) && OnCurve(T, c) && OnCurve(S, c) && JacobianOf(j, T, c) && c.p > 0 && AdditionClear(T, S, c)
    ensures JacobianOf(ShamirRound(j, S, c.p), Plus(Plus(T, T, c), S, c), c)
  {
    hide GroupLaw, OnCurve, Plus, JacobianOf, Doubled;
    DoubleStep(j, T, c);
    if S.Affine? {
      MixedStep(Doubled(j, c.p), Plus(T, T, c), S, c);
    } else {
      AddInfinity(Plus(T, T, c), c);
    }
  }

  lemma FlatY(y: int, z: int, p: nat)
    requires p > 0 && 0 <= y < p && Cong(y, 0 * z * z * z, p)
    ensures y == 0
  {
    hide Cong;
    assert 0 * z * z * z == 0;
    CongUnique(y, 0, p);
  }

  /** Doubling a point with y = 0 makes the coordinate zero. */
  lemma FlatFalls(j: Jacobian, T: Point, c: Curve)
    requires JacobianOf(j, T, c) && T.y == 0 && Reduced(j, c.p)
    ensures Doubled(j, c.p).z == 0
  {
    hide Cong, FMul, FSub, FAdd, FHalf, Divides;
    FlatY(j.y, j.z, c.p);
    ZeroArithmetic(j.z, c.p);
  }

  /** Adding a point to one with the same x-coordinate makes the coordinate zero. */
  lemma EqualFalls(j: Jacobian, D: Point, S: Point, c: Curve)
    requires JacobianOf(j, D, c) && Reduced(j, c.p) && S.Affine? && D.x == S.x
    ensures Added(j, S, c.p).z == 0
  {
    hide RepPoint, FMul, FSub, CoZAdd, Divides;
    EntryIs(S, j.z, c);
    EntryReduced(S, j.z, c.p);
    EqualRepresentatives(j.x, j.y, ApplyZ(S.x, S.y, j.z, c.p).0, ApplyZ(S.x, S.y, j.z, c.p).1, j.z, D, S, c);
    SelfDifference(j.x, c.p);
    ZeroArithmetic(j.z, c.p);
  }

  lemma EntryReduced(S: Point, z: int, p: nat)
    requires S.Affine? && p > 0
    ensures 0 <= ApplyZ(S.x, S.y, z, p).0 < p && 0 <= ApplyZ(S.x, S.y, z, p).1 < p
  {
    hide FMul;
  }

  lemma DoubledReduced(j: Jacobian, p: nat)
    requires p > 0 && Reduced(j, p)
    ensures Reduced(Doubled(j, p), p)
  {
    hide FMul, FAdd, FSub, FHalf;
  }

  lemma AddedToZero(j: Jacobian, S: Point, p: nat)
    requires p > 0 && j.z == 0
    ensures Added(j, S, p).z == 0
  {
    hide CoZAdd, ApplyZ, FMul, FSub;
    if S.Affine? {
      ZeroArithmetic(FSub(j.x, ApplyZ(S.x, S.y, j.z, p).0, p), p);
    }
  }

  /** A zero coordinate stays zero. */
  lemma ZeroStays(j: Jacobian, S: Point, p: nat)
    requires p > 0 && j.z == 0
    ensures ShamirRound(j, S, p).z == 0
  {
    hide Added;
    AddedToZero(j, S, p);
  }

  /** In any other position the round makes the coordinate zero. */
  lemma RoundFalls(j: Jacobian, T: Point, S: Point, c: Curve)
    requires GroupLaw(c) && OnCurve(T, c) && JacobianOf(j, T, c) && Reduced(j, c.p) && c.p > 0 && !AdditionClear(T, S, c)
    ensures ShamirRound(j, S, c.p).z == 0
  {
    hide GroupLaw, OnCurve, Plus, JacobianOf, Doubled, Added, Reduced;
    JacobianAffine(j, T, c);
    if T.y == 0 {
      FlatFalls(j, T, c);
      AddedToZero(Doubled(j, c.p), S, c.p);
    } else {
      DoubleStep(j, T, c);
      DoubledReduced(j, c.p);
      JacobianAffine(Doubled(j, c.p), Plus(T, T, c), c);
      EqualFalls(Doubled(j, c.p), Plus(T, T, c), S, c);
    }
  }

  lemma JacobianAffine(j: Jacobian, T: Point, c: Curve)
    requires JacobianOf(j, T, c)
    ensures T.Affine?
  {}

  lemma AddedReduced(j: Jacobian, S: Point, p: nat)
    requires p > 0 && Reduced(j, p)
    ensures Reduced(Added(j, S, p), p)
  {
    hide FMul, FAdd, FSub, ApplyZ;
  }

  lemma RoundReduced(j: Jacobian, S: Point, p: nat)
    requires p > 0 && Reduced(j, p)
    ensures Reduced(ShamirRound(j, S, p), p)
  {
    hide Reduced, Doubled, Added;
    DoubledReduced(j, p);
    AddedReduced(Doubled(j, p), S, p);
  }

  /** The registers after the rounds down to bit i: the joint multiple as long as every round was clear, and a zero
      coordinate after the first that was not. */
  ghost predicate Follows(j: Jacobian, u1: nat, u2: nat, i: nat, n: nat, Q: Point) {
    && Reduced(j, P)
    && if ClearDown(u1, u2, i, n, Q) then JacobianOf(j, JointMultiple(u1, u2, i, Q), SECP256R1) else j.z == 0
  }

  /** Every round keeps that. */
  lemma RoundFollows(j: Jacobian, u1: nat, u2: nat, i: nat, n: nat, Q: Point)
    requires Standard() && OnCurve(Q, SECP256R1) && i < n && Follows(j, u1, u2, i + 1, n, Q)
    ensures P > 0 && Follows(ShamirRound(j, Selected(Bit(u1, i), Bit(u2, i), Q), P), u1, u2, i, n, Q)
  {
    hide GroupLaw, OnCurve, Plus, Standard, JacobianOf, Reduced, ShamirRound, JointMultiple, Selected, Bit, AdditionClear;
    PIsPositive();
    StandardIs();
    var T, S := JointMultiple(u1, u2, i + 1, Q), Selected(Bit(u1, i), Bit(u2, i), Q);
    JointOnCurve(u1, u2, i + 1, Q);
    SelectedOnCurve(Bit(u1, i), Bit(u2, i), Q);
    JointStep(u1, u2, i, Q);
    RoundReduced(j, S, P);
    if !ClearDown(u1, u2, i + 1, n, Q) {
      ZeroStays(j, S, P);
    } else if StepClear(u1, u2, i, Q) {
      RoundAdds(j, T, S, SECP256R1);
    } else {
      RoundFalls(j, T, S, SECP256R1);
    }
  }
}
