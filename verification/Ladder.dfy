/** EccPoint_mult: the co-Z Montgomery ladder with a single inversion. */
module Ladder {
  import opened Arith
  import opened Modular
  import opened Digits
  import opened Bits
  import opened Field
  import opened Vli
  import opened VliSum
  import opened VliInverse
  import opened P256
  import opened CoZ
  import opened Curves
  import opened Scalar
  import opened LadderSteps
  import opened Rungs
  import opened LadderEnds
  import opened Points

  /** The active curve: y^2 = x^3 - 3x + curve_b over Z_P. */
  const SECP256R1: Curve :=
    Curve(P, 0x5ac6_35d8_aa3a_93e7_b3eb_bd55_7698_86bc_651d_06b0_cc53_b0f6_3bce_3c3e_27d2_604b)

  /** struct EccPoint. */
  class EccPoint {
    const x: array<Byte>
    const y: array<Byte>

    constructor ()
      ensures fresh(x) && fresh(y) && Separate()
    {
      x := new Byte[32];
      y := new Byte[32];
    }

    constructor Of(x: array<Byte>, y: array<Byte>)
      ensures this.x == x && this.y == y
    {
      this.x, this.y := x, y;
    }

    ghost predicate Separate() {
      x.Length == DIGITS && y.Length == DIGITS && x != y
    }

    ghost function Value(): Point
      requires Separate()
      reads x, y
    {
      Affine(V(x), V(y))
    }
  }

  /** R0 and R1 occupy four arrays of their own. */
  ghost predicate Separate(Rx: seq<array<Byte>>, Ry: seq<array<Byte>>, p: array<Byte>) {
    && |Rx| == |Ry| == 2
    && Rx[0].Length == Rx[1].Length == Ry[0].Length == Ry[1].Length == p.Length == DIGITS
    && Rx[0] != Rx[1] && Rx[0] != Ry[0] && Rx[0] != Ry[1] && Rx[1] != Ry[0] && Rx[1] != Ry[1] && Ry[0] != Ry[1]
    && p != Rx[0] && p != Rx[1] && p != Ry[0] && p != Ry[1]
  }

  /** The registers as numbers. */
  ghost function RegsOf(Rx: seq<array<Byte>>, Ry: seq<array<Byte>>, p: array<Byte>): Regs
    requires Separate(Rx, Ry, p)
    reads Rx[0], Rx[1], Ry[0], Ry[1]
  {
    Regs(V(Rx[0]), V(Ry[0]), V(Rx[1]), V(Ry[1]))
  }

  /** The registers are residues and hold r. */
  ghost predicate Hold(Rx: seq<array<Byte>>, Ry: seq<array<Byte>>, p: array<Byte>, r: Regs)
    requires Separate(Rx, Ry, p)
    reads Rx[0], Rx[1], Ry[0], Ry[1], p
  {
    && V(p) == P && V(Rx[0]) < P && V(Rx[1]) < P && V(Ry[0]) < P && V(Ry[1]) < P
    && RegsOf(Rx, Ry, p) == r
  }

  lemma PIsPositive()
    ensures SECP256R1.p == P > 3
  {}

  /** The conjugate addition of R[1 - nb] and R[nb]. */
  method Conjugate(Rx: seq<array<Byte>>, Ry: seq<array<Byte>>, nb: nat, p: array<Byte>, ghost r: Regs)
    requires Separate(Rx, Ry, p) && nb <= 1 && Hold(Rx, Ry, p, r)
    modifies Rx[0], Rx[1], Ry[0], Ry[1]
    ensures Hold(Rx, Ry, p, ConjugateAdd(r, 1 - nb, P))
  {
    hide V, CoZAddC;
    XYcZAddC(Rx[1 - nb], Ry[1 - nb], Rx[nb], Ry[nb], p);
  }

  /** The addition of R[nb] and R[1 - nb]. */
  method Addition(Rx: seq<array<Byte>>, Ry: seq<array<Byte>>, nb: nat, p: array<Byte>, ghost r: Regs)
    requires Separate(Rx, Ry, p) && nb <= 1 && Hold(Rx, Ry, p, r)
    modifies Rx[0], Rx[1], Ry[0], Ry[1]
    ensures Hold(Rx, Ry, p, PlainAdd(r, 1 - nb, P))
  {
    hide V, CoZAdd;
    XYcZAdd(Rx[nb], Ry[nb], Rx[1 - nb], Ry[1 - nb], p);
  }

  /** XYcZ_initial_double: (X1, Y1) becomes twice the point and (X2, Y2) the point, under one coordinate. */
  method InitialDouble(X1: array<Byte>, Y1: array<Byte>, X2: array<Byte>, Y2: array<Byte>, initialZ: array?<Byte>,
      p: array<Byte>)
    requires Separate([X2, X1], [Y2, Y1], p) && V(p) == P
    requires initialZ != null ==> initialZ.Length == DIGITS && initialZ != X1 && initialZ != X2 && initialZ != Y1
                                  && initialZ != Y2
    modifies X1, Y1, X2, Y2
    ensures Hold([X2, X1], [Y2, Y1], p,
              Start(old(V(X1)), old(V(Y1)), if initialZ == null then 1 else V(initialZ), P))
  {
    hide V, Double, ApplyZ;
    Set(X2, X1);
    Set(Y2, Y1);
    var z := new Byte[32];
    Clear(z);
    SetOne(z);
    if initialZ != null {
      Set(z, initialZ);
    }
    ApplyZInPlace(X1, Y1, z, p);
    DoubleJacobian(X1, Y1, z, p);
    ApplyZInPlace(X2, Y2, z, p);
  }

  lemma TwoBits(k: nat, n: nat)
    requires k >= 2 && k < Two(n)
    ensures n >= 2
  {
    if n < 2 {
      TwoUp(n, 1);
    }
    assert Two(1) == 2;
  }

  /** vli_numBits(scalar) - 2 as an unsigned 32-bit number, where the ladder begins. */
  function FirstIndex(bits: nat): nat { (bits + 0x1_0000_0000 - 2) % 0x1_0000_0000 }

  /** The ladder begins at a bit of the scalar exactly if the scalar has two bits; for 0 and 1 it would read past it. */
  lemma FirstIndexIff(k: nat, bits: nat)
    requires k < Two(bits) && (bits > 0 ==> Two(bits - 1) <= k) && bits <= 8 * DIGITS
    ensures FirstIndex(bits) < 8 * DIGITS <==> k >= 2
    ensures k >= 2 ==> FirstIndex(bits) == bits - 2
  {
    hide Two;
    if k >= 2 {
      TwoBits(k, bits);
    } else if bits >= 2 {
      TwoUp(1, bits - 1);
      SmallTwos();
    }
  }

  lemma ClimbStep(m: nat, b: nat, r: Regs, p: nat)
    requires p > 0 && m >= 1 && b <= 1
    ensures Climb(2 * m + b, r, p) == Rung(Climb(m, r, p), b, p)
  {
    hide Rung;
    QuotientIs(2 * m + b, 2, m, b);
  }

  /** The loop of EccPoint_mult from bit i down to bit 1: the registers follow the leading bits. */
  method LadderLoop(Rx: seq<array<Byte>>, Ry: seq<array<Byte>>, scalar: array<Byte>, start: nat, p: array<Byte>,
      ghost r: Regs)
    requires Separate(Rx, Ry, p) && scalar.Length == DIGITS && scalar !in Rx && scalar !in Ry
    requires start < 8 * DIGITS && Prefix(V(scalar), start + 1) == 1 && Hold(Rx, Ry, p, r)
    modifies Rx[0], Rx[1], Ry[0], Ry[1]
    ensures Prefix(V(scalar), 1) >= 1 && Hold(Rx, Ry, p, Climb(Prefix(V(scalar), 1), r, P))
  {
    hide V, ConjugateAdd, PlainAdd, Bit, Two, Hold, Prefix;
    ghost var k := V(scalar);
    var i := start;
    while i > 0
      invariant 0 <= i <= start && Hold(Rx, Ry, p, Climb(Prefix(k, i + 1), r, P))
    {
      PrefixPositive(k, i + 1, start + 1);
      PrefixStep(k, i);
      ClimbStep(Prefix(k, i + 1), Bit(k, i), r, P);
      var bit := TestBit(scalar, i);
      var nb := if bit != 0 then 0 else 1;
      BitIsNb(k, i, nb);
      ghost var s := Climb(Prefix(k, i + 1), r, P);
      Conjugate(Rx, Ry, nb, p, s);
      Addition(Rx, Ry, nb, p, ConjugateAdd(s, 1 - nb, P));
      i := i - 1;
    }
    PrefixPositive(k, 1, start + 1);
  }

  lemma BitIsNb(k: nat, i: nat, nb: nat)
    requires nb == if Bit(k, i) == 1 then 0 else 1
    ensures Bit(k, i) == 1 - nb
  {}

  lemma NumberIs(r: Regs, bit: nat, x: int)
    requires bit <= 1
    ensures NumberOf(r, bit, x, P) == FMul(FMul(FSub(r.x1, r.x0, P), if bit == 1 then r.y1 else r.y0, P), x, P)
  {}

  /** A residue other than 0 has an inverse, for a prime modulus. */
  lemma PrimeInverse(g: nat, d: nat, p: nat)
    requires Prime(p) && !Divides(p, d) && IsGcd(g, d, p)
    ensures g == 1
  {
    PrimeCoprime(p, d);
    GcdOfCoprime(g, d, p);
  }

  lemma InverseOf(g: nat, d: nat, i: nat)
    requires 0 < d < P && Cong(i * d, g, P) && IsGcd(g, d, P)
    ensures Prime(P) ==> Cong(i * d, 1, P)
  {
    hide Cong, Divides, Prime;
    if Prime(P) {
      ResiduesDiffer(d, 0, P);
      PrimeInverse(g, d, P);
    }
  }

  /** The three factors of the number the ladder inverts, its inversion, and the two factors after it. */
  method FinalZ(z: array<Byte>, Rx: seq<array<Byte>>, Ry: seq<array<Byte>>, nb: nat, point: EccPoint, p: array<Byte>,
      ghost s: Regs) returns (ends: bool, ghost i: nat)
    requires Separate(Rx, Ry, p) && nb <= 1 && point.Separate() && z.Length == DIGITS
    requires z != p && z !in Rx && z !in Ry && z != point.x && z != point.y
    requires Hold(Rx, Ry, p, s)
    modifies z
    ensures ends <==> NumberOf(s, 1 - nb, V(point.x), P) != 0
    ensures ends ==> V(z) == Unscale(i, s, 1 - nb, V(point.y), P)
    ensures ends && Prime(P) ==> Cong(i * NumberOf(s, 1 - nb, V(point.x), P), 1, P)
  {
    hide V, Cong, NumberOf, FMul, FSub, Prime, IsGcd;
    ModSub(z, Rx[1], Rx[0], p);
    ModMultFast(z, z, Ry[1 - nb], p);
    ModMultFast(z, z, point.x, p);
    NumberIs(s, 1 - nb, V(point.x));
    ghost var d: nat := V(z);
    ghost var g: nat;
    ends, g := ModInvEnds(z, z, p);
    if !ends {
      return false, 0;
    }
    i := V(z);
    InverseOf(g, d, i);
    ModMultFast(z, z, point.y, p);
    ModMultFast(z, z, Rx[1 - nb], p);
  }

  /** The last bit: both additions, the inversion between them, and the result in affine form. */
  method LadderEnd(result: EccPoint, Rx: seq<array<Byte>>, Ry: seq<array<Byte>>, z: array<Byte>, point: EccPoint,
      scalar: array<Byte>, p: array<Byte>, ghost r: Regs) returns (ends: bool, ghost i: nat)
    requires Separate(Rx, Ry, p) && result.Separate() && point.Separate() && scalar.Length == z.Length == DIGITS
    requires z != p && z !in Rx && z !in Ry && z != point.x && z != point.y && z != scalar
    requires point.x !in Rx && point.x !in Ry && point.y !in Rx && point.y !in Ry && scalar !in Rx && scalar !in Ry
    requires result.x !in Rx && result.x !in Ry && result.y !in Rx && result.y !in Ry && z != result.x && z != result.y
    requires Hold(Rx, Ry, p, r)
    modifies Rx[0], Rx[1], Ry[0], Ry[1], z, result.x, result.y
    ensures var s := ConjugateAdd(r, Bit(old(V(scalar)), 0), P);
            var d := NumberOf(s, Bit(old(V(scalar)), 0), old(V(point.x)), P);
            && (ends <==> d != 0)
            && (ends && Prime(P) ==> Cong(i * d, 1, P))
            && (ends ==> result.Value() == Scaled(s, Bit(old(V(scalar)), 0), old(V(point.y)), i, P))
  {
    hide V, ConjugateAdd, PlainAdd, NumberOf, Bit, Cong, Prime, ApplyZ, Unscale;
    var bit := TestBit(scalar, 0);
    var nb := if bit != 0 then 0 else 1;
    BitIsNb(V(scalar), 0, nb);
    Conjugate(Rx, Ry, nb, p, r);
    ghost var s := ConjugateAdd(r, 1 - nb, P);
    ends, i := FinalZ(z, Rx, Ry, nb, point, p, s);
    if !ends {
      return false, 0;
    }
    Addition(Rx, Ry, nb, p, s);
    ApplyZInPlace(Rx[0], Ry[0], z, p);
    Set(result.x, Rx[0]);
    Set(result.y, Ry[0]);
  }

  /** The bit the loop begins at. */
  method StartingBit(scalar: array<Byte>) returns (start: nat)
    requires scalar.Length == DIGITS && V(scalar) >= 2
    ensures start < 8 * DIGITS && Prefix(V(scalar), start + 1) == 1
  {
    hide V, Two, Prefix, FirstIndex;
    var bits := NumBits(scalar);
    FirstIndexIff(V(scalar), bits);
    TwoBits(V(scalar), bits);
    PrefixStart(V(scalar), bits);
    start := FirstIndex(bits);
  }

  lemma PrimeField()
    requires GroupLaw(SECP256R1)
    ensures Prime(P)
  {
    hide Prime;
  }

  lemma LastBit(k: nat)
    ensures Prefix(k, 1) == k / 2 && Bit(k, 0) == k % 2
  {
    hide Bit, Prefix;
    PrefixStep(k, 0);
    PrefixWhole(k);
    BitZero(k);
  }

  /** From the doubled point to the result. */
  method LadderRun(result: EccPoint, Rx: seq<array<Byte>>, Ry: seq<array<Byte>>, z: array<Byte>, point: EccPoint,
      scalar: array<Byte>, p: array<Byte>, ghost r: Regs) returns (ends: bool, ghost i: nat)
    requires Separate(Rx, Ry, p) && result.Separate() && point.Separate() && scalar.Length == z.Length == DIGITS
    requires z != p && z !in Rx && z !in Ry && z != point.x && z != point.y && z != scalar
    requires point.x !in Rx && point.x !in Ry && point.y !in Rx && point.y !in Ry && scalar !in Rx && scalar !in Ry
    requires result.x !in Rx && result.x !in Ry && result.y !in Rx && result.y !in Ry && z != result.x && z != result.y
    requires Hold(Rx, Ry, p, r) && V(scalar) >= 2
    modifies Rx[0], Rx[1], Ry[0], Ry[1], z, result.x, result.y
    ensures var k := old(V(scalar));
            var s := ConjugateAdd(Climb(k / 2, r, P), k % 2, P);
            var d := NumberOf(s, k % 2, old(V(point.x)), P);
            && (ends <==> d != 0)
            && (ends && Prime(P) ==> Cong(i * d, 1, P))
            && (ends ==> result.Value() == Scaled(s, k % 2, old(V(point.y)), i, P))
  {
    hide V, Bit, Two, Climb, Prefix, Prime, ConjugateAdd, NumberOf, Scaled, Cong, Hold, EccPoint.Value;
    ghost var k := V(scalar);
    var start := StartingBit(scalar);
    LadderLoop(Rx, Ry, scalar, start, p, r);
    LastBit(k);
    ends, i := LadderEnd(result, Rx, Ry, z, point, scalar, p, Climb(k / 2, r, P));
  }

  /** EccPoint_mult, for a scalar of at least two bits.  It ends exactly if the number it inverts is not 0, and then
      the result is scalar * point for every point of the curve. */
  method EccPointMult(result: EccPoint, point: EccPoint, scalar: array<Byte>, initialZ: array?<Byte>, p: array<Byte>)
    returns (ends: bool)
    requires result.Separate() && point.Separate() && scalar.Length == p.Length == DIGITS && V(p) == P
    requires initialZ != null ==> initialZ.Length == DIGITS
    requires V(scalar) >= 2
    modifies result.x, result.y
    ensures var z := if initialZ == null then 1 else old(V(initialZ));
            ends <==> Inverted(old(V(scalar)), old(V(point.x)), old(V(point.y)), z, P) != 0
    ensures ends && GroupLaw(SECP256R1) && OnCurve(old(point.Value()), SECP256R1)
            ==> result.Value() == Times(old(V(scalar)), old(point.Value()), SECP256R1)
  {
    hide V, GroupLaw, OnCurve, Times, Start, Climb, Prime, ConjugateAdd, NumberOf, Scaled, Cong;
    ghost var k, Pt, z0: int := V(scalar), point.Value(), if initialZ == null then 1 else V(initialZ);
    var x0, x1, y0, y1, z := new Byte[32], new Byte[32], new Byte[32], new Byte[32], new Byte[32];
    var Rx, Ry := [x0, x1], [y0, y1];
    Set(Rx[1], point.x);
    Set(Ry[1], point.y);
    InitialDouble(Rx[1], Ry[1], Rx[0], Ry[0], initialZ, p);
    ghost var i: nat;
    ends, i := LadderRun(result, Rx, Ry, z, point, scalar, p, Start(Pt.x, Pt.y, z0, P));
    if ends && GroupLaw(SECP256R1) && OnCurve(Pt, SECP256R1) {
      PrimeField();
      ResultIs(k, z0, i, Pt, SECP256R1);
    }
  }

  /** apply_z with the inverse of the coordinate gives the affine point itself. */
  method Normalise(X: array<Byte>, Y: array<Byte>, z: array<Byte>, p: array<Byte>, ghost Z: int, ghost Q: Point)
    requires X.Length == Y.Length == z.Length == p.Length == DIGITS
    requires X != Y && X != z && Y != z && p != X && p != Y && V(p) == P
    requires Cong(Z * V(z), 1, P) && RepPoint(V(X), V(Y), Z, Q, SECP256R1) && OnCurve(Q, SECP256R1)
    modifies X, Y
    ensures Q == Affine(V(X), V(Y))
  {
    hide V, Cong, ApplyZ, OnCurve;
    PIsPositive();
    Residues(Q, SECP256R1);
    ApplyInverse(V(X), V(Y), Z, V(z), Q.x, Q.y, P);
    ApplyZInPlace(X, Y, z, p);
  }

  /** The square root of the coefficient. */
  const ROOT_B: nat := 0x6648_5c78_0e2f_83d7_2433_bd5d_84a0_6bb6_541c_2af3_1dae_8717_28bf_856a_174f_93f4

  /** A point of the curve with x = 0, which ecc_valid_public_key accepts: the ladder never ends on it. */
  lemma ZeroXPoint(k: nat, z: int)
    ensures OnCurve(Affine(0, ROOT_B), SECP256R1) && Inverted(k, 0, ROOT_B, z, P) == 0
  {
    hide Inverted;
    ZeroXFails(k, ROOT_B, z, P);
    RootIs();
  }

  lemma RootIs()
    ensures ROOT_B < P && OnCurve(Affine(0, ROOT_B), SECP256R1)
  {
    hide Cong;
    CongFrom(ROOT_B * ROOT_B, SECP256R1.b, 0x28dd_be23_f91a_186c_de31_693e_44d9_5773_76ba_56e1_c52c_b3f3_35f4_c8db_a9b8_3fbb, P);
  }
}
