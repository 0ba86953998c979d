/** The point formulas of ecc.c as functions on residues, and what they mean over Z_p for any odd p:
    Jacobian doubling, co-Z addition and conjugate co-Z addition for curves with a = -3. */
module CoZ {
  import opened Arith
  import opened Modular
  import opened Field

  datatype Pair = Pair(x1: int, y1: int, x2: int, y2: int)

  datatype Jacobian = Jacobian(x: int, y: int, z: int)

  /** XYcZ_add. */
  function CoZAdd(x1: int, y1: int, x2: int, y2: int, p: nat): Pair
    requires p > 0
  {
    var t := FSub(x2, x1, p);
    var a := FMul(t, t, p);
    var b := FMul(x1, a, p);
    var c := FMul(x2, a, p);
    var dy := FSub(y2, y1, p);
    var d := FMul(dy, dy, p);
    var x3 := FSub(FSub(d, b, p), c, p);
    var y1' := FMul(y1, FSub(c, b, p), p);
    var y3 := FSub(FMul(dy, FSub(b, x3, p), p), y1', p);
    Pair(b, y1', x3, y3)
  }

  /** XYcZ_addC. */
  function CoZAddC(x1: int, y1: int, x2: int, y2: int, p: nat): Pair
    requires p > 0
  {
    var t := FSub(x2, x1, p);
    var a := FMul(t, t, p);
    var b := FMul(x1, a, p);
    var c := FMul(x2, a, p);
    var sy := FAdd(y2, y1, p);
    var dy := FSub(y2, y1, p);
    var e := FMul(y1, FSub(c, b, p), p);
    var bc := FAdd(b, c, p);
    var x3 := FSub(FMul(dy, dy, p), bc, p);
    var y3 := FSub(FMul(dy, FSub(b, x3, p), p), e, p);
    var x4 := FSub(FMul(sy, sy, p), bc, p);
    var y4 := FSub(FMul(FSub(x4, b, p), sy, p), e, p);
    Pair(x4, y4, x3, y3)
  }

  /** apply_z. */
  function ApplyZ(x: int, y: int, z: int, p: nat): (int, int)
    requires p > 0
  {
    var t := FMul(z, z, p);
    (FMul(x, t, p), FMul(y, FMul(t, z, p), p))
  }

  /** Halving a residue modulo an odd p. */
  function FHalf(a: int, p: nat): int { if a % 2 == 0 then a / 2 else (a + p) / 2 }

  /** EccPoint_double_jacobian for a nonzero z. */
  function Double(x: int, y: int, z: int, p: nat): Jacobian
    requires p > 0
  {
    var yy := FMul(y, y, p);
    var a := FMul(x, yy, p);
    var y4 := FMul(yy, yy, p);
    var z3 := FMul(y, z, p);
    var zz := FMul(z, z, p);
    var s := FAdd(x, zz, p);
    var d := FSub(s, FAdd(zz, zz, p), p);
    var m := FMul(s, d, p);
    var b := FHalf(FAdd(m, FAdd(m, m, p), p), p);
    var x3 := FSub(FSub(FMul(b, b, p), a, p), a, p);
    var y3 := FSub(FMul(b, FSub(a, x3, p), p), y4, p);
    Jacobian(x3, y3, z3)
  }

  /** (X, Y) with the coordinate Z stands for the affine (x, y). */
  ghost predicate Rep(X: int, Y: int, Z: int, x: int, y: int, p: nat)
    requires p > 0
  {
    Cong(X, x * Z * Z, p) && Cong(Y, y * Z * Z * Z, p)
  }

  /** The third point of a line of slope l through (x1, y1) and x2, reflected. */
  function ThirdX(l: int, x1: int, x2: int): int { l * l - x1 - x2 }

  function ThirdY(l: int, x1: int, y1: int, x2: int): int { l * (x1 - ThirdX(l, x1, x2)) - y1 }

  /** (x1, y1) moved to the new coordinate W = Z * (X2 - X1). */
  lemma MovedX(X1: int, x1: int, Z: int, dx: int, a: int, p: nat)
    requires p > 0 && Cong(X1, x1 * Z * Z, p) && Cong(a, dx * dx, p)
    ensures Cong(FMul(X1, a, p), x1 * (Z * dx) * (Z * dx), p)
  {
    hide Cong, FMul;
    MulCong(X1, a, x1 * Z * Z, dx * dx, p);
    SquareTerms(x1, Z, dx);
  }

  lemma SquareTerms(x: int, z: int, d: int)
    ensures x * z * z * (d * d) == x * (z * d) * (z * d)
  {}

  /** dx is (x2 - x1) * Z^2. */
  lemma Spread(X1: int, X2: int, x1: int, x2: int, Z: int, p: nat)
    requires p > 0 && Cong(X1, x1 * Z * Z, p) && Cong(X2, x2 * Z * Z, p)
    ensures Cong(X2 - X1, (x2 - x1) * Z * Z, p)
  {
    hide Cong;
    CongSub(X2, x2 * Z * Z, X1, x1 * Z * Z, p);
    SpreadTerms(x1, x2, Z);
  }

  lemma SpreadTerms(x1: int, x2: int, z: int)
    ensures x2 * z * z - x1 * z * z == (x2 - x1) * z * z
  {}

  /** Y2 - Y1 is the slope times the new coordinate. */
  lemma SlopeTimesW(Y1: int, Y2: int, y1: int, y2: int, dx: int, l: int, x: int, Z: int, p: nat)
    requires p > 0 && Cong(Y1, y1 * Z * Z * Z, p) && Cong(Y2, y2 * Z * Z * Z, p)
    requires Cong(dx, x * Z * Z, p) && Cong(l * x, y2 - y1, p)
    ensures Cong(Y2 - Y1, l * (Z * dx), p)
  {
    hide Cong;
    CongSub(Y2, y2 * Z * Z * Z, Y1, y1 * Z * Z * Z, p);
    CongRefl(l * Z, p);
    CongMul(l * Z, l * Z, dx, x * Z * Z, p);
    CongRefl(Z * Z * Z, p);
    CongMul(l * x, y2 - y1, Z * Z * Z, Z * Z * Z, p);
    SlopeTerms(l, x, y1, y2, dx, Z);
    CongTrans(l * (Z * dx), l * x * (Z * Z * Z), (y2 - y1) * (Z * Z * Z), p);
    CongSym(l * (Z * dx), (y2 - y1) * (Z * Z * Z), p);
    CongTrans(Y2 - Y1, (y2 - y1) * (Z * Z * Z), l * (Z * dx), p);
  }

  lemma SlopeTerms(l: int, x: int, y1: int, y2: int, dx: int, z: int)
    ensures l * z * dx == l * (z * dx)
    ensures l * z * (x * z * z) == l * x * (z * z * z)
    ensures y2 * z * z * z - y1 * z * z * z == (y2 - y1) * (z * z * z)
  {}

  /** y1 * (C - B) is y1 moved to the new coordinate. */
  lemma MovedY(Y1: int, y1: int, cb: int, dx: int, x: int, Z: int, p: nat)
    requires p > 0 && Cong(Y1, y1 * Z * Z * Z, p)
    requires Cong(dx, x * Z * Z, p) && Cong(cb, x * (Z * dx) * (Z * dx), p)
    ensures Cong(FMul(Y1, cb, p), y1 * (Z * dx) * (Z * dx) * (Z * dx), p)
  {
    hide Cong, FMul;
    var W := Z * dx;
    MulCong(Y1, cb, y1 * Z * Z * Z, x * W * W, p);
    CongRefl(y1 * Z * W * W, p);
    CongMul(y1 * Z * W * W, y1 * Z * W * W, dx, x * Z * Z, p);
    CubeTerms(y1, x, Z, W, dx);
    CongSym(y1 * W * W * W, y1 * Z * Z * Z * (x * W * W), p);
    CongTrans(FMul(Y1, cb, p), y1 * Z * Z * Z * (x * W * W), y1 * W * W * W, p);
  }

  lemma CubeTerms(y: int, x: int, z: int, w: int, d: int)
    requires w == z * d
    ensures y * z * w * w * d == y * w * w * w
    ensures y * z * w * w * (x * z * z) == y * z * z * z * (x * w * w)
  {
    CubeTermsLeft(y, z, w, d);
    CubeTermsRight(y, x, z, w);
  }

  lemma CubeTermsLeft(y: int, z: int, w: int, d: int)
    ensures y * z * w * w * d == y * (z * d) * w * w
  {}

  lemma CubeTermsRight(y: int, x: int, z: int, w: int)
    ensures y * z * w * w * (x * z * z) == y * z * z * z * (x * w * w)
  {}

  /** The x-coordinate of the third point, D - B - C. */
  lemma ThirdXMoved(d: int, b: int, c: int, l: int, x1: int, x2: int, W: int, p: nat)
    requires p > 0 && Cong(d, l * W * (l * W), p) && Cong(b, x1 * W * W, p) && Cong(c, x2 * W * W, p)
    ensures Cong(d - b - c, ThirdX(l, x1, x2) * W * W, p)
  {
    hide Cong;
    CongSub(d, l * W * (l * W), b, x1 * W * W, p);
    CongSub(d - b, l * W * (l * W) - x1 * W * W, c, x2 * W * W, p);
    ThirdXTerms(l, x1, x2, W);
  }

  lemma ThirdXTerms(l: int, x1: int, x2: int, w: int)
    ensures l * w * (l * w) - x1 * w * w - x2 * w * w == (l * l - x1 - x2) * w * w
  {}

  /** Its y-coordinate, dy * (B - x3) - y1'. */
  lemma ThirdYMoved(f: int, e: int, l: int, x1: int, y1: int, x3: int, W: int, p: nat)
    requires p > 0 && Cong(f, l * W * (x1 * W * W - x3 * W * W), p) && Cong(e, y1 * W * W * W, p)
    ensures Cong(f - e, (l * (x1 - x3) - y1) * W * W * W, p)
  {
    hide Cong;
    CongSub(f, l * W * (x1 * W * W - x3 * W * W), e, y1 * W * W * W, p);
    ThirdYTerms(l, x1, y1, x3, W);
  }

  lemma ThirdYTerms(l: int, x1: int, y1: int, x3: int, w: int)
    ensures l * w * (x1 * w * w - x3 * w * w) - y1 * w * w * w == (l * (x1 - x3) - y1) * w * w * w
  {
    SpreadTerms(x3, x1, w);
    MoveFactor(l, x1 - x3, w);
    DifferenceTerms(l * (x1 - x3), y1, w);
  }

  lemma DifferenceTerms(n: int, m: int, w: int)
    ensures (n - m) * w * w * w == n * w * w * w - m * w * w * w
  {
    Distribute(n, -m, w);
    Distribute(n * w, -m * w, w);
    Distribute(n * w * w, -m * w * w, w);
    assert -m * w == -(m * w) && -m * w * w == -(m * w * w) && -m * w * w * w == -(m * w * w * w);
  }

  lemma MoveFactor(l: int, d: int, w: int)
    ensures l * w * (d * w * w) == l * d * w * w * w
  {}

  /** The sum half that XYcZ_add and XYcZ_addC share, for a line of slope l. */
  lemma SumPart(b: int, c: int, dy: int, e: int, l: int, x1: int, y1: int, x2: int, W: int, p: nat)
    requires p > 0 && Cong(b, x1 * W * W, p) && Cong(c, x2 * W * W, p)
    requires Cong(dy, l * W, p) && Cong(e, y1 * W * W * W, p)
    ensures Cong(FSub(FSub(FMul(dy, dy, p), b, p), c, p), ThirdX(l, x1, x2) * W * W, p)
    ensures Cong(FSub(FMul(dy, dy, p), FAdd(b, c, p), p), ThirdX(l, x1, x2) * W * W, p)
    ensures forall x3: int :: Cong(x3, ThirdX(l, x1, x2) * W * W, p)
              ==> Cong(FSub(FMul(dy, FSub(b, x3, p), p), e, p), ThirdY(l, x1, y1, x2) * W * W * W, p)
  {
    hide Cong, FMul, FSub, FAdd, ThirdX;
    var d := FMul(dy, dy, p);
    MulCong(dy, dy, l * W, l * W, p);
    CongRefl(b, p);
    CongRefl(c, p);
    CongRefl(d, p);
    SubCong(d, b, d, b, p);
    SubCong(FSub(d, b, p), c, d - b, c, p);
    AddCong(b, c, b, c, p);
    SubCong(d, FAdd(b, c, p), d, b + c, p);
    ThirdXMoved(d, b, c, l, x1, x2, W, p);
    var xx := ThirdX(l, x1, x2);
    CongTrans(FSub(FSub(d, b, p), c, p), d - b - c, xx * W * W, p);
    assert d - (b + c) == d - b - c;
    CongTrans(FSub(d, FAdd(b, c, p), p), d - b - c, xx * W * W, p);
    forall x3: int | Cong(x3, xx * W * W, p)
      ensures Cong(FSub(FMul(dy, FSub(b, x3, p), p), e, p), ThirdY(l, x1, y1, x2) * W * W * W, p)
    {
      SubCong(b, x3, x1 * W * W, xx * W * W, p);
      MulCong(dy, FSub(b, x3, p), l * W, x1 * W * W - xx * W * W, p);
      var f := FMul(dy, FSub(b, x3, p), p);
      CongRefl(f, p);
      CongRefl(e, p);
      SubCong(f, e, f, e, p);
      ThirdYMoved(f, e, l, x1, y1, xx, W, p);
      CongTrans(FSub(f, e, p), f - e, ThirdY(l, x1, y1, x2) * W * W * W, p);
    }
  }

  /** XYcZ_add: P and P + Q under the new coordinate Z * (X2 - X1), for the chord slope l. */
  lemma CoZAddIs(X1: int, Y1: int, X2: int, Y2: int, Z: int, x1: int, y1: int, x2: int, y2: int, l: int, p: nat)
    requires p > 0 && Rep(X1, Y1, Z, x1, y1, p) && Rep(X2, Y2, Z, x2, y2, p)
    requires Cong(l * (x2 - x1), y2 - y1, p)
    ensures var r := CoZAdd(X1, Y1, X2, Y2, p);
            var W := Z * (X2 - X1);
            Rep(r.x1, r.y1, W, x1, y1, p) && Rep(r.x2, r.y2, W, ThirdX(l, x1, x2), ThirdY(l, x1, y1, x2), p)
  {
    hide Cong, FMul, FSub, FAdd, ThirdX, ThirdY;
    var dx := X2 - X1;
    var W := Z * dx;
    var t := FSub(X2, X1, p);
    CongRefl(X1, p);
    CongRefl(X2, p);
    SubCong(X2, X1, X2, X1, p);
    MulCong(t, t, dx, dx, p);
    var a := FMul(t, t, p);
    MovedX(X1, x1, Z, dx, a, p);
    MovedX(X2, x2, Z, dx, a, p);
    var b, c := FMul(X1, a, p), FMul(X2, a, p);
    Spread(X1, X2, x1, x2, Z, p);
    SlopeTimesW(Y1, Y2, y1, y2, dx, l, x2 - x1, Z, p);
    CongRefl(Y1, p);
    CongRefl(Y2, p);
    SubCong(Y2, Y1, Y2, Y1, p);
    var dy := FSub(Y2, Y1, p);
    CongTrans(dy, Y2 - Y1, l * W, p);
    SubCong(c, b, x2 * W * W, x1 * W * W, p);
    SpreadTerms(x1, x2, W);
    MovedY(Y1, y1, FSub(c, b, p), dx, x2 - x1, Z, p);
    SumPart(b, c, dy, FMul(Y1, FSub(c, b, p), p), l, x1, y1, x2, W, p);
  }

  /** XYcZ_addC: P - Q and P + Q under the new coordinate, for the slopes l through Q and k through -Q. */
  lemma CoZAddCIs(X1: int, Y1: int, X2: int, Y2: int, Z: int, x1: int, y1: int, x2: int, y2: int, l: int, k: int, p: nat)
    requires p > 0 && Rep(X1, Y1, Z, x1, y1, p) && Rep(X2, Y2, Z, x2, y2, p)
    requires Cong(l * (x2 - x1), y2 - y1, p) && Cong(k * (x2 - x1), -y2 - y1, p)
    ensures var r := CoZAddC(X1, Y1, X2, Y2, p);
            var W := Z * (X2 - X1);
            && Rep(r.x1, r.y1, W, ThirdX(k, x1, x2), ThirdY(k, x1, y1, x2), p)
            && Rep(r.x2, r.y2, W, ThirdX(l, x1, x2), ThirdY(l, x1, y1, x2), p)
  {
    hide Cong, FMul, FSub, FAdd, ThirdX, ThirdY;
    var dx := X2 - X1;
    var W := Z * dx;
    var t := FSub(X2, X1, p);
    CongRefl(X1, p);
    CongRefl(X2, p);
    SubCong(X2, X1, X2, X1, p);
    MulCong(t, t, dx, dx, p);
    var a := FMul(t, t, p);
    MovedX(X1, x1, Z, dx, a, p);
    MovedX(X2, x2, Z, dx, a, p);
    var b, c := FMul(X1, a, p), FMul(X2, a, p);
    Spread(X1, X2, x1, x2, Z, p);
    SlopeTimesW(Y1, Y2, y1, y2, dx, l, x2 - x1, Z, p);
    CongRefl(Y1, p);
    CongRefl(Y2, p);
    SubCong(Y2, Y1, Y2, Y1, p);
    var dy := FSub(Y2, Y1, p);
    CongTrans(dy, Y2 - Y1, l * W, p);
    SubCong(c, b, x2 * W * W, x1 * W * W, p);
    SpreadTerms(x1, x2, W);
    var e := FMul(Y1, FSub(c, b, p), p);
    MovedY(Y1, y1, FSub(c, b, p), dx, x2 - x1, Z, p);
    SumPart(b, c, dy, e, l, x1, y1, x2, W, p);
    NegatedY(Y2, y2, Z, p);
    SlopeTimesW(Y1, -Y2, y1, -y2, dx, k, x2 - x1, Z, p);
    AddCong(Y2, Y1, Y2, Y1, p);
    var sy := FAdd(Y2, Y1, p);
    NegateCong(sy, Y2 + Y1, -Y2 - Y1, k * W, p);
    DifferencePart(b, c, sy, e, k, x1, y1, x2, W, p);
  }

  lemma NegatedY(Y: int, y: int, Z: int, p: nat)
    requires p > 0 && Cong(Y, y * Z * Z * Z, p)
    ensures Cong(-Y, (-y) * Z * Z * Z, p)
  {
    hide Cong;
    CongRefl(0, p);
    CongSub(0, 0, Y, y * Z * Z * Z, p);
    assert (-y) * Z * Z * Z == -(y * Z * Z * Z);
  }

  lemma NegateCong(a: int, b: int, c: int, d: int, p: nat)
    requires p > 0 && Cong(a, b, p) && c == -b && Cong(c, d, p)
    ensures Cong(a, -d, p)
  {
    hide Cong;
    CongRefl(0, p);
    CongSub(0, 0, c, d, p);
    CongTrans(a, b, -d, p);
  }

  /** The difference half of XYcZ_addC, where sy is minus the slope times the new coordinate. */
  lemma DifferencePart(b: int, c: int, sy: int, e: int, k: int, x1: int, y1: int, x2: int, W: int, p: nat)
    requires p > 0 && Cong(b, x1 * W * W, p) && Cong(c, x2 * W * W, p)
    requires Cong(sy, -(k * W), p) && Cong(e, y1 * W * W * W, p)
    ensures var x4 := FSub(FMul(sy, sy, p), FAdd(b, c, p), p);
            Cong(x4, ThirdX(k, x1, x2) * W * W, p)
            && Cong(FSub(FMul(FSub(x4, b, p), sy, p), e, p), ThirdY(k, x1, y1, x2) * W * W * W, p)
  {
    hide Cong, FMul, FSub, FAdd, ThirdX;
    var d := FMul(sy, sy, p);
    MulCong(sy, sy, -(k * W), -(k * W), p);
    assert -(k * W) * -(k * W) == k * W * (k * W);
    CongRefl(b, p);
    CongRefl(c, p);
    CongRefl(d, p);
    CongRefl(e, p);
    AddCong(b, c, b, c, p);
    SubCong(d, FAdd(b, c, p), d, b + c, p);
    ThirdXMoved(d, b, c, k, x1, x2, W, p);
    var xx := ThirdX(k, x1, x2);
    assert d - (b + c) == d - b - c;
    var x4 := FSub(d, FAdd(b, c, p), p);
    CongTrans(x4, d - b - c, xx * W * W, p);
    SubCong(x4, b, xx * W * W, x1 * W * W, p);
    MulCong(FSub(x4, b, p), sy, xx * W * W - x1 * W * W, -(k * W), p);
    var f := FMul(FSub(x4, b, p), sy, p);
    SwapSigns(xx * W * W, x1 * W * W, k * W);
    CongRefl(f, p);
    SubCong(f, e, f, e, p);
    ThirdYMoved(f, e, k, x1, y1, xx, W, p);
    CongTrans(FSub(f, e, p), f - e, ThirdY(k, x1, y1, x2) * W * W * W, p);
  }

  lemma SwapSigns(a: int, b: int, c: int)
    ensures (a - b) * -c == c * (b - a)
  {}

  lemma HalfIsHalf(a: int, p: nat)
    requires p > 0 && p % 2 == 1 && 0 <= a < p
    ensures 0 <= FHalf(a, p) < p && Cong(2 * FHalf(a, p), a, p)
  {
    if a % 2 == 0 {
      CongRefl(a, p);
    } else {
      CongFrom(2 * FHalf(a, p), a, 1, p);
    }
  }

  /** The slope numerator 3(X + Z^2)(X - Z^2) / 2 is the tangent slope times the new coordinate. */
  lemma TangentPart(X: int, Y: int, Z: int, x: int, y: int, l: int, b: int, p: nat)
    requires p > 0 && p % 2 == 1 && Rep(X, Y, Z, x, y, p) && Cong(l * (2 * y), 3 * (x * x) - 3, p)
    requires Cong(2 * b, 3 * (x * x - 1) * (Z * Z * Z * Z), p)
    ensures Cong(b, l * (Y * Z), p)
  {
    hide Cong;
    var z4 := Z * Z * Z * Z;
    CongRefl(z4, p);
    CongMul(l * (2 * y), 3 * (x * x) - 3, z4, z4, p);
    CongRefl(2 * l * Z, p);
    CongMul(2 * l * Z, 2 * l * Z, Y, y * Z * Z * Z, p);
    TangentTerms(l, x, y, Y, Z);
    CongSym(l * (2 * y) * z4, 3 * (x * x - 1) * z4, p);
    CongTrans(2 * b, 3 * (x * x - 1) * z4, l * (2 * y) * z4, p);
    CongSym(2 * (l * (Y * Z)), l * (2 * y) * z4, p);
    CongTrans(2 * b, l * (2 * y) * z4, 2 * (l * (Y * Z)), p);
    CancelTwoCong(b, l * (Y * Z), p);
  }

  lemma TangentTerms(l: int, x: int, y: int, Y: int, z: int)
    ensures (3 * (x * x) - 3) * (z * z * z * z) == 3 * (x * x - 1) * (z * z * z * z)
    ensures 2 * l * z * Y == 2 * (l * (Y * z))
    ensures 2 * l * z * (y * z * z * z) == l * (2 * y) * (z * z * z * z)
  {}

  lemma CancelTwoCong(a: int, b: int, p: nat)
    requires p > 0 && p % 2 == 1 && Cong(2 * a, 2 * b, p)
    ensures Cong(a, b, p)
  {
    CongIs(2 * a, 2 * b, p);
    assert 2 * a - 2 * b == 2 * (a - b);
    CancelTwo(a - b, p);
    CongIs(a, b, p);
  }

  /** 3(X + Z^2)(X - Z^2), as EccPoint_double_jacobian computes it. */
  lemma NumeratorIs(X: int, Z: int, x: int, p: nat)
    requires p > 0 && p % 2 == 1 && Cong(X, x * Z * Z, p)
    ensures var zz := FMul(Z, Z, p);
            var m := FMul(FAdd(X, zz, p), FSub(FAdd(X, zz, p), FAdd(zz, zz, p), p), p);
            Cong(2 * FHalf(FAdd(m, FAdd(m, m, p), p), p), 3 * (x * x - 1) * (Z * Z * Z * Z), p)
  {
    hide Cong, FMul, FSub, FAdd, FHalf;
    var zz := FMul(Z, Z, p);
    CongRefl(Z, p);
    MulCong(Z, Z, Z, Z, p);
    var s := FAdd(X, zz, p);
    AddCong(X, zz, x * Z * Z, Z * Z, p);
    AddCong(zz, zz, Z * Z, Z * Z, p);
    var d := FSub(s, FAdd(zz, zz, p), p);
    SubCong(s, FAdd(zz, zz, p), x * Z * Z + Z * Z, Z * Z + Z * Z, p);
    var m := FMul(s, d, p);
    var v := (x * Z * Z + Z * Z) * (x * Z * Z + Z * Z - (Z * Z + Z * Z));
    MulCong(s, d, x * Z * Z + Z * Z, x * Z * Z + Z * Z - (Z * Z + Z * Z), p);
    AddCong(m, m, v, v, p);
    AddCong(m, FAdd(m, m, p), v, v + v, p);
    NumeratorTerms(x, Z);
    var n := FAdd(m, FAdd(m, m, p), p);
    HalfIsHalf(n, p);
    CongTrans(2 * FHalf(n, p), n, 3 * (x * x - 1) * (Z * Z * Z * Z), p);
  }

  lemma NumeratorTerms(x: int, z: int)
    ensures var v := (x * z * z + z * z) * (x * z * z + z * z - (z * z + z * z));
            v + (v + v) == 3 * (x * x - 1) * (z * z * z * z)
  {
    var w := z * z;
    assert (x * w + w) * (x * w + w - (w + w)) == (x * x - 1) * (w * w) by { NumeratorSquare(x, w); }
    assert x * z * z == x * w && z * z * z * z == w * w;
    assert 3 * ((x * x - 1) * (w * w)) == 3 * (x * x - 1) * (w * w);
  }

  lemma NumeratorSquare(x: int, w: int)
    ensures (x * w + w) * (x * w + w - (w + w)) == (x * x - 1) * (w * w)
  {}

  /** Y^4 is y moved to the new coordinate Y * Z. */
  lemma FourthPower(Y: int, Z: int, y: int, p: nat)
    requires p > 0 && Cong(Y, y * Z * Z * Z, p)
    ensures var yy := FMul(Y, Y, p);
            Cong(FMul(yy, yy, p), y * (Y * Z) * (Y * Z) * (Y * Z), p)
  {
    hide Cong, FMul;
    var yy := FMul(Y, Y, p);
    CongRefl(Y, p);
    MulCong(Y, Y, Y, Y, p);
    MulCong(yy, yy, Y * Y, Y * Y, p);
    CongRefl(Y * Y * Y, p);
    CongMul(Y * Y * Y, Y * Y * Y, Y, y * Z * Z * Z, p);
    FourthTerms(Y, Z, y);
    CongTrans(FMul(yy, yy, p), Y * Y * (Y * Y), y * (Y * Z) * (Y * Z) * (Y * Z), p);
  }

  lemma FourthTerms(Y: int, z: int, y: int)
    ensures Y * Y * Y * Y == Y * Y * (Y * Y)
    ensures Y * Y * Y * (y * z * z * z) == y * (Y * z) * (Y * z) * (Y * z)
  {}

  /** EccPoint_double_jacobian: the tangent-rule double under the coordinate Y * Z. */
  lemma DoubleIs(X: int, Y: int, Z: int, x: int, y: int, l: int, p: nat)
    requires p > 0 && p % 2 == 1 && Rep(X, Y, Z, x, y, p) && Cong(l * (2 * y), 3 * (x * x) - 3, p)
    ensures var r := Double(X, Y, Z, p);
            r.z == FMul(Y, Z, p) && Rep(r.x, r.y, Y * Z, ThirdX(l, x, x), ThirdY(l, x, y, x), p)
  {
    hide Cong, FMul, FSub, FAdd, FHalf, ThirdX, ThirdY;
    var yy := FMul(Y, Y, p);
    var W := Y * Z;
    CongRefl(Y, p);
    MulCong(Y, Y, Y, Y, p);
    var a := FMul(X, yy, p);
    MovedX(X, x, Z, Y, yy, p);
    assert Z * Y == W;
    NumeratorIs(X, Z, x, p);
    var zz := FMul(Z, Z, p);
    var m := FMul(FAdd(X, zz, p), FSub(FAdd(X, zz, p), FAdd(zz, zz, p), p), p);
    var b := FHalf(FAdd(m, FAdd(m, m, p), p), p);
    TangentPart(X, Y, Z, x, y, l, b, p);
    FourthPower(Y, Z, y, p);
    SumPart(a, a, b, FMul(yy, yy, p), l, x, y, x, W, p);
  }

  /** apply_z takes the affine point to the coordinate Z, and an inverse of Z takes it back. */
  lemma ApplyZIs(x: int, y: int, z: int, p: nat)
    requires p > 0
    ensures var (X, Y) := ApplyZ(x, y, z, p); Rep(X, Y, z, x, y, p)
  {
    hide Cong, FMul;
    CongRefl(x, p);
    CongRefl(y, p);
    CongRefl(z, p);
    MulCong(z, z, z, z, p);
    var t := FMul(z, z, p);
    MulCong(x, t, x, z * z, p);
    MulCong(t, z, z * z, z, p);
    MulCong(y, FMul(t, z, p), y, z * z * z, p);
    ApplyTerms(x, y, z);
  }

  lemma ApplyTerms(x: int, y: int, z: int)
    ensures x * (z * z) == x * z * z && y * (z * z * z) == y * z * z * z
  {}

  lemma ApplyInverse(X: int, Y: int, Z: int, w: int, x: int, y: int, p: nat)
    requires p > 0 && Rep(X, Y, Z, x, y, p) && Cong(Z * w, 1, p) && 0 <= x < p && 0 <= y < p
    ensures ApplyZ(X, Y, w, p) == (x, y)
  {
    hide Cong, FMul;
    CongRefl(w, p);
    MulCong(w, w, w, w, p);
    var t := FMul(w, w, p);
    MulCong(X, t, x * Z * Z, w * w, p);
    MulCong(t, w, w * w, w, p);
    MulCong(Y, FMul(t, w, p), y * Z * Z * Z, w * w * w, p);
    var u := Z * w;
    CongMul(u, 1, u, 1, p);
    CongMul(u * u, 1, u, 1, p);
    CongRefl(x, p);
    CongRefl(y, p);
    CongMul(x, x, u * u, 1, p);
    CongMul(y, y, u * u * u, 1, p);
    SquareTerms(x, Z, w);
    UnitTerms(x, y, Z, w);
    CongTrans(FMul(X, t, p), x * (u * u), x, p);
    CongTrans(FMul(Y, FMul(t, w, p), p), y * (u * u * u), y, p);
    CongUnique(FMul(X, t, p), x, p);
    CongUnique(FMul(Y, FMul(t, w, p), p), y, p);
  }

  lemma UnitTerms(x: int, y: int, z: int, w: int)
    ensures x * z * z * (w * w) == x * (z * w * (z * w))
    ensures y * z * z * z * (w * w * w) == y * (z * w * (z * w) * (z * w))
  {
    SquareUnit(x, z, w);
    SquareUnit(y, z, w);
    Interleave(y * z * z, z, w * w, w);
    Associate(y, z * w * (z * w), z * w);
  }

  lemma SquareUnit(x: int, z: int, w: int)
    ensures x * z * z * (w * w) == x * (z * w * (z * w))
  {}

  lemma Interleave(a: int, z: int, b: int, w: int)
    ensures a * z * (b * w) == a * b * (z * w)
  {}
}
