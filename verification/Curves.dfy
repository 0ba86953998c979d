/** Affine points of y^2 = x^3 - 3x + b over Z_p and their chord-and-tangent addition. */
module Curves {
  import opened Arith
  import opened Modular
  import opened Field
  import opened CoZ

  datatype Curve = Curve(p: nat, b: int)

  datatype Point = Infinity | Affine(x: int, y: int)

  /** The field is Z_p for a prime above 3. */
  ghost predicate ValidCurve(c: Curve) {
    Prime(c.p) && c.p > 3
  }

  ghost predicate OnCurve(P: Point, c: Curve) {
    match P
    case Infinity => true
    case Affine(x, y) => 0 <= x < c.p && 0 <= y < c.p && Cong(y * y, x * x * x - 3 * x + c.b, c.p)
  }

  /** The inverse of a modulo p, or 0 when there is none. */
  ghost function Inv(a: int, p: nat): nat
    requires p > 0
  {
    if exists b: nat :: b < p && IsInverse(a, b, p) then
      var b: nat :| b < p && IsInverse(a, b, p);
      b
    else 0
  }

  lemma InvIs(a: int, p: nat)
    requires Prime(p) && !Divides(p, a)
    ensures IsInverse(a, Inv(a, p), p) && Inv(a, p) < p
  {
    hide Cong, Divides;
    var r := Residue(a, p);
    assert !Divides(p, r) by { ResidueDivides(a, p); }
    PrimeCoprime(p, r);
    var b := CoprimeHasInverse(r, p);
    InverseOfResidue(a, b, p);
    assert b < p && IsInverse(a, b, p);
  }

  lemma ResidueDivides(a: int, p: nat)
    requires p > 0
    ensures Divides(p, Residue(a, p)) <==> Divides(p, a)
  {
    QuotientIs(a % p, p, 0, a % p);
  }

  lemma InverseOfResidue(a: int, b: int, p: nat)
    requires p > 0 && IsInverse(Residue(a, p), b, p)
    ensures IsInverse(a, b, p)
  {
    CongMod(a, p);
    CongRefl(b, p);
    CongMul(a, a % p, b, b, p);
    CongTrans(a * b, a % p * b, 1, p);
  }

  /** A quotient modulo p. */
  ghost function FDiv(n: int, d: int, p: nat): (r: int)
    requires p > 0
    ensures 0 <= r < p
  {
    FMul(n, Inv(d, p), p)
  }

  lemma FDivIs(n: int, d: int, p: nat)
    requires Prime(p) && !Divides(p, d)
    ensures Cong(FDiv(n, d, p) * d, n, p)
  {
    hide Cong, Divides;
    var i := Inv(d, p);
    InvIs(d, p);
    QuotientTimes(n, d, i, p);
  }

  lemma QuotientTimes(n: int, d: int, i: int, p: nat)
    requires p > 0 && Cong(d * i, 1, p)
    ensures Cong(FMul(n, i, p) * d, n, p)
  {
    hide Cong;
    CongRefl(n, p);
    CongRefl(i, p);
    CongRefl(d, p);
    MulCong(n, i, n, i, p);
    CongMul(FMul(n, i, p), n * i, d, d, p);
    CongMul(n, n, d * i, 1, p);
    assert n * i * d == n * (d * i);
    CongTrans(FMul(n, i, p) * d, n * i * d, n, p);
  }

  /** The slope of the line through two affine points, or of the tangent where they meet. */
  ghost function Slope(x1: int, y1: int, x2: int, y2: int, p: nat): (l: int)
    requires p > 0
    ensures 0 <= l < p
  {
    if x1 == x2 then FDiv(3 * (x1 * x1) - 3, 2 * y1, p) else FDiv(y2 - y1, x2 - x1, p)
  }

  /** The point where the line of slope l through (x1, y1) and x2 meets the curve again, reflected. */
  ghost function Third(l: int, x1: int, y1: int, x2: int, p: nat): Point
    requires p > 0
  {
    Affine(ThirdX(l, x1, x2) % p, ThirdY(l, x1, y1, x2) % p)
  }

  ghost function Plus(P: Point, Q: Point, c: Curve): Point
    requires c.p > 0
  {
    match (P, Q)
    case (Infinity, _) => Q
    case (_, Infinity) => P
    case (Affine(x1, y1), Affine(x2, y2)) =>
      if x1 == x2 && FAdd(y1, y2, c.p) == 0 then Infinity
      else Third(Slope(x1, y1, x2, y2, c.p), x1, y1, x2, c.p)
  }

  function Neg(P: Point, c: Curve): Point
    requires c.p > 0
  {
    match P
    case Infinity => Infinity
    case Affine(x, y) => Affine(x, FSub(0, y, c.p))
  }

  lemma OddPrime(p: nat)
    requires Prime(p) && p > 3
    ensures p % 2 == 1 && !Divides(p, 2)
  {
    assert Divides(2, p) <==> p % 2 == 0;
    QuotientIs(2, p, 0, 2);
  }

  /** Distinct residues differ by something invertible. */
  lemma ResiduesDiffer(a: int, b: int, p: nat)
    requires p > 0 && 0 <= a < p && 0 <= b < p && a != b
    ensures !Divides(p, a - b)
  {
    if Divides(p, a - b) {
      CongUnique(a, b, p);
    }
  }

  lemma ChordSlope(x1: int, y1: int, x2: int, y2: int, p: nat)
    requires Prime(p) && 0 <= x1 < p && 0 <= x2 < p && x1 != x2
    ensures Cong(Slope(x1, y1, x2, y2, p) * (x2 - x1), y2 - y1, p)
  {
    hide Cong, Divides, FDiv;
    ResiduesDiffer(x2, x1, p);
    FDivIs(y2 - y1, x2 - x1, p);
  }

  lemma TangentSlope(x: int, y: int, y2: int, p: nat)
    requires Prime(p) && p > 3 && 0 < y < p
    ensures Cong(Slope(x, y, x, y2, p) * (2 * y), 3 * (x * x) - 3, p)
  {
    hide Cong, Divides, FDiv;
    OddPrime(p);
    ResiduesDiffer(y, 0, p);
    if Divides(p, 2 * y) {
      PrimeProduct(p, 2, y);
    }
    FDivIs(3 * (x * x) - 3, 2 * y, p);
  }

  /** x^3 - 3x + b minus the square of the line l x + n. */
  function Residual(x: int, l: int, n: int, b: int): int {
    x * x * x - 3 * x + b - (l * x + n) * (l * x + n)
  }

  /** The linear remainder of the residual by (x - x1)(x - x2)(x - x3), where x3 = l^2 - x1 - x2. */
  function Alpha(x1: int, x2: int, l: int, n: int): int {
    -3 - 2 * l * n - (x1 * x2 + (x1 + x2) * ThirdX(l, x1, x2))
  }

  function Beta(x1: int, x2: int, l: int, n: int, b: int): int {
    b - n * n + x1 * x2 * ThirdX(l, x1, x2)
  }

  /** A monic cubic whose roots sum to s, without its product of roots, is linear. */
  lemma CubicAtRoot(x1: int, x2: int, x3: int, s: int)
    requires s == x1 + x2 + x3
    ensures x1 * x1 * x1 - s * (x1 * x1) + (x1 * x2 + (x1 + x2) * x3) * x1 - x1 * x2 * x3 == 0
  {
    var e := x1 * x2 + (x1 + x2) * x3;
    assert s * (x1 * x1) == x1 * x1 * x1 + x2 * (x1 * x1) + x3 * (x1 * x1);
    CubicTerms(x1, x2, x3);
  }

  lemma CubicTerms(x1: int, x2: int, x3: int)
    ensures (x1 * x2 + (x1 + x2) * x3) * x1 == x2 * (x1 * x1) + x3 * (x1 * x1) + x1 * x2 * x3
  {}

  lemma ExpandResidual(x: int, l: int, n: int, b: int)
    ensures Residual(x, l, n, b) == x * x * x - l * l * (x * x) - (3 + 2 * l * n) * x + b - n * n
  {
    assert (l * x + n) * (l * x + n) == l * x * (l * x) + 2 * (l * x * n) + n * n;
    assert l * x * (l * x) == l * l * (x * x);
    assert 2 * (l * x * n) == 2 * l * n * x;
    Distribute(3, 2 * l * n, x);
  }

  /** At each of the three x-coordinates the residual is its linear remainder. */
  lemma ResidualAtRoot(x1: int, x2: int, x3: int, l: int, n: int, b: int)
    requires x1 + x2 + x3 == l * l
    ensures Residual(x1, l, n, b)
            == (-3 - 2 * l * n - (x1 * x2 + (x1 + x2) * x3)) * x1 + (b - n * n + x1 * x2 * x3)
  {
    ExpandResidual(x1, l, n, b);
    CubicAtRoot(x1, x2, x3, l * l);
    var e := x1 * x2 + (x1 + x2) * x3;
    var h := 3 + 2 * l * n;
    assert (-h - e) * x1 == -(h * x1) - e * x1;
  }

  lemma ResidualAtFirst(x1: int, x2: int, l: int, n: int, b: int)
    ensures Residual(x1, l, n, b) == Alpha(x1, x2, l, n) * x1 + Beta(x1, x2, l, n, b)
  {
    ResidualAtRoot(x1, x2, ThirdX(l, x1, x2), l, n, b);
  }

  lemma ResidualAtSecond(x1: int, x2: int, l: int, n: int, b: int)
    ensures Residual(x2, l, n, b) == Alpha(x1, x2, l, n) * x2 + Beta(x1, x2, l, n, b)
  {
    var x3 := ThirdX(l, x1, x2);
    ResidualAtRoot(x2, x1, x3, l, n, b);
    assert x2 * x1 + (x2 + x1) * x3 == x1 * x2 + (x1 + x2) * x3;
    assert x2 * x1 * x3 == x1 * x2 * x3;
  }

  lemma ResidualAtThird(x1: int, x2: int, l: int, n: int, b: int)
    ensures Residual(ThirdX(l, x1, x2), l, n, b)
            == Alpha(x1, x2, l, n) * ThirdX(l, x1, x2) + Beta(x1, x2, l, n, b)
  {
    var x3 := ThirdX(l, x1, x2);
    ResidualAtRoot(x3, x1, x2, l, n, b);
    SymmetricTerms(x1, x2, x3);
  }

  lemma SymmetricTerms(x1: int, x2: int, x3: int)
    ensures x3 * x1 + (x3 + x1) * x2 == x1 * x2 + (x1 + x2) * x3
    ensures x3 * x1 * x2 == x1 * x2 * x3
  {}

  /** A point of the curve on the line is a zero of the residual. */
  lemma ResidualOfPoint(x: int, y: int, l: int, n: int, c: Curve)
    requires c.p > 0 && Cong(y * y, x * x * x - 3 * x + c.b, c.p) && Cong(l * x + n, y, c.p)
    ensures Cong(Residual(x, l, n, c.b), 0, c.p)
  {
    hide Cong;
    var v := l * x + n;
    CongMul(v, y, v, y, c.p);
    CongTrans(v * v, y * y, x * x * x - 3 * x + c.b, c.p);
    CongSym(v * v, x * x * x - 3 * x + c.b, c.p);
    CongRefl(v * v, c.p);
    CongSub(x * x * x - 3 * x + c.b, v * v, v * v, v * v, c.p);
  }

  /** A linear form a t + b that vanishes at one point and whose slope vanishes is zero everywhere. */
  lemma LinearZero(a: int, b: int, s: int, t: int, p: nat)
    requires p > 0 && Cong(a * s + b, 0, p) && Cong(a, 0, p)
    ensures Cong(a * t + b, 0, p)
  {
    hide Cong;
    CongRefl(t - s, p);
    CongMul(a, 0, t - s, t - s, p);
    CongAdd(a * s + b, 0, a * (t - s), 0 * (t - s), p);
    assert a * t + b == a * s + b + a * (t - s) by { Distribute(s, t - s, a); }
    assert 0 * (t - s) == 0;
  }

  /** The reflected third point is on the curve once the slope of the remainder vanishes. */
  lemma ThirdOnCurve(l: int, x1: int, y1: int, x2: int, c: Curve)
    requires c.p > 0 && Cong(y1 * y1, x1 * x1 * x1 - 3 * x1 + c.b, c.p)
    requires Cong(Alpha(x1, x2, l, y1 - l * x1), 0, c.p)
    ensures OnCurve(Third(l, x1, y1, x2, c.p), c)
  {
    hide Cong, Residual, Alpha, Beta, ThirdX, ThirdY;
    var n := y1 - l * x1;
    CongRefl(y1, c.p);
    ResidualOfPoint(x1, y1, l, n, c);
    ResidualAtFirst(x1, x2, l, n, c.b);
    var x3, y3 := ThirdX(l, x1, x2), ThirdY(l, x1, y1, x2);
    LinearZero(Alpha(x1, x2, l, n), Beta(x1, x2, l, n, c.b), x1, x3, c.p);
    ResidualAtThird(x1, x2, l, n, c.b);
    ThirdSquare(l, x1, y1, x2, c.b);
    CongRefl(y3 * y3, c.p);
    CongAdd(Residual(x3, l, n, c.b), 0, y3 * y3, y3 * y3, c.p);
    CongSym(x3 * x3 * x3 - 3 * x3 + c.b, y3 * y3, c.p);
    ReducedOnCurve(x3, y3, c);
    ThirdIs(l, x1, y1, x2, c.p);
  }

  lemma ThirdIs(l: int, x1: int, y1: int, x2: int, p: nat)
    requires p > 0
    ensures Third(l, x1, y1, x2, p) == Affine(ThirdX(l, x1, x2) % p, ThirdY(l, x1, y1, x2) % p)
  {}

  lemma ThirdSquare(l: int, x1: int, y1: int, x2: int, b: int)
    ensures var x3, y3 := ThirdX(l, x1, x2), ThirdY(l, x1, y1, x2);
            Residual(x3, l, y1 - l * x1, b) + y3 * y3 == x3 * x3 * x3 - 3 * x3 + b
  {
    hide ThirdX;
    var x3, y3 := ThirdX(l, x1, x2), ThirdY(l, x1, y1, x2);
    var v := l * x3 + (y1 - l * x1);
    assert y3 == -v by { assert l * (x1 - x3) == l * x1 - l * x3; }
    assert v * v == y3 * y3;
  }

  lemma ReducedOnCurve(x: int, y: int, c: Curve)
    requires c.p > 0 && Cong(y * y, x * x * x - 3 * x + c.b, c.p)
    ensures OnCurve(Affine(x % c.p, y % c.p), c)
  {
    hide Cong;
    var p := c.p;
    CongMod(x, p);
    CongMod(y, p);
    var u, v := x % p, y % p;
    CongMul(v, y, v, y, p);
    CongMul(x, u, x, u, p);
    CongMul(x * x, u * u, x, u, p);
    CongRefl(3, p);
    CongMul(3, 3, x, u, p);
    CongRefl(c.b, p);
    CongSub(x * x * x, u * u * u, 3 * x, 3 * u, p);
    CongAdd(x * x * x - 3 * x, u * u * u - 3 * u, c.b, c.b, p);
    CongTrans(v * v, y * y, x * x * x - 3 * x + c.b, p);
    CongTrans(v * v, x * x * x - 3 * x + c.b, u * u * u - 3 * u + c.b, p);
  }

  /** For a chord the remainder vanishes at two places, so its slope does. */
  lemma ChordAlpha(x1: int, y1: int, x2: int, y2: int, l: int, c: Curve)
    requires ValidCurve(c) && OnCurve(Affine(x1, y1), c) && OnCurve(Affine(x2, y2), c) && x1 != x2
    requires Cong(l * (x2 - x1), y2 - y1, c.p)
    ensures Cong(Alpha(x1, x2, l, y1 - l * x1), 0, c.p)
  {
    hide Cong, Residual, Alpha, Beta, Divides;
    var n, p := y1 - l * x1, c.p;
    var a, b := Alpha(x1, x2, l, n), Beta(x1, x2, l, n, c.b);
    CongRefl(y1, p);
    ResidualOfPoint(x1, y1, l, n, c);
    CongAdd(l * (x2 - x1), y2 - y1, y1, y1, p);
    assert l * x2 + n == l * (x2 - x1) + y1 by { Distribute(x2, -x1, l); }
    ResidualOfPoint(x2, y2, l, n, c);
    ResidualAtFirst(x1, x2, l, n, c.b);
    ResidualAtSecond(x1, x2, l, n, c.b);
    CongSub(a * x2 + b, 0, a * x1 + b, 0, p);
    assert a * x2 + b - (a * x1 + b) == a * (x2 - x1) by { Distribute(x2, -x1, a); }
    ResiduesDiffer(x2, x1, p);
    ZeroProduct(a, x2 - x1, p);
  }

  lemma ZeroProduct(a: int, d: int, p: nat)
    requires Prime(p) && Cong(a * d, 0, p) && !Divides(p, d)
    ensures Cong(a, 0, p)
  {
    var i := Inv(d, p);
    InvIs(d, p);
    hide Cong;
    assert d * a == a * d && d * 0 == 0;
    Cancel(d, i, a, 0, p);
  }

  /** For a tangent the remainder has a double root. */
  lemma TangentAlpha(x: int, y: int, l: int, p: nat)
    requires p > 0 && Cong(l * (2 * y), 3 * (x * x) - 3, p)
    ensures Cong(Alpha(x, x, l, y - l * x), 0, p)
  {
    hide Cong, Alpha;
    CongRefl(l * (2 * y), p);
    CongSym(l * (2 * y), 3 * (x * x) - 3, p);
    CongSub(3 * (x * x) - 3, l * (2 * y), l * (2 * y), l * (2 * y), p);
    TangentRoot(x, y, l);
  }

  lemma TangentRoot(x: int, y: int, l: int)
    ensures Alpha(x, x, l, y - l * x) == 3 * (x * x) - 3 - l * (2 * y)
  {
    var x3 := l * l - x - x;
    assert (x + x) * x3 == 2 * (x * (l * l)) - 4 * (x * x) by { Distribute(l * l, -x - x, x + x); }
    assert 2 * l * (y - l * x) == l * (2 * y) - 2 * (x * (l * l));
  }

  /** Two curve points with one x-coordinate are equal or opposite. */
  lemma SameX(x: int, y1: int, y2: int, c: Curve)
    requires ValidCurve(c) && OnCurve(Affine(x, y1), c) && OnCurve(Affine(x, y2), c)
    ensures y1 == y2 || FAdd(y1, y2, c.p) == 0
  {
    var p := c.p;
    var v := x * x * x - 3 * x + c.b;
    CongSym(y2 * y2, v, p);
    CongTrans(y1 * y1, v, y2 * y2, p);
    assert y1 * y1 - y2 * y2 == (y1 - y2) * (y1 + y2);
    if y1 != y2 {
      ResiduesDiffer(y1, y2, p);
      assert (y1 + y2) * (y1 - y2) == (y1 - y2) * (y1 + y2);
      CongIs(y1 * y1, y2 * y2, p);
      CongZero((y1 + y2) * (y1 - y2), p);
      ZeroProduct(y1 + y2, y1 - y2, p);
      CongZero(y1 + y2, p);
    }
  }

  /** Curve points are closed under addition. */
  lemma AddOnCurve(P: Point, Q: Point, c: Curve)
    requires ValidCurve(c) && OnCurve(P, c) && OnCurve(Q, c)
    ensures OnCurve(Plus(P, Q, c), c)
  {
    hide Cong, Slope, Alpha, Third, FAdd;
    if P.Affine? && Q.Affine? {
      var Affine(x1, y1) := P;
      var Affine(x2, y2) := Q;
      var l := Slope(x1, y1, x2, y2, c.p);
      if x1 != x2 {
        ChordSlope(x1, y1, x2, y2, c.p);
        ChordAlpha(x1, y1, x2, y2, l, c);
        ThirdOnCurve(l, x1, y1, x2, c);
      } else if FAdd(y1, y2, c.p) != 0 {
        SameX(x1, y1, y2, c);
        NotOpposite(y1, c.p);
        TangentSlope(x1, y1, y2, c.p);
        TangentAlpha(x1, y1, l, c.p);
        ThirdOnCurve(l, x1, y1, x2, c);
      }
    }
  }

  lemma NotOpposite(y: int, p: nat)
    requires p > 0 && 0 <= y < p && FAdd(y, y, p) != 0
    ensures 0 < y
  {
    if y == 0 {
      QuotientIs(0, p, 0, 0);
    }
  }

  lemma NegOnCurve(P: Point, c: Curve)
    requires c.p > 0 && OnCurve(P, c)
    ensures OnCurve(Neg(P, c), c)
  {
    if P.Affine? {
      var Affine(x, y) := P;
      assert (-y) * (-y) == y * y;
      ReducedOnCurve(x, -y, c);
      QuotientIs(x, c.p, 0, x);
    }
  }

  lemma AddNeg(P: Point, c: Curve)
    requires c.p > 0 && OnCurve(P, c)
    ensures Plus(P, Neg(P, c), c) == Infinity
  {
    if P.Affine? {
      var y := P.y;
      if y == 0 {
        QuotientIs(0, c.p, 0, 0);
      } else {
        QuotientIs(-y, c.p, -1, c.p - y);
        QuotientIs(c.p, c.p, 1, 0);
      }
    }
  }

  lemma AddCommutes(P: Point, Q: Point, c: Curve)
    requires ValidCurve(c) && OnCurve(P, c) && OnCurve(Q, c)
    ensures Plus(P, Q, c) == Plus(Q, P, c)
  {
    hide Cong, Slope, Third, ThirdX, ThirdY;
    if P.Affine? && Q.Affine? {
      var Affine(x1, y1) := P;
      var Affine(x2, y2) := Q;
      if x1 != x2 {
        ThirdCommutes(x1, y1, x2, y2, c.p);
      } else if FAdd(y1, y2, c.p) != 0 {
        SameX(x1, y1, y2, c);
      }
    }
  }

  lemma ThirdCommutes(x1: int, y1: int, x2: int, y2: int, p: nat)
    requires Prime(p) && 0 <= x1 < p && 0 <= x2 < p && x1 != x2
    ensures Third(Slope(x1, y1, x2, y2, p), x1, y1, x2, p) == Third(Slope(x2, y2, x1, y1, p), x2, y2, x1, p)
  {
    hide Cong, Slope, Divides;
    var l, k := Slope(x1, y1, x2, y2, p), Slope(x2, y2, x1, y1, p);
    ChordSlope(x1, y1, x2, y2, p);
    ChordSlope(x2, y2, x1, y1, p);
    CongRefl(0, p);
    CongSub(0, 0, k * (x1 - x2), y1 - y2, p);
    assert 0 - k * (x1 - x2) == k * (x2 - x1);
    CongSym(k * (x2 - x1), y2 - y1, p);
    CongTrans(l * (x2 - x1), y2 - y1, k * (x2 - x1), p);
    CongSub(l * (x2 - x1), k * (x2 - x1), k * (x2 - x1), k * (x2 - x1), p) by { CongRefl(k * (x2 - x1), p); }
    assert l * (x2 - x1) - k * (x2 - x1) == (l - k) * (x2 - x1);
    ResiduesDiffer(x2, x1, p);
    ZeroProduct(l - k, x2 - x1, p);
    CongIsDifference(l, k, p);
    CongUnique(l, k, p);
    ThirdYCommutes(l, x1, y1, x2, y2, p);
  }

  lemma CongIsDifference(a: int, b: int, p: nat)
    requires p > 0 && Cong(a - b, 0, p)
    ensures Cong(a, b, p)
  {
    CongZero(a - b, p);
    CongIs(a, b, p);
  }

  lemma ThirdYCommutes(l: int, x1: int, y1: int, x2: int, y2: int, p: nat)
    requires p > 0 && Cong(l * (x2 - x1), y2 - y1, p)
    ensures Third(l, x1, y1, x2, p) == Third(l, x2, y2, x1, p)
  {
    hide Cong;
    var x3 := ThirdX(l, x1, x2);
    var d := y2 - y1 - l * (x2 - x1);
    assert ThirdY(l, x1, y1, x2) - ThirdY(l, x2, y2, x1) == d by {
      assert l * (x1 - x3) - l * (x2 - x3) == -(l * (x2 - x1));
    }
    CongSym(l * (x2 - x1), y2 - y1, p);
    CongRefl(l * (x2 - x1), p);
    CongSub(y2 - y1, l * (x2 - x1), l * (x2 - x1), l * (x2 - x1), p);
    CongIsDifference(ThirdY(l, x1, y1, x2), ThirdY(l, x2, y2, x1), p);
    CongIffMod(ThirdY(l, x1, y1, x2), ThirdY(l, x2, y2, x1), p);
  }
}
