/** ecc_make_key, ecc_valid_public_key and ecdh_shared_secret. */
module Ecdh {
  import opened Arith
  import opened Modular
  import opened Digits
  import opened Field
  import opened Vli
  import opened VliSum
  import opened P256
  import opened CoZ
  import opened Curves
  import opened Scalar
  import opened LadderSteps
  import opened Rungs
  import opened LadderEnds
  import opened Orders
  import opened Ladder
  import opened Joint
  import opened Ecdsa

  /** The bytes of curve_b, least significant first. */
  const CURVE_B: seq<Byte> := [
    0x4b, 0x60, 0xd2, 0x27, 0x3e, 0x3c, 0xce, 0x3b, 0xf6, 0xb0, 0x53, 0xcc, 0xb0, 0x06, 0x1d, 0x65,
    0xbc, 0x86, 0x98, 0x76, 0x55, 0xbd, 0xeb, 0xb3, 0xe7, 0x93, 0x3a, 0xaa, 0xd8, 0x35, 0xc6, 0x5a]

  lemma CoefficientWords()
    ensures |CURVE_B| == DIGITS && WordsOf(CURVE_B) == [0x27d2604b, 0x3bce3c3e, 0xcc53b0f6, 0x651d06b0, 0x769886bc,
            0xb3ebbd55, 0xaa3a93e7, 0x5ac635d8]
  {}

  /** The table holds the coefficient of the curve. */
  lemma CoefficientTable()
    ensures |CURVE_B| == DIGITS && Num(CURVE_B) == SECP256R1.b
  {
    hide Num, WordsOf;
    CoefficientWords();
    NumOfEightWords(CURVE_B);
  }

  /** A multiple of the base point by a factor below the order has the same order. */
  lemma OrderOfMultiple(d: nat)
    requires Standard() && 0 < d < N
    ensures OrderIs(N, Times(d, G, SECP256R1), SECP256R1)
  {
    hide Plus, Standard, GroupLaw, Times, OnCurve, Divides, OrderIs;
    StandardIs();
    var Q := Times(d, G, SECP256R1);
    MultipleIsInfinity(N, d);
    forall j: nat | 0 < j < N ensures Times(j, Q, SECP256R1) != Infinity {
      MultipleIsInfinity(j, d);
    }
    OrderFrom(N, Q, SECP256R1);
  }

  lemma OrderFrom(n: nat, Q: Point, c: Curve)
    requires c.p > 0 && n > 0 && Times(n, Q, c) == Infinity
    requires forall j: nat | 0 < j < n :: Times(j, Q, c) != Infinity
    ensures OrderIs(n, Q, c)
  {
    hide Times;
  }

  lemma MultipleIsInfinity(j: nat, d: nat)
    requires Standard() && 0 < d < N && 0 < j <= N
    ensures Times(j, Times(d, G, SECP256R1), SECP256R1) == Infinity <==> j == N
  {
    hide Plus, Standard, GroupLaw, Times, OnCurve, Divides, OrderIs;
    StandardIs();
    TimesTimes(j, d, G, SECP256R1);
    MulNonnegative(j, d);
    InfinityIff(j * d, N, G, SECP256R1);
    ResidueNonzero(d, N);
    if j == N {
      DividesMultiple(d, N);
      assert d * N == N * d;
    } else {
      ResidueNonzero(j, N);
      NonzeroProduct(j, d, N);
    }
  }

  /** Two parties that multiply each other's public key by their own private key get the same point, and for blinding
      coordinates that are not 0 modulo P their ladders end unless the peer's x-coordinate is 0. */
  lemma SecretsAgree(d: nat, e: nat, y: int, z: int)
    requires Standard() && 2 <= d <= N - 2 && 2 <= e <= N - 2 && !Divides(P, y) && !Divides(P, z)
    ensures var D, E := Times(d, G, SECP256R1), Times(e, G, SECP256R1);
            && D.Affine? && E.Affine? && OnCurve(D, SECP256R1) && OnCurve(E, SECP256R1)
            && (Inverted(d, E.x, E.y, y, P) != 0 <==> E.x != 0)
            && (Inverted(e, D.x, D.y, z, P) != 0 <==> D.x != 0)
            && Times(d, E, SECP256R1) == Times(e, D, SECP256R1) && Times(d, E, SECP256R1).Affine?
  {
    hide Plus, Standard, GroupLaw, Times, OnCurve, OrderIs, Inverted, Divides;
    StandardIs();
    OrderFacts();
    var D, E := Times(d, G, SECP256R1), Times(e, G, SECP256R1);
    NotInfinity(d, N, G, SECP256R1);
    NotInfinity(e, N, G, SECP256R1);
    TimesOnCurve(d, G, SECP256R1);
    TimesOnCurve(e, G, SECP256R1);
    OrderOfMultiple(d);
    OrderOfMultiple(e);
    LadderIff(d, y, E);
    LadderIff(e, z, D);
    TimesTimes(d, e, G, SECP256R1);
    TimesTimes(e, d, G, SECP256R1);
    assert d * e == e * d;
    NotInfinity(d, N, E, SECP256R1);
  }

  /** The private key is the random number modulo the order, the public key its multiple of the base point; the ladder
      ends unless that number is N - 1. */
  method MakeKey(publicKey: EccPoint, privateKey: array<Byte>, random: array<Byte>, t: Tables) returns (ends: bool, ok: int)
    requires t.Valid() && t.Apart(privateKey) && publicKey.Separate() && t.Apart(publicKey.x) && t.Apart(publicKey.y)
    requires random.Length == DIGITS && privateKey != publicKey.x && privateKey != publicKey.y
    requires Standard()
    requires V(random) % N != 1
    modifies privateKey, publicKey.x, publicKey.y
    ensures V(privateKey) == old(V(random)) % N
    ensures ends <==> V(privateKey) != N - 1
    ensures ends ==> ok == if V(privateKey) == 0 then 0 else 1
    ensures ends && ok == 1 ==> publicKey.Value() == Times(V(privateKey), G, SECP256R1)
  {
    hide V, Standard, GroupLaw, OnCurve, Times, NonceX, Inverted;
    StandardIs();
    OrderFacts();
    Set(privateKey, random);
    ReduceN(privateKey, t.n);
    var zero := IsZero(privateKey);
    if zero {
      return true, 0;
    }
    NonceFacts(V(privateKey));
    ends := EccPointMult(publicKey, t.g, privateKey, null, t.p);
    ok := 1;
  }

  /** y^2 = x^3 - 3x + b, as the residues ecc_valid_public_key compares. */
  lemma EquationIs(x: int, y: int, b: int, p: nat)
    requires p > 3
    ensures FMul(y, y, p) == FAdd(FMul(FSub(FMul(x, x, p), 3, p), x, p), b, p) <==> Cong(y * y, x * x * x - 3 * x + b, p)
  {
    hide Cong;
    CongRefl(x, p);
    CongRefl(3, p);
    CongRefl(b, p);
    MulCong(x, x, x, x, p);
    SubCong(FMul(x, x, p), 3, x * x, 3, p);
    MulCong(FSub(FMul(x, x, p), 3, p), x, x * x - 3, x, p);
    assert (x * x - 3) * x == x * x * x - 3 * x;
    var v := FMul(FSub(FMul(x, x, p), 3, p), x, p);
    AddCong(v, b, x * x * x - 3 * x, b, p);
    CongIffMod(v + b, x * x * x - 3 * x + b, p);
    CongIffMod(y * y, x * x * x - 3 * x + b, p);
    ResidueOfSum(v, b, x * x * x - 3 * x + b, p);
  }

  /** A residue congruent to w is w modulo p. */
  lemma ResidueOfSum(v: int, b: int, w: int, p: nat)
    requires p > 0 && Cong(FAdd(v, b, p), w, p)
    ensures FAdd(v, b, p) == w % p
  {
    CongIffMod(FAdd(v, b, p), w, p);
    QuotientIs(FAdd(v, b, p), p, 0, FAdd(v, b, p));
  }

  /** The origin is not on the curve. */
  lemma OriginIsOff()
    ensures !OnCurve(Affine(0, 0), SECP256R1)
  {
    var b := SECP256R1.b;
    CongIs(0, b, P);
    QuotientIs(0 - b, P, -1, P - b);
  }

  lemma OnCurveIs(x: int, y: int, c: Curve)
    ensures c.p > 0 ==> (OnCurve(Affine(x, y), c) <==> 0 <= x < c.p && 0 <= y < c.p && Cong(y * y, x * x * x - 3 * x + c.b, c.p))
  {}

  /** tmp1 = y^2 and tmp2 = x^3 - 3x + b. */
  method Sides(tmp1: array<Byte>, tmp2: array<Byte>, pub: EccPoint, b: array<Byte>, p: array<Byte>)
    requires tmp1.Length == tmp2.Length == b.Length == p.Length == DIGITS && pub.Separate() && V(p) == P && V(b) < P
    requires tmp1 != tmp2 && tmp1 != pub.x && tmp1 != b && tmp1 != p && tmp2 != pub.x && tmp2 != b && tmp2 != p
    modifies tmp1, tmp2
    ensures V(tmp1) == FMul(old(V(pub.y)), old(V(pub.y)), P)
    ensures V(tmp2) == FAdd(FMul(FSub(FMul(V(pub.x), V(pub.x), P), 3, P), V(pub.x), P), V(b), P)
  {
    hide V, FMul, FSub, FAdd;
    var na := new Byte[32];
    Clear(na);
    SetThree(na);
    ModSquareFast(tmp1, pub.y, p);
    ModSquareFast(tmp2, pub.x, p);
    ModSub(tmp2, tmp2, na, p);
    ModMultFast(tmp2, tmp2, pub.x, p);
    ModAdd(tmp2, tmp2, b, p);
  }

  /** Returns 1 exactly for the points of the curve, and 0 for every other pair of numbers. */
  method ValidPublicKey(pub: EccPoint, p: array<Byte>) returns (ok: int)
    requires pub.Separate() && p.Length == DIGITS && V(p) == P
    ensures ok == if OnCurve(pub.Value(), SECP256R1) then 1 else 0
  {
    hide V, OnCurve, FMul, FSub, FAdd, Cong, Num;
    PIsPositive();
    OriginIsOff();
    var zeroX := IsZero(pub.x);
    var zeroY := IsZero(pub.y);
    if zeroX && zeroY {
      return 0;
    }
    OnCurveIs(V(pub.x), V(pub.y), SECP256R1);
    var cx := Cmp(p, pub.x);
    var cy := Cmp(p, pub.y);
    if cx != 1 || cy != 1 {
      return 0;
    }
    CoefficientTable();
    var b := FromBytes(CURVE_B);
    var tmp1, tmp2 := new Byte[32], new Byte[32];
    EquationIs(V(pub.x), V(pub.y), SECP256R1.b, P);
    Sides(tmp1, tmp2, pub, b, p);
    var c := Cmp(tmp1, tmp2);
    if c != 0 {
      return 0;
    }
    return 1;
  }

  /** A cleared number becomes 3, minus the coefficient a. */
  method SetThree(na: array<Byte>)
    requires na.Length == DIGITS && forall k :: 0 <= k < DIGITS ==> na[k] == 0
    modifies na
    ensures V(na) == 3
  {
    na[0] := 3;
    VIs(na);
    assert na[0..DIGITS] == [3] + na[1..DIGITS];
    NumCons(3, na[1..DIGITS]);
    NumZeros(na[1..DIGITS]);
  }

  /** ecdh_shared_secret, which ends exactly if its ladder does.  For a public key on the curve the secret is then the
      x-coordinate of privateKey * publicKey, and it cannot fail. */
  method SharedSecret(secret: array<Byte>, publicKey: EccPoint, privateKey: array<Byte>, random: array?<Byte>,
      p: array<Byte>) returns (ends: bool, ok: int)
    requires publicKey.Separate() && secret.Length == privateKey.Length == p.Length == DIGITS && V(p) == P
    requires random != null ==> random.Length == DIGITS
    requires V(privateKey) >= 2
    modifies secret
    ensures var z := if random == null then 1 else old(V(random));
            ends <==> Inverted(old(V(privateKey)), old(V(publicKey.x)), old(V(publicKey.y)), z, P) != 0
    ensures var S := Times(old(V(privateKey)), old(publicKey.Value()), SECP256R1);
            ends && GroupLaw(SECP256R1) && OnCurve(old(publicKey.Value()), SECP256R1)
            ==> ok == 1 && S.Affine? && V(secret) == S.x
  {
    hide V, GroupLaw, OnCurve, Times, Inverted;
    PIsPositive();
    var product := new EccPoint();
    ghost var k, Q := V(privateKey), publicKey.Value();
    ends := EccPointMult(product, publicKey, privateKey, random, p);
    if !ends {
      return false, 0;
    }
    SecretIsAffine(k, Q);
    var zeroX := IsZero(product.x);
    var zeroY := IsZero(product.y);
    if zeroX && zeroY {
      return true, 0;
    }
    Set(secret, product.x);
    return true, 1;
  }

  lemma SecretIsAffine(k: nat, Q: Point)
    ensures SECP256R1.p > 0
    ensures GroupLaw(SECP256R1) && OnCurve(Q, SECP256R1) ==> Times(k, Q, SECP256R1) != Affine(0, 0)
  {
    hide GroupLaw, OnCurve, Times;
    PIsPositive();
    OriginIsOff();
    if GroupLaw(SECP256R1) && OnCurve(Q, SECP256R1) {
      GroupIsValid(SECP256R1);
      TimesOnCurve(k, Q, SECP256R1);
    }
  }
}
