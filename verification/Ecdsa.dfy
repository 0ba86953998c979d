/** ecdsa_sign and ecdsa_verify. */
module Ecdsa {
  import opened Arith
  import opened Modular
  import opened Digits
  import opened Bits
  import opened Field
  import opened Vli
  import opened VliSum
  import opened VliInverse
  import opened VliModMult
  import opened P256
  import opened CoZ
  import opened Curves
  import opened Scalar
  import opened LadderSteps
  import opened Rungs
  import opened Orders
  import opened Points
  import opened Ladder
  import opened Joint
  import opened JointRounds
  import opened JointFactors

  /** The bytes of curve_p, curve_n and curve_G, least significant first. */
  const CURVE_P: seq<Byte> := [
    0xff, 0xff, 0xff, 0xff, 0xff, 0xff, 0xff, 0xff, 0xff, 0xff, 0xff, 0xff, 0x00, 0x00, 0x00, 0x00,
    0x00, 0x00, 0x00, 0x00, 0x00, 0x00, 0x00, 0x00, 0x01, 0x00, 0x00, 0x00, 0xff, 0xff, 0xff, 0xff]

  const CURVE_N: seq<Byte> := [
    0x51, 0x25, 0x63, 0xfc, 0xc2, 0xca, 0xb9, 0xf3, 0x84, 0x9e, 0x17, 0xa7, 0xad, 0xfa, 0xe6, 0xbc,
    0xff, 0xff, 0xff, 0xff, 0xff, 0xff, 0xff, 0xff, 0x00, 0x00, 0x00, 0x00, 0xff, 0xff, 0xff, 0xff]

  const CURVE_GX: seq<Byte> := [
    0x96, 0xc2, 0x98, 0xd8, 0x45, 0x39, 0xa1, 0xf4, 0xa0, 0x33, 0xeb, 0x2d, 0x81, 0x7d, 0x03, 0x77,
    0xf2, 0x40, 0xa4, 0x63, 0xe5, 0xe6, 0xbc, 0xf8, 0x47, 0x42, 0x2c, 0xe1, 0xf2, 0xd1, 0x17, 0x6b]

  const CURVE_GY: seq<Byte> := [
    0xf5, 0x51, 0xbf, 0x37, 0x68, 0x40, 0xb6, 0xcb, 0xce, 0x5e, 0x31, 0x6b, 0x57, 0x33, 0xce, 0x2b,
    0x16, 0x9e, 0x0f, 0x7c, 0x4a, 0xeb, 0xe7, 0x8e, 0x9b, 0x7f, 0x1a, 0xfe, 0xe2, 0x42, 0xe3, 0x4f]

  /** The tables hold the field prime, the order and the base point. */
  lemma TablesAre()
    ensures |CURVE_P| == |CURVE_N| == |CURVE_GX| == |CURVE_GY| == DIGITS
    ensures Num(CURVE_P) == P && Num(CURVE_N) == N && Affine(Num(CURVE_GX), Num(CURVE_GY)) == G
  {
    PrimeTable();
    OrderTable();
    BaseXTable();
    BaseYTable();
  }

  lemma PrimeWords()
    ensures |CURVE_P| == DIGITS && WordsOf(CURVE_P) == [0xffffffff, 0xffffffff, 0xffffffff, 0x00000000, 0x00000000,
            0x00000000, 0x00000001, 0xffffffff]
  {}

  lemma PrimeTable()
    ensures |CURVE_P| == DIGITS && Num(CURVE_P) == P
  {
    hide Num, WordsOf;
    PrimeWords();
    NumOfEightWords(CURVE_P);
  }

  lemma OrderWords()
    ensures |CURVE_N| == DIGITS && WordsOf(CURVE_N) == [0xfc632551, 0xf3b9cac2, 0xa7179e84, 0xbce6faad, 0xffffffff,
            0xffffffff, 0x00000000, 0xffffffff]
  {}

  lemma OrderTable()
    ensures |CURVE_N| == DIGITS && Num(CURVE_N) == N
  {
    hide Num, WordsOf;
    OrderWords();
    NumOfEightWords(CURVE_N);
  }

  lemma BaseXWords()
    ensures |CURVE_GX| == DIGITS && WordsOf(CURVE_GX) == [0xd898c296, 0xf4a13945, 0x2deb33a0, 0x77037d81, 0x63a440f2,
            0xf8bce6e5, 0xe12c4247, 0x6b17d1f2]
  {}

  lemma BaseXTable()
    ensures |CURVE_GX| == DIGITS && Num(CURVE_GX) == G.x
  {
    hide Num, WordsOf;
    BaseXWords();
    NumOfEightWords(CURVE_GX);
  }

  lemma BaseYWords()
    ensures |CURVE_GY| == DIGITS && WordsOf(CURVE_GY) == [0x37bf51f5, 0xcbb64068, 0x6b315ece, 0x2bce3357, 0x7c0f9e16,
            0x8ee7eb4a, 0xfe1a7f9b, 0x4fe342e2]
  {}

  lemma BaseYTable()
    ensures |CURVE_GY| == DIGITS && Num(CURVE_GY) == G.y
  {
    hide Num, WordsOf;
    BaseYWords();
    NumOfEightWords(CURVE_GY);
  }

  /** A table in memory. */
  method FromBytes(s: seq<Byte>) returns (a: array<Byte>)
    requires |s| == DIGITS
    ensures fresh(a) && a.Length == DIGITS && V(a) == Num(s)
  {
    hide Num;
    a := new Byte[32];
    for i := 0 to 32
      invariant forall k :: 0 <= k < i ==> a[k] == s[k]
    {
      a[i] := s[i];
    }
    VIs(a);
    assert a[0..0 + DIGITS] == s;
  }

  /** The static tables curve_p, curve_n and curve_G. */
  class Tables {
    const p: array<Byte>
    const n: array<Byte>
    const g: EccPoint

    constructor ()
      ensures Valid() && fresh(p) && fresh(n) && fresh(g.x) && fresh(g.y)
    {
      hide V, Num;
      TablesAre();
      var prime := FromBytes(CURVE_P);
      var order := FromBytes(CURVE_N);
      var x := FromBytes(CURVE_GX);
      var y := FromBytes(CURVE_GY);
      p := prime;
      n := order;
      g := new EccPoint.Of(x, y);
    }

    ghost predicate Valid()
      reads p, n, g.x, g.y
    {
      && p.Length == DIGITS && n.Length == DIGITS && g.Separate() && V(p) == P && V(n) == N && g.Value() == G
      && p != n && p != g.x && p != g.y && n != g.x && n != g.y
    }

    /** An array that is none of the tables. */
    ghost predicate Apart(a: array<Byte>) {
      a.Length == DIGITS && a != p && a != n && a != g.x && a != g.y
    }
  }

  /** One conditional subtraction of the order reduces any 256-bit number. */
  method ReduceN(a: array<Byte>, n: array<Byte>)
    requires a.Length == n.Length == DIGITS && a != n && V(n) == N
    modifies a
    ensures V(a) == old(V(a)) % N
  {
    hide V;
    OrderFacts();
    var c := Cmp(n, a);
    if c != 1 {
      QuotientIs(V(a), N, 1, V(a) - N);
      var _ := Sub(a, a, n);
    } else {
      QuotientIs(V(a), N, 0, V(a));
    }
  }

  /** a number that is invertible modulo the order, inverted. */
  method InvertModN(result: array<Byte>, input: array<Byte>, n: array<Byte>)
    requires result.Length == input.Length == n.Length == DIGITS && result != n && V(n) == N && Prime(N)
    requires 0 < V(input) < N
    modifies result
    ensures V(result) < N && Cong(V(result) * old(V(input)), 1, N)
  {
    hide V, Cong, Divides;
    OrderFacts();
    ResidueNonzero(V(input), N);
    ghost var x := V(input);
    ghost var g := ModInv(result, input, n);
    PrimeInverse(g, x, N);
  }

  /** The sum e + r d, reduced enough: e need not be below the order. */
  lemma HashSum(e: nat, x: nat, v: nat, r: nat, d: nat)
    requires e < RADIX && x == r * d % N && v == if e + x < N then e + x else e + x - N
    ensures Cong(v, e + r * d, N)
  {
    hide Cong;
    CongMod(r * d, N);
    CongRefl(e, N);
    CongAdd(e, e, x, r * d, N);
    if e + x < N {
      CongRefl(e + x, N);
    } else {
      CongFrom(v, e + x, -1, N);
    }
    CongTrans(v, e + x, e + r * d, N);
  }

  /** s = (e + r d) / k. */
  lemma SignatureEquation(s: nat, v: nat, i: nat, k: nat, e: nat, rd: int, n: nat)
    requires n > 0 && s == v * i % n && Cong(i * k, 1, n) && Cong(v, e + rd, n)
    ensures s < n && Cong(s * k, e + rd, n)
  {
    hide Cong;
    CongMod(v * i, n);
    CongRefl(k, n);
    CongRefl(v, n);
    CongMul(s, v * i, k, k, n);
    CongMul(v, v, i * k, 1, n);
    assert v * i * k == v * (i * k);
    CongTrans(s * k, v * i * k, v, n);
    CongTrans(s * k, v, e + rd, n);
  }

  /** s = (hash + r * privateKey) / k. */
  method SignScalar(r: array<Byte>, s: array<Byte>, privateKey: array<Byte>, hash: array<Byte>, k: array<Byte>, n: array<Byte>)
    requires r.Length == s.Length == privateKey.Length == hash.Length == k.Length == n.Length == DIGITS
    requires s != r && s != privateKey && s != hash && s != k && s != n && k != n && k != r && k != privateKey && k != hash
    requires V(n) == N && Prime(N) && 0 < V(k) < N
    modifies s, k
    ensures V(s) < N && Cong(V(s) * old(V(k)), V(hash) + V(r) * V(privateKey), N)
  {
    hide V, Cong;
    OrderFacts();
    ghost var k0 := V(k);
    ModMult(s, r, privateKey, n);
    ghost var x := V(s);
    ModAdd(s, hash, s, n);
    ghost var v := V(s);
    HashSum(V(hash), x, v, V(r), V(privateKey));
    InvertModN(k, k, n);
    ghost var i := V(k);
    ModMult(s, s, k, n);
    SignatureEquation(V(s), v, i, k0, V(hash), V(r) * V(privateKey), N);
  }

  /** The x-coordinate of k G, or 0 when that is infinity. */
  ghost function NonceX(k: nat): int {
    var R := Times(k, G, SECP256R1);
    if R.Affine? then R.x else 0
  }

  /** The sum that is divided by the nonce is 0 modulo the order, so that s is 0: a condition on hash, key and nonce. */
  ghost predicate SumVanishes(e: nat, d: nat, k: nat) {
    Divides(N, SignedSum(e, d, NonceX(k) % N))
  }

  /** The factors that verification computes for the signature of hash e with key d and nonce k, where s is not 0. */
  ghost function SignerG(e: nat, d: nat, k: nat): nat { FDiv(e * k, SignedSum(e, d, NonceX(k) % N), N) }

  ghost function SignerQ(e: nat, d: nat, k: nat): nat { FDiv(NonceX(k) % N * k, SignedSum(e, d, NonceX(k) % N), N) }

  lemma SignedMeans(e: nat, d: nat, k: nat, r: nat, s: nat)
    requires Standard() && Signed(e, d, k, r, s) && 0 < k < N
    ensures 0 < r < N && s < N && r == NonceX(k) % N && (s == 0 <==> SumVanishes(e, d, k))
    ensures s != 0 ==> FactorG(e, s) == SignerG(e, d, k) && FactorQ(r, s) == SignerQ(e, d, k)
  {
    hide Times, Cong, Standard, FDiv, Divides, SignedSum;
    ZeroIff(e, d, k, r, s);
    if s != 0 {
      FactorsOfSigned(e, d, k, r, s);
    }
  }

  /** The ladder on the base point ends for every scalar below the order but the last. */
  lemma NonceFacts(k: nat)
    requires Standard() && 2 <= k < N
    ensures Inverted(k, G.x, G.y, 1, P) != 0 <==> k != N - 1
    ensures Times(k, G, SECP256R1).Affine? && NonceX(k) == Times(k, G, SECP256R1).x < P
  {
    hide Times, Plus, GroupLaw, Standard, OnCurve, Divides, OrderIs, Inverted;
    StandardIs();
    OrderFacts();
    OneNonzero();
    LadderIff(k, 1, G);
    NotInfinity(k, N, G, SECP256R1);
    TimesOnCurve(k, G, SECP256R1);
    Residues(Times(k, G, SECP256R1), SECP256R1);
  }

  lemma OneNonzero()
    ensures !Divides(P, 1)
  {}

  lemma SignedIs(e: nat, d: nat, k: nat, r: nat, s: nat)
    requires Times(k, G, SECP256R1).Affine? && 0 < r == NonceX(k) % N && s < N && Cong(s * k, e + r * d, N)
    ensures Signed(e, d, k, r, s)
  {
    hide Times, Cong;
  }

  /** r = x(k G) mod n. */
  method SignPoint(r: array<Byte>, k: array<Byte>, t: Tables) returns (ends: bool)
    requires t.Valid() && t.Apart(r) && t.Apart(k) && r != k
    requires Standard() && 2 <= V(k) < N
    modifies r
    ensures ends <==> V(k) != N - 1
    ensures ends ==> V(r) == NonceX(V(k)) % N
  {
    hide V, Standard, GroupLaw, OnCurve, Times, NonceX, Inverted;
    StandardIs();
    OrderFacts();
    NonceFacts(V(k));
    var p := new EccPoint();
    ends := EccPointMult(p, t.g, k, null, t.p);
    if !ends {
      return false;
    }
    Set(r, p.x);
    ReduceN(r, t.n);
  }

  /** Ends unless the random number reduces to N - 1; returns 1 with the signature (r, s), or 0 when the random number
      is 0 or r is. */
  method Sign(r: array<Byte>, s: array<Byte>, privateKey: array<Byte>, random: array<Byte>, hash: array<Byte>,
      t: Tables) returns (ends: bool, ok: int)
    requires t.Valid() && t.Apart(r) && t.Apart(s) && r != s
    requires privateKey.Length == random.Length == hash.Length == DIGITS
    requires r != privateKey && r != hash && s != privateKey && s != hash && r != random && s != random
    requires Standard()
    requires V(random) != 0 ==> 2 <= V(random) % N
    modifies r, s
    ensures ends <==> V(random) == 0 || V(random) % N != N - 1
    ensures ok == 0 || ok == 1
    ensures ok == 1 ==> Signed(V(hash), V(privateKey), V(random) % N, V(r), V(s)) && V(r) == NonceX(V(random) % N) % N
    ensures ok == 1 ==> (V(s) == 0 <==> SumVanishes(V(hash), V(privateKey), V(random) % N))
    ensures ends ==> (ok == 0 <==> V(random) == 0 || NonceX(V(random) % N) % N == 0)
  {
    hide V, Standard, GroupLaw, OnCurve, Times, NonceX, Signed, Cong, SumVanishes;
    StandardIs();
    OrderFacts();
    var zero := IsZero(random);
    if zero {
      return true, 0;
    }
    var k := new Byte[32];
    Set(k, random);
    ReduceN(k, t.n);
    ghost var k0 := V(k);
    NonceFacts(k0);
    ends := SignPoint(r, k, t);
    if !ends {
      return false, 0;
    }
    zero := IsZero(r);
    if zero {
      return true, 0;
    }
    SignScalar(r, s, privateKey, hash, k, t.n);
    SignedIs(V(hash), V(privateKey), k0, V(r), V(s));
    SignedMeans(V(hash), V(privateKey), k0, V(r), V(s));
    return true, 1;
  }

  /** The registers rx, ry, z of ecdsa_verify and its scratch arrays. */
  ghost predicate Scratch(rx: array<Byte>, ry: array<Byte>, z: array<Byte>, tx: array<Byte>, ty: array<Byte>,
      tz: array<Byte>, p: array<Byte>) {
    && rx.Length == ry.Length == z.Length == tx.Length == ty.Length == tz.Length == p.Length == DIGITS
    && rx != ry && rx != z && rx != tx && rx != ty && rx != tz && ry != z && ry != tx && ry != ty && ry != tz
    && z != tx && z != ty && z != tz && tx != ty && tx != tz && ty != tz
    && p != rx && p != ry && p != z && p != tx && p != ty && p != tz
  }

  /** The registers as Jacobian coordinates. */
  ghost function JacobianIn(rx: array<Byte>, ry: array<Byte>, z: array<Byte>): Jacobian
    requires rx.Length == ry.Length == z.Length == DIGITS
    reads rx, ry, z
  {
    Jacobian(V(rx), V(ry), V(z))
  }

  /** Doubles, then adds the selected table entry if there is one. */
  method ShamirStep(rx: array<Byte>, ry: array<Byte>, z: array<Byte>, tx: array<Byte>, ty: array<Byte>, tz: array<Byte>,
      p: array<Byte>, point: EccPoint?, ghost S: Point)
    requires Scratch(rx, ry, z, tx, ty, tz, p) && V(p) == P && Reduced(JacobianIn(rx, ry, z), P)
    requires point == null <==> S == Infinity
    requires point != null ==> point.Separate() && point.Value() == S
    requires point != null ==> point.x !in {rx, ry, z, tx, ty, tz} && point.y !in {rx, ry, z, tx, ty, tz}
    modifies rx, ry, z, tx, ty, tz
    ensures Reduced(JacobianIn(rx, ry, z), P) && JacobianIn(rx, ry, z) == ShamirRound(old(JacobianIn(rx, ry, z)), S, P)
  {
    hide V, CoZAdd, FMul, FSub, Double, ApplyZ;
    DoubleJacobian(rx, ry, z, p);
    if point != null {
      Set(tx, point.x);
      Set(ty, point.y);
      ApplyZInPlace(tx, ty, z, p);
      ModSub(tz, rx, tx, p);
      XYcZAdd(tx, ty, rx, ry, p);
      ModMultFast(z, z, tz, p);
    }
  }

  /** The inverse of a coordinate that is not 0, when the modulus is prime. */
  method InvertModP(z: array<Byte>, p: array<Byte>) returns (ends: bool)
    requires z.Length == p.Length == DIGITS && z != p && V(p) == P && Prime(P)
    modifies z
    ensures ends <==> old(V(z)) != 0
    ensures ends && !Divides(P, old(V(z))) ==> Cong(old(V(z)) * V(z), 1, P)
  {
    hide V, Cong, Divides, IsGcd;
    ghost var x := V(z);
    ghost var g;
    ends, g := ModInvEnds(z, z, p);
    if ends && !Divides(P, x) {
      PrimeInverse(g, x, P);
      assert V(z) * x == x * V(z);
    }
  }

  lemma PrimeP()
    requires Standard()
    ensures Prime(P)
  {
    hide Prime;
  }

  lemma InverseOfDifference(a: int, b: int, i: int)
    requires Cong(FSub(a, b, P) * i, 1, P)
    ensures Cong(1 * (a - b) * i, 1, P)
  {
    hide Cong;
    CongMod(a - b, P);
    CongRefl(i, P);
    CongMul(a - b, FSub(a, b, P), i, i, P);
    assert 1 * (a - b) * i == (a - b) * i;
    CongTrans((a - b) * i, FSub(a, b, P) * i, 1, P);
  }

  lemma AffineIsRep(Q: Point)
    requires Q.Affine? && SECP256R1.p > 0
    ensures RepPoint(Q.x, Q.y, 1, Q, SECP256R1)
  {
    CongRefl(Q.x, P);
    CongRefl(Q.y, P);
  }

  /** G + Q under the coordinate Q.x - G.x. */
  lemma SumWithG(Q: Point)
    requires Standard() && OnCurve(Q, SECP256R1) && Q.Affine?
    ensures 0 <= G.x < P && 0 <= G.y < P && 0 <= Q.x < P && 0 <= Q.y < P
    ensures FSub(Q.x, G.x, P) != 0 <==> Q.x != G.x
    ensures var r := CoZAdd(G.x, G.y, Q.x, Q.y, P);
            Q.x != G.x ==> RepPoint(r.x2, r.y2, 1 * (Q.x - G.x), Plus(G, Q, SECP256R1), SECP256R1)
                           && !Divides(P, FSub(Q.x, G.x, P))
    ensures OnCurve(Plus(G, Q, SECP256R1), SECP256R1)
  {
    hide GroupLaw, OnCurve, CoZAdd, Divides, RepPoint, Plus, Standard, FSub, G;
    StandardIs();
    OrderFacts();
    Residues(G, SECP256R1);
    Residues(Q, SECP256R1);
    AddOnCurve(G, Q, SECP256R1);
    if Q.x == G.x {
      SelfDifference(Q.x, P);
    } else {
      AffineIsRep(G);
      AffineIsRep(Q);
      OneNonzero();
      CoZAddPoints(G.x, G.y, Q.x, Q.y, 1, G, Q, SECP256R1);
      RepDistinct(G.x, Q.x, G.y, Q.y, 1, G, Q, SECP256R1);
      DifferenceNonzero(Q.x, G.x);
    }
  }

  lemma DifferenceNonzero(a: int, b: int)
    requires !Divides(P, a - b)
    ensures !Divides(P, FSub(a, b, P)) && FSub(a, b, P) != 0
  {
    QuotientIs((a - b) % P, P, 0, (a - b) % P);
  }

  /** l_sum = G + Q in affine form; the inversion ends unless Q has the x-coordinate of G. */
  method SumPoint(sum: EccPoint, pub: EccPoint, tx: array<Byte>, ty: array<Byte>, z: array<Byte>, t: Tables, ghost Q: Point)
    returns (ends: bool)
    requires t.Valid() && sum.Separate() && pub.Separate() && tx.Length == ty.Length == z.Length == DIGITS
    requires tx != ty && tx != z && ty != z && tx != sum.x && tx != sum.y && ty != sum.x && ty != sum.y && z != sum.x
             && z != sum.y
    requires t.Apart(sum.x) && t.Apart(sum.y) && t.Apart(tx) && t.Apart(ty) && t.Apart(z)
    requires pub.x !in {tx, ty, z} && pub.y !in {tx, ty, z, sum.x}
    requires Standard() && Q == pub.Value() && OnCurve(Q, SECP256R1)
    modifies sum.x, sum.y, tx, ty, z
    ensures Q.Affine? && (ends <==> Q.x != G.x)
    ensures ends ==> sum.Value() == Plus(G, Q, SECP256R1) && OnCurve(sum.Value(), SECP256R1)
  {
    hide V, GroupLaw, OnCurve, CoZAdd, Divides, RepPoint, Plus, Standard, FMul, FSub, Cong, G, Prime;
    PrimeP();
    SumWithG(Q);
    Set(sum.x, pub.x);
    Set(sum.y, pub.y);
    Set(tx, t.g.x);
    Set(ty, t.g.y);
    ModSub(z, sum.x, tx, t.p);
    XYcZAdd(tx, ty, sum.x, sum.y, t.p);
    ends := InvertModP(z, t.p);
    if !ends {
      return false;
    }
    InverseOfDifference(Q.x, G.x, V(z));
    Normalise(sum.x, sum.y, z, t.p, 1 * (Q.x - G.x), Plus(G, Q, SECP256R1));
  }

  /** The table entry for one bit of u1 and one of u2. */
  method Select(u1: array<Byte>, u2: array<Byte>, i: nat, points: seq<EccPoint?>, ghost Q: Point) returns (point: EccPoint?)
    requires u1.Length == u2.Length == DIGITS && i < 8 * DIGITS && |points| == 4 && points[0] == null
    requires points[1] != null && points[2] != null && points[3] != null
    requires points[1].Separate() && points[2].Separate() && points[3].Separate()
    requires points[1].Value() == G && points[2].Value() == Q && points[3].Value() == Plus(G, Q, SECP256R1)
    ensures point in points
    ensures point == null <==> Selected(Bit(V(u1), i), Bit(V(u2), i), Q) == Infinity
    ensures point != null ==> point.Separate() && point.Value() == Selected(Bit(V(u1), i), Bit(V(u2), i), Q)
  {
    hide V, Plus, Bit;
    var b1 := TestBit(u1, i);
    var b2 := TestBit(u2, i);
    var index := Or(if b1 != 0 then 1 else 0, if b2 != 0 then 2 else 0);
    SmallOr();
    point := points[index];
  }

  lemma SmallOr()
    ensures Or(0, 0) == 0 && Or(1, 0) == 1 && Or(0, 2) == 2 && Or(1, 2) == 3
  {}

  /** The table {NULL, G, Q, G + Q}, apart from the registers. */
  ghost predicate Table(points: seq<EccPoint?>, scratch: set<array<Byte>>)
  {
    && |points| == 4 && points[0] == null && points[1] != null && points[2] != null && points[3] != null
    && points[1].Separate() && points[2].Separate() && points[3].Separate()
    && forall q :: q in points && q != null ==> q.x !in scratch && q.y !in scratch
  }

  ghost predicate TableOf(points: seq<EccPoint?>, scratch: set<array<Byte>>, Q: Point)
    requires Table(points, scratch)
    reads points[1].x, points[1].y, points[2].x, points[2].y, points[3].x, points[3].y
  {
    points[1].Value() == G && points[2].Value() == Q && points[3].Value() == Plus(G, Q, SECP256R1)
  }

  /** The loop of Shamir's trick: the registers follow the leading bits of both factors. */
  method ShamirLoop(rx: array<Byte>, ry: array<Byte>, z: array<Byte>, tx: array<Byte>, ty: array<Byte>, tz: array<Byte>,
      p: array<Byte>, u1: array<Byte>, u2: array<Byte>, points: seq<EccPoint?>, start: nat, ghost Q: Point)
    requires Scratch(rx, ry, z, tx, ty, tz, p) && V(p) == P && Standard() && OnCurve(Q, SECP256R1)
    requires u1.Length == u2.Length == DIGITS && start <= 8 * DIGITS
    requires u1 !in {rx, ry, z, tx, ty, tz} && u2 !in {rx, ry, z, tx, ty, tz}
    requires Table(points, {rx, ry, z, tx, ty, tz}) && TableOf(points, {rx, ry, z, tx, ty, tz}, Q)
    requires Follows(JacobianIn(rx, ry, z), V(u1), V(u2), start, start, Q)
    modifies rx, ry, z, tx, ty, tz
    ensures Follows(JacobianIn(rx, ry, z), V(u1), V(u2), 0, start, Q)
  {
    hide V, OnCurve, Plus, Standard, JacobianOf, Reduced, ShamirRound, ClearDown, Selected, Bit, Or, EccPoint.Value, JacobianIn;
    ghost var a, b := V(u1), V(u2);
    var i := start - 1;
    while i >= 0
      invariant -1 <= i < start && V(u1) == a && V(u2) == b && V(p) == P
      invariant TableOf(points, {rx, ry, z, tx, ty, tz}, Q)
      invariant Follows(JacobianIn(rx, ry, z), a, b, i + 1, start, Q)
    {
      RoundFollows(JacobianIn(rx, ry, z), a, b, i, start, Q);
      var point := Select(u1, u2, i, points, Q);
      ShamirStep(rx, ry, z, tx, ty, tz, p, point, Selected(Bit(a, i), Bit(b, i), Q));
      i := i - 1;
    }
  }

  /** Both factors fit in n bits and one of them needs all n. */
  lemma LeadingBits(a: nat, b: nat, n: nat)
    requires n > 0 && a < Two(n) && b < Two(n) && (Two(n - 1) <= a || Two(n - 1) <= b)
    ensures Prefix(a, n - 1) == Bit(a, n - 1) && Prefix(b, n - 1) == Bit(b, n - 1)
    ensures Prefix(a, n - 1) + Prefix(b, n - 1) > 0
  {
    LeadingBit(a, n);
    LeadingBit(b, n);
  }

  /** The larger of two bit counts. */
  method MaxBits(u1: array<Byte>, u2: array<Byte>) returns (n: nat)
    requires u1.Length == u2.Length == DIGITS && V(u2) > 0
    ensures 0 < n <= 8 * DIGITS && RoundCount(V(u1), V(u2), n - 1)
    ensures Prefix(V(u1), n - 1) == Bit(V(u1), n - 1) && Prefix(V(u2), n - 1) == Bit(V(u2), n - 1)
  {
    hide V, Prefix, Bit, Two;
    var a := NumBits(u1);
    var b := NumBits(u2);
    n := if a > b then a else b;
    TwoUp(a, n);
    TwoUp(b, n);
    LeadingBits(V(u1), V(u2), n);
  }

  lemma SelectedIsPoint(b1: nat, b2: nat, Q: Point)
    requires Q.Affine? && Q.x != G.x && b1 + b2 > 0 && SECP256R1.p > 0
    ensures Selected(b1, b2, Q).Affine?
  {
    hide Slope;
  }

  /** Loads the first table entry and runs the loop. */
  method ShamirRun(rx: array<Byte>, ry: array<Byte>, z: array<Byte>, tx: array<Byte>, ty: array<Byte>, tz: array<Byte>,
      p: array<Byte>, u1: array<Byte>, u2: array<Byte>, points: seq<EccPoint?>, ghost Q: Point) returns (ghost n: nat)
    requires Scratch(rx, ry, z, tx, ty, tz, p) && V(p) == P && Standard() && OnCurve(Q, SECP256R1)
    requires u1.Length == u2.Length == DIGITS && V(u2) > 0 && Q.Affine? && Q.x != G.x
    requires u1 !in {rx, ry, z, tx, ty, tz} && u2 !in {rx, ry, z, tx, ty, tz}
    requires Table(points, {rx, ry, z, tx, ty, tz}) && TableOf(points, {rx, ry, z, tx, ty, tz}, Q)
    modifies rx, ry, z, tx, ty, tz
    ensures RoundCount(V(u1), V(u2), n) && Follows(JacobianIn(rx, ry, z), V(u1), V(u2), 0, n, Q)
  {
    hide V, GroupLaw, OnCurve, Plus, Standard, JacobianOf, JointMultiple, Selected, Prefix, Bit, Or, Follows, EccPoint.Value,
         JacobianIn;
    ghost var a, b := V(u1), V(u2);
    StandardIs();
    PIsPositive();
    var bits := MaxBits(u1, u2);
    n := bits - 1;
    JointStart(a, b, n, Q);
    SelectedIsPoint(Bit(a, n), Bit(b, n), Q);
    SelectedOnCurve(Bit(a, n), Bit(b, n), Q);
    var point := Select(u1, u2, bits - 1, points, Q);
    LoadPoint(rx, ry, z, point, p);
    FollowsStart(JacobianIn(rx, ry, z), a, b, n, Q);
    ShamirLoop(rx, ry, z, tx, ty, tz, p, u1, u2, points, bits - 1, Q);
  }

  lemma FollowsStart(j: Jacobian, u1: nat, u2: nat, n: nat, Q: Point)
    requires Reduced(j, P) && JacobianOf(j, JointMultiple(u1, u2, n, Q), SECP256R1)
    ensures Follows(j, u1, u2, n, n, Q)
  {
    hide JointMultiple, JacobianOf;
  }

  method LoadPoint(rx: array<Byte>, ry: array<Byte>, z: array<Byte>, point: EccPoint, p: array<Byte>)
    requires rx.Length == ry.Length == z.Length == p.Length == DIGITS && rx != ry && rx != z && ry != z && p != rx
             && p != ry && p != z
    requires point.Separate() && point.x !in {rx, ry, z} && point.y !in {rx, ry, z} && OnCurve(point.Value(), SECP256R1)
    modifies rx, ry, z
    ensures Reduced(JacobianIn(rx, ry, z), P) && JacobianOf(JacobianIn(rx, ry, z), old(point.Value()), SECP256R1)
  {
    hide V, OnCurve, RepPoint, Divides;
    PIsPositive();
    Residues(point.Value(), SECP256R1);
    Set(rx, point.x);
    Set(ry, point.y);
    Clear(z);
    SetOne(z);
    OneNonzero();
    AffineIsRep(point.Value());
  }

  /** u1 = hash / s and u2 = r / s modulo the order. */
  method Factors(u1: array<Byte>, u2: array<Byte>, z: array<Byte>, hash: array<Byte>, r: array<Byte>, s: array<Byte>,
      n: array<Byte>)
    requires u1.Length == u2.Length == z.Length == hash.Length == r.Length == s.Length == n.Length == DIGITS
    requires u1 != u2 && u1 != z && u2 != z && u1 !in {hash, r, s, n} && u2 !in {hash, r, s, n} && z !in {hash, r, s, n}
    requires V(n) == N && Prime(N) && 0 < V(r) < N && 0 < V(s) < N
    modifies u1, u2, z
    ensures V(u1) == FactorG(V(hash), V(s)) && V(u2) == FactorQ(V(r), V(s)) > 0
  {
    hide V, Cong, FactorG, FactorQ;
    OrderFacts();
    InvertModN(z, s, n);
    FactorsAre(V(hash), V(r), V(s), V(z));
    ModMult(u1, hash, z, n);
    ModMult(u2, r, z, n);
  }

  lemma FactorsAre(e: nat, r: nat, s: nat, z: nat)
    requires Prime(N) && 0 < s < N && 0 < r < N && z < N && Cong(z * s, 1, N)
    ensures FactorG(e, s) == e * z % N && FactorQ(r, s) == r * z % N > 0
  {
    hide Cong, Divides;
    ResidueNonzero(s, N);
    ResidueNonzero(r, N);
    InvIs(s, N);
    assert s * z == z * s;
    InverseIs(s, z, N);
    InverseUnique(s, z, Inv(s, N), N);
    InverseNonzero(z, s);
    NonzeroProduct(r, z, N);
    ResidueOfProduct(r, z, N);
    FMulIs(e, z, N);
    FMulIs(r, z, N);
    ZeroDivides();
  }

  lemma ZeroDivides()
    ensures Divides(N, 0)
  {}

  lemma InverseNonzero(z: int, s: int)
    requires Cong(z * s, 1, N)
    ensures !Divides(N, z)
  {
    CongIs(z * s, 1, N);
    if Divides(N, z) {
      DividesProduct(N, z, s);
      DividesSum(N, z * s, z * s - 1);
      assert z * s - (z * s - 1) == 1;
      OneIsSmall();
    }
  }

  lemma OneIsSmall()
    ensures !Divides(N, 1)
  {}

  /** v = x1 mod n of the point in the registers, compared with r; the inversion ends unless z is 0. */
  method Compare(rx: array<Byte>, ry: array<Byte>, z: array<Byte>, r: array<Byte>, t: Tables, ghost T: Point)
    returns (ends: bool, ok: bool)
    requires t.Valid() && t.Apart(rx) && t.Apart(ry) && t.Apart(z) && r.Length == DIGITS
    requires rx != ry && rx != z && ry != z && r !in {rx, ry, z}
    requires Standard() && OnCurve(T, SECP256R1) && (V(z) != 0 ==> JacobianOf(JacobianIn(rx, ry, z), T, SECP256R1))
    modifies rx, ry, z
    ensures ends <==> old(V(z)) != 0
    ensures ends ==> T.Affine? && (ok <==> T.x % N == V(r))
  {
    hide V, GroupLaw, OnCurve, RepPoint, Standard, Divides, Cong, Prime;
    PrimeP();
    ghost var Z: int := V(z);
    ends := InvertModP(z, t.p);
    if !ends {
      return false, false;
    }
    JacobianAffine(Jacobian(V(rx), V(ry), Z), T, SECP256R1);
    Normalise(rx, ry, z, t.p, Z, T);
    ReduceN(rx, t.n);
    var c := Cmp(rx, r);
    ok := c == 0;
  }

  /** ecdsa_verify for a public key on the curve: it ends exactly if (r, s) is out of range or the factors keep
      Shamir's trick clear, and then returns whether (r, s) is a signature of hash. */
  method Verify(pub: EccPoint, hash: array<Byte>, r: array<Byte>, s: array<Byte>, t: Tables) returns (ends: bool, ok: bool)
    requires t.Valid() && pub.Separate() && hash.Length == r.Length == s.Length == DIGITS
    requires Standard() && OnCurve(pub.Value(), SECP256R1)
    ensures ends <==> !(0 < V(r) < N && 0 < V(s) < N)
                      || ShamirClear(FactorG(V(hash), V(s)), FactorQ(V(r), V(s)), pub.Value())
    ensures ends ==> (ok <==> Accepts(V(hash), V(r), V(s), pub.Value()))
    ensures var u, v := Times(FDiv(V(hash), V(s), N), G, SECP256R1), Times(FDiv(V(r), V(s), N), pub.Value(), SECP256R1);
            var R := Plus(u, v, SECP256R1);
            ends ==> (ok <==> 0 < V(r) < N && 0 < V(s) < N && R.Affine? && R.x % N == V(r))
  {
    hide V, Standard, OnCurve, FactorG, FactorQ, JointMultiple, ShamirClear;
    JointIs(V(hash), V(r), V(s), pub.Value());
    var zeroR := IsZero(r);
    var zeroS := IsZero(s);
    if zeroR || zeroS {
      return true, false;
    }
    var cr := Cmp(t.n, r);
    var cs := Cmp(t.n, s);
    if cr != 1 || cs != 1 {
      return true, false;
    }
    ends, ok := VerifyInRange(pub, hash, r, s, t);
  }

  lemma JointIs(e: nat, r: nat, s: nat, Q: Point)
    ensures JointMultiple(FactorG(e, s), FactorQ(r, s), 0, Q)
            == Plus(Times(FDiv(e, s, N), G, SECP256R1), Times(FDiv(r, s, N), Q, SECP256R1), SECP256R1)
  {
    hide Plus, Times, FDiv, Prefix;
    PrefixWhole(FactorG(e, s));
    PrefixWhole(FactorQ(r, s));
  }

  /** ecdsa_verify from the computation of u1 and u2 on. */
  method VerifyInRange(pub: EccPoint, hash: array<Byte>, r: array<Byte>, s: array<Byte>, t: Tables)
    returns (ends: bool, ok: bool)
    requires t.Valid() && pub.Separate() && hash.Length == r.Length == s.Length == DIGITS
    requires Standard() && OnCurve(pub.Value(), SECP256R1) && 0 < V(r) < N && 0 < V(s) < N
    ensures ends <==> ShamirClear(FactorG(V(hash), V(s)), FactorQ(V(r), V(s)), pub.Value())
    ensures var R := JointMultiple(FactorG(V(hash), V(s)), FactorQ(V(r), V(s)), 0, pub.Value());
            ends ==> (ok <==> R.Affine? && R.x % N == V(r))
  {
    hide V, Standard, GroupLaw, OnCurve, FactorG, FactorQ, JointMultiple, ShamirClear, EccPoint.Value;
    StandardIs();
    var u1, u2, z := new Byte[32], new Byte[32], new Byte[32];
    Factors(u1, u2, z, hash, r, s, t.n);
    ends, ok := VerifyWithFactors(pub, u1, u2, z, r, t, pub.Value());
  }

  /** ecdsa_verify from the computation of G + Q on. */
  method VerifyWithFactors(pub: EccPoint, u1: array<Byte>, u2: array<Byte>, z: array<Byte>, r: array<Byte>, t: Tables,
      ghost Q: Point) returns (ends: bool, ok: bool)
    requires t.Valid() && pub.Separate() && u1.Length == u2.Length == z.Length == r.Length == DIGITS
    requires t.Apart(z) && z !in {u1, u2, r, pub.x, pub.y}
    requires Standard() && pub.Value() == Q && OnCurve(Q, SECP256R1) && V(u2) > 0
    modifies z
    ensures ends <==> ShamirClear(V(u1), V(u2), Q)
    ensures var R := JointMultiple(V(u1), V(u2), 0, Q);
            ends ==> (ok <==> R.Affine? && R.x % N == V(r))
  {
    hide V, Standard, GroupLaw, OnCurve, JointMultiple, StepClear, Reached, Plus, RoundCount, JacobianOf, Follows,
         EccPoint.Value, ShamirClear, Prime, Bit, Prefix;
    var rx, ry, tx, ty, tz := new Byte[32], new Byte[32], new Byte[32], new Byte[32], new Byte[32];
    var sum := new EccPoint();
    ends := SumPoint(sum, pub, tx, ty, z, t, Q);
    if !ends {
      SameXIsNotClear(V(u1), V(u2), Q);
      return false, false;
    }
    var points: seq<EccPoint?> := [null, t.g, pub, sum];
    ends, ok := RunAndCompare(rx, ry, z, tx, ty, tz, u1, u2, r, points, t, Q);
  }

  /** Shamir's trick, the last inversion and the comparison. */
  method RunAndCompare(rx: array<Byte>, ry: array<Byte>, z: array<Byte>, tx: array<Byte>, ty: array<Byte>, tz: array<Byte>,
      u1: array<Byte>, u2: array<Byte>, r: array<Byte>, points: seq<EccPoint?>, t: Tables, ghost Q: Point)
    returns (ends: bool, ok: bool)
    requires t.Valid() && Scratch(rx, ry, z, tx, ty, tz, t.p) && t.Apart(rx) && t.Apart(ry) && t.Apart(z)
    requires t.n !in {tx, ty, tz} && r.Length == u1.Length == u2.Length == DIGITS
    requires u1 !in {rx, ry, z, tx, ty, tz} && u2 !in {rx, ry, z, tx, ty, tz} && r !in {rx, ry, z, tx, ty, tz}
    requires Table(points, {rx, ry, z, tx, ty, tz}) && TableOf(points, {rx, ry, z, tx, ty, tz}, Q)
    requires points[1] == t.g
    requires Standard() && OnCurve(Q, SECP256R1) && V(u2) > 0 && Q.Affine? && Q.x != G.x
    modifies rx, ry, z, tx, ty, tz
    ensures ends <==> ShamirClear(V(u1), V(u2), Q)
    ensures var R := JointMultiple(V(u1), V(u2), 0, Q);
            ends ==> (ok <==> R.Affine? && R.x % N == V(r))
  {
    hide V, Standard, GroupLaw, OnCurve, JointMultiple, StepClear, Reached, Plus, RoundCount, JacobianOf, Follows, TableOf,
         ShamirClear, Prime, Bit, Prefix;
    ghost var n := ShamirRun(rx, ry, z, tx, ty, tz, t.p, u1, u2, points, Q);
    JointOnCurve(V(u1), V(u2), 0, Q);
    FollowsToEnd(JacobianIn(rx, ry, z), V(u1), V(u2), n, Q);
    ends, ok := Compare(rx, ry, z, r, t, JointMultiple(V(u1), V(u2), 0, Q));
  }

  lemma SameXIsNotClear(u1: nat, u2: nat, Q: Point)
    requires Q.Affine? && Q.x == G.x
    ensures !ShamirClear(u1, u2, Q)
  {
    hide StepClear, Reached;
  }

  /** After the last round the coordinate is nonzero exactly if every round was clear. */
  lemma FollowsToEnd(j: Jacobian, u1: nat, u2: nat, n: nat, Q: Point)
    requires Follows(j, u1, u2, 0, n, Q) && RoundCount(u1, u2, n) && Q.Affine? && Q.x != G.x
    ensures j.z != 0 <==> ShamirClear(u1, u2, Q)
    ensures j.z != 0 ==> JacobianOf(j, JointMultiple(u1, u2, 0, Q), SECP256R1)
  {
    hide ShamirClear, ClearDown, RoundCount, JointMultiple, RepPoint, Divides;
    ShamirClearIs(u1, u2, n, Q);
    if ClearDown(u1, u2, 0, n, Q) {
      NonzeroIsNonzero(j.z, SECP256R1.p);
    }
  }

  /** Signing and verifying: whatever ecdsa_sign returns with 1, ecdsa_verify for the signer's key accepts exactly if
      the sum of the hash and r times the key does not vanish, provided it ends; and it ends exactly if the sum vanishes
      or its rounds are clear.  Both conditions are about hash, key and nonce. */
  method SignThenVerify(r: array<Byte>, s: array<Byte>, privateKey: array<Byte>, random: array<Byte>, hash: array<Byte>,
      pub: EccPoint, t: Tables) returns (ends: bool, ok: int, verified: bool, accepted: bool)
    requires t.Valid() && t.Apart(r) && t.Apart(s) && r != s && pub.Separate()
    requires r != pub.x && r != pub.y && s != pub.x && s != pub.y
    requires privateKey.Length == random.Length == hash.Length == DIGITS
    requires r != privateKey && r != hash && s != privateKey && s != hash && r != random && s != random
    requires Standard() && 0 < V(privateKey) < N && pub.Value() == Times(V(privateKey), G, SECP256R1)
    requires V(random) != 0 ==> 2 <= V(random) % N
    modifies r, s
    ensures ends <==> V(random) == 0 || V(random) % N != N - 1
    ensures ends ==> (ok == 0 <==> V(random) == 0 || NonceX(V(random) % N) % N == 0)
    ensures ends && ok == 1
            ==> var e, d, k := V(hash), V(privateKey), V(random) % N;
                && (verified <==> SumVanishes(e, d, k) || KeyClear(SignerG(e, d, k), SignerQ(e, d, k), d))
                && (verified ==> (accepted <==> !SumVanishes(e, d, k)))
  {
    hide V, Standard, GroupLaw, OnCurve, Times, NonceX, Signed, Cong, Accepts, ShamirClear, KeyClear, FactorG, FactorQ, Prime,
         SumVanishes, SignerG, SignerQ;
    StandardIs();
    verified, accepted := false, false;
    ends, ok := Sign(r, s, privateKey, random, hash, t);
    if !ends || ok == 0 {
      return;
    }
    ghost var d, k := V(privateKey), V(random) % N;
    TimesOnCurve(d, G, SECP256R1);
    SignedMeans(V(hash), d, k, V(r), V(s));
    if V(s) != 0 {
      SignedIsAccepted(V(hash), d, k, V(r), V(s));
      ShamirClearIff(FactorG(V(hash), V(s)), FactorQ(V(r), V(s)), d);
    }
    verified, accepted := Verify(pub, hash, r, s, t);
    NotAcceptedZero(V(hash), V(r), V(s), pub.Value());
  }

  lemma NotAcceptedZero(e: nat, r: nat, s: nat, Q: Point)
    ensures s == 0 ==> !Accepts(e, r, s, Q)
  {
    hide JointMultiple, FactorG, FactorQ;
  }
}
