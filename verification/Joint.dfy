/** Joint multiples u1 G + u2 Q, and why an ECDSA signature verifies. */
module Joint {
  import opened Arith
  import opened Modular
  import opened Digits
  import opened Bits
  import opened Field
  import opened Vli
  import opened P256
  import opened Curves
  import opened Scalar
  import opened LadderSteps
  import opened LadderEnds
  import opened Rungs
  import opened Orders
  import opened Ladder

  /** curve_n, the order of the base point. */
  const N: nat := 0xffff_ffff_0000_0000_ffff_ffff_ffff_ffff_bce6_faad_a717_9e84_f3b9_cac2_fc63_2551

  /** curve_G. */
  const G: Point :=
    Affine(0x6b17_d1f2_e12c_4247_f8bc_e6e5_63a4_40f2_7703_7d81_2deb_33a0_f4a1_3945_d898_c296,
           0x4fe3_42e2_fe1a_7f9b_8ee7_eb4a_7c0f_9e16_2bce_3357_6b31_5ece_cbb6_4068_37bf_51f5)

  /** The base point satisfies the curve equation. */
  lemma BasePointOnCurve()
    ensures OnCurve(G, SECP256R1)
  {
  }

  /** The hypotheses about the constants of the curve. */
  ghost predicate Standard() {
    GroupLaw(SECP256R1) && Prime(N) && OrderIs(N, G, SECP256R1)
  }

  lemma StandardIs()
    requires Standard()
    ensures GroupLaw(SECP256R1) && Prime(N) && OrderIs(N, G, SECP256R1) && ValidCurve(SECP256R1)
    ensures SECP256R1.p == P && OnCurve(G, SECP256R1)
  {
    BasePointOnCurve();
  }

  /** A quotient is the one residue that gives the numerator back. */
  lemma QuotientIsOne(l: nat, n: int, d: int, p: nat)
    requires Prime(p) && !Divides(p, d) && l < p && Cong(l * d, n, p)
    ensures FDiv(n, d, p) == l
  {
    hide Cong, Divides, FDiv;
    var m, i := FDiv(n, d, p), Inv(d, p);
    FDivIs(n, d, p);
    InvIs(d, p);
    CongSym(l * d, n, p);
    CongTrans(m * d, n, l * d, p);
    assert m * d == d * m && l * d == d * l;
    Cancel(d, i, m, l, p);
    CongUnique(m, l, p);
  }

  const TWO_G: Point :=
    Affine(0x7cf2_7b18_8d03_4f7e_8a52_3803_04b5_1ac3_c089_69e2_77f2_1b35_a60b_48fc_4766_9978,
           0x0777_5510_db8e_d040_293d_9ac6_9f74_30db_ba7d_ade6_3ce9_8229_9e04_b79d_2278_73d1)

  const THREE_G: Point :=
    Affine(0x5ecb_e4d1_a633_0a44_c8f7_ef95_1d4b_f165_e6c6_b721_efad_a985_fb41_661b_c6e7_fd6c,
           0x8734_640c_4998_ff7e_374b_06ce_1a64_a2ec_d82a_b036_384f_b83d_9a79_b127_a27d_5032)

  lemma BaseTangent()
    ensures Cong(0xa249_bcb3_1918_02d3_cb56_fc75_a873_1f84_8e7b_2caf_080f_3477_a4e4_d904_a671_af9d
                 * (2 * G.y), 3 * (G.x * G.x) - 3, P)
    ensures !Divides(P, 2 * G.y)
  {}

  lemma BaseChord()
    ensures Cong(0x28cd_b0fe_6681_d140_c59f_b73f_85f1_6459_ca4c_ee08_3742_bada_762d_e4ca_226a_8086
                 * (G.x - TWO_G.x), G.y - TWO_G.y, P)
    ensures !Divides(P, G.x - TWO_G.x)
  {}

  lemma TwiceBase()
    requires Standard()
    ensures Plus(G, G, SECP256R1) == TWO_G
  {
    hide Cong, Divides, FDiv, GroupLaw, OrderIs, Prime, Third;
    StandardIs();
    BaseTangent();
    BaseThird();
    QuotientIsOne(0xa249_bcb3_1918_02d3_cb56_fc75_a873_1f84_8e7b_2caf_080f_3477_a4e4_d904_a671_af9d,
        3 * (G.x * G.x) - 3, 2 * G.y, P);
  }

  lemma BaseThird()
    ensures Third(0xa249_bcb3_1918_02d3_cb56_fc75_a873_1f84_8e7b_2caf_080f_3477_a4e4_d904_a671_af9d, G.x, G.y, G.x, P) == TWO_G
  {}

  lemma ChordThird()
    ensures Third(0x28cd_b0fe_6681_d140_c59f_b73f_85f1_6459_ca4c_ee08_3742_bada_762d_e4ca_226a_8086, TWO_G.x, TWO_G.y, G.x, P)
            == THREE_G
  {}

  lemma TwoIsOther()
    ensures TWO_G.Affine? && TWO_G.x != G.x
  {}

  lemma ThriceBase()
    requires Standard()
    ensures Plus(TWO_G, G, SECP256R1) == THREE_G
  {
    hide Cong, Divides, FDiv, GroupLaw, OrderIs, Prime, Third, TWO_G, THREE_G;
    StandardIs();
    BaseChord();
    ChordThird();
    TwoIsOther();
    QuotientIsOne(0x28cd_b0fe_6681_d140_c59f_b73f_85f1_6459_ca4c_ee08_3742_bada_762d_e4ca_226a_8086,
        G.y - TWO_G.y, G.x - TWO_G.x, P);
  }

  /** Two multiples of the base point, from the tangent and the chord. */
  lemma SmallMultiples()
    requires Standard()
    ensures Times(2, G, SECP256R1) == TWO_G && Times(3, G, SECP256R1) == THREE_G
  {
    TwiceBase();
    ThriceBase();
    hide Plus, Standard, Times, TWO_G, THREE_G;
    TimesStep(0, G, SECP256R1);
    TimesStep(1, G, SECP256R1);
    TimesStep(2, G, SECP256R1);
    FromInfinity();
  }

  lemma FromInfinity()
    ensures Plus(Infinity, G, SECP256R1) == G
  {}

  lemma Rearrange(A: Point, B: Point, C: Point, D: Point, c: Curve)
    requires GroupLaw(c) && OnCurve(A, c) && OnCurve(B, c) && OnCurve(C, c) && OnCurve(D, c)
    ensures Plus(Plus(A, B, c), Plus(C, D, c), c) == Plus(Plus(A, C, c), Plus(B, D, c), c)
  {
    hide Plus, GroupLaw, OnCurve;
    GroupIsValid(c);
    AddOnCurve(C, D, c);
    AddOnCurve(B, D, c);
    AddOnCurve(B, C, c);
    Associates(A, B, Plus(C, D, c), c);
    Associates(B, C, D, c);
    AddCommutes(B, C, c);
    Associates(C, B, D, c);
    Associates(A, C, Plus(B, D, c), c);
  }

  /** u1 G + u2 Q over the bits from i up. */
  ghost function JointMultiple(u1: nat, u2: nat, i: nat, Q: Point): Point {
    Plus(Times(Prefix(u1, i), G, SECP256R1), Times(Prefix(u2, i), Q, SECP256R1), SECP256R1)
  }

  /** The entry of the table {0, G, Q, G + Q} for two bits. */
  ghost function Selected(b1: nat, b2: nat, Q: Point): Point {
    if b1 == 0 && b2 == 0 then Infinity
    else if b2 == 0 then G
    else if b1 == 0 then Q
    else Plus(G, Q, SECP256R1)
  }

  lemma SelectedIs(b1: nat, b2: nat, Q: Point)
    requires b1 <= 1 && b2 <= 1 && P > 3
    ensures Selected(b1, b2, Q) == Plus(Times(b1, G, SECP256R1), Times(b2, Q, SECP256R1), SECP256R1)
  {
    hide Plus;
    PIsPositive();
    TimesOne(G, SECP256R1);
    TimesOne(Q, SECP256R1);
    TimesStep(0, G, SECP256R1);
    TimesStep(0, Q, SECP256R1);
    AddInfinity(G, SECP256R1);
    AddInfinity(Q, SECP256R1);
    AddInfinity(Infinity, SECP256R1);
  }

  lemma JointOnCurve(u1: nat, u2: nat, i: nat, Q: Point)
    requires Standard() && OnCurve(Q, SECP256R1)
    ensures OnCurve(JointMultiple(u1, u2, i, Q), SECP256R1)
  {
    hide Plus, Standard, GroupLaw, Times, OnCurve, Prefix;
    StandardIs();
    TimesOnCurve(Prefix(u1, i), G, SECP256R1);
    TimesOnCurve(Prefix(u2, i), Q, SECP256R1);
    AddOnCurve(Times(Prefix(u1, i), G, SECP256R1), Times(Prefix(u2, i), Q, SECP256R1), SECP256R1);
  }

  lemma SelectedOnCurve(b1: nat, b2: nat, Q: Point)
    requires Standard() && OnCurve(Q, SECP256R1) && b1 <= 1 && b2 <= 1
    ensures OnCurve(Selected(b1, b2, Q), SECP256R1)
  {
    hide Plus, Standard, GroupLaw, OnCurve;
    StandardIs();
    AddOnCurve(G, Q, SECP256R1);
    InfinityOnCurve();
  }

  lemma InfinityOnCurve()
    ensures OnCurve(Infinity, SECP256R1)
  {}

  /** The double and add of Shamir's trick. */
  lemma JointStep(u1: nat, u2: nat, i: nat, Q: Point)
    requires Standard() && OnCurve(Q, SECP256R1)
    ensures var T := JointMultiple(u1, u2, i + 1, Q);
            JointMultiple(u1, u2, i, Q) == Plus(Plus(T, T, SECP256R1), Selected(Bit(u1, i), Bit(u2, i), Q), SECP256R1)
  {
    hide Plus, Standard, GroupLaw, Times, OnCurve, Prefix, Bit, Selected;
    StandardIs();
    PrefixStep(u1, i);
    PrefixStep(u2, i);
    SelectedIs(Bit(u1, i), Bit(u2, i), Q);
    DoubleAndAdd(Prefix(u1, i + 1), Bit(u1, i), Prefix(u2, i + 1), Bit(u2, i), Q);
  }

  lemma DoubleAndAdd(a: nat, b: nat, d: nat, e: nat, Q: Point)
    requires Standard() && OnCurve(Q, SECP256R1)
    ensures var T := Plus(Times(a, G, SECP256R1), Times(d, Q, SECP256R1), SECP256R1);
            Plus(Times(2 * a + b, G, SECP256R1), Times(2 * d + e, Q, SECP256R1), SECP256R1)
            == Plus(Plus(T, T, SECP256R1), Plus(Times(b, G, SECP256R1), Times(e, Q, SECP256R1), SECP256R1), SECP256R1)
  {
    hide Plus, Standard, GroupLaw, Times, OnCurve;
    StandardIs();
    DoubleAndAddIn(a, b, d, e, G, Q, SECP256R1);
  }

  lemma DoubleAndAddIn(a: nat, b: nat, d: nat, e: nat, S: Point, Q: Point, c: Curve)
    requires GroupLaw(c) && OnCurve(S, c) && OnCurve(Q, c)
    ensures c.p > 0
    ensures var T := Plus(Times(a, S, c), Times(d, Q, c), c);
            Plus(Times(2 * a + b, S, c), Times(2 * d + e, Q, c), c)
            == Plus(Plus(T, T, c), Plus(Times(b, S, c), Times(e, Q, c), c), c)
  {
    hide Plus, GroupLaw, Times, OnCurve;
    GroupIsValid(c);
    TimesOnCurve(a, S, c);
    TimesOnCurve(b, S, c);
    TimesOnCurve(d, Q, c);
    TimesOnCurve(e, Q, c);
    TwiceAndMore(a, b, S, c);
    TwiceAndMore(d, e, Q, c);
    var A, D := Times(a, S, c), Times(d, Q, c);
    AddOnCurve(A, A, c);
    AddOnCurve(D, D, c);
    Rearrange(Plus(A, A, c), Times(b, S, c), Plus(D, D, c), Times(e, Q, c), c);
    Rearrange(A, A, D, D, c);
  }

  lemma TwiceAndMore(a: nat, b: nat, S: Point, c: Curve)
    requires GroupLaw(c) && OnCurve(S, c)
    ensures c.p > 0 && Times(2 * a + b, S, c) == Plus(Plus(Times(a, S, c), Times(a, S, c), c), Times(b, S, c), c)
  {
    hide Plus, GroupLaw, Times, OnCurve;
    GroupIsValid(c);
    TimesAdd(a, a, S, c);
    TimesAdd(2 * a, b, S, c);
    assert a + a == 2 * a;
  }

  lemma TimesCong(i: nat, j: nat)
    requires Standard() && Cong(i, j, N)
    ensures Times(i, G, SECP256R1) == Times(j, G, SECP256R1)
  {
    hide Plus, Standard, GroupLaw, Times, OnCurve, OrderIs, Cong;
    StandardIs();
    CongruentMultiples(i, j, N, G, SECP256R1);
  }

  lemma OrderFacts()
    ensures RADIX <= 2 * N - 2 && N < RADIX && N % 2 == 1 && N < P < 2 * N && SECP256R1.p == P && G.Affine? && G.x != 0
  {}

  /** For a point of the order of the base point, EccPoint_mult ends exactly if x is not 0, the initial coordinate is
      not 0 modulo P and the scalar is neither N - 1 nor N. */
  lemma LadderIff(k: nat, z: int, Q: Point)
    requires Standard() && OnCurve(Q, SECP256R1) && Q.Affine? && OrderIs(N, Q, SECP256R1) && 2 <= k < RADIX
    ensures Inverted(k, Q.x, Q.y, z, P) != 0 <==> !Divides(P, z) && Q.x != 0 && k != N - 1 && k != N
  {
    hide Standard, GroupLaw, Times, OnCurve, OrderIs, Inverted, Divides;
    StandardIs();
    OrderFacts();
    InvertedOfOrder(k, z, N, Q, SECP256R1);
  }

  /** What ecdsa_sign returns for hash e, private key d and nonce k, when it does not fail. */
  ghost predicate Signed(e: nat, d: nat, k: nat, r: nat, s: nat) {
    var R := Times(k, G, SECP256R1);
    R.Affine? && 0 < r && r == R.x % N && s < N && Cong(s * k, e + r * d, N)
  }

  /** The factors of ecdsa_verify. */
  ghost function FactorG(e: nat, s: nat): nat { FDiv(e, s, N) }

  ghost function FactorQ(r: nat, s: nat): nat { FDiv(r, s, N) }

  /** The condition of section 6.4 of FIPS 186-4 under which ecdsa_verify accepts (r, s). */
  ghost predicate Accepts(e: nat, r: nat, s: nat, Q: Point) {
    && 0 < r < N && 0 < s < N
    && var R := JointMultiple(FactorG(e, s), FactorQ(r, s), 0, Q);
       R.Affine? && R.x % N == r
  }

  lemma ResidueNonzero(s: nat, n: nat)
    requires 0 < s < n
    ensures !Divides(n, s)
  {
    QuotientIs(s, n, 0, s);
  }

  /** k = u1 + u2 d modulo n, for the factors of a signature made with k. */
  lemma NonceRecovered(e: nat, d: nat, k: nat, r: nat, s: nat, n: nat, z: nat)
    requires n > 0 && Cong(s * z, 1, n) && Cong(s * k, e + r * d, n)
    ensures Cong(FMul(e, z, n) + FMul(r, z, n) * d, k, n)
  {
    hide Cong, FMul;
    CongRefl(z, n);
    CongRefl(e, n);
    CongRefl(r, n);
    CongRefl(d, n);
    CongRefl(k, n);
    MulCong(e, z, e, z, n);
    MulCong(r, z, r, z, n);
    CongMul(FMul(r, z, n), r * z, d, d, n);
    CongAdd(FMul(e, z, n), e * z, FMul(r, z, n) * d, r * z * d, n);
    CongMul(z, z, s * k, e + r * d, n);
    CongMul(s * z, 1, k, k, n);
    NonceTerms(e, d, k, r, s, z);
    CongSym(s * z * k, e * z + r * z * d, n);
    CongTrans(e * z + r * z * d, s * z * k, k, n);
    CongTrans(FMul(e, z, n) + FMul(r, z, n) * d, e * z + r * z * d, k, n);
  }

  lemma NonceTerms(e: int, d: int, k: int, r: int, s: int, z: int)
    ensures z * (e + r * d) == e * z + r * z * d && z * (s * k) == s * z * k && 1 * k == k
  {}

  /** Every signature with s != 0 is accepted for the public key d G and the same hash, for any hash. */
  lemma SignedIsAccepted(e: nat, d: nat, k: nat, r: nat, s: nat)
    requires Standard() && Signed(e, d, k, r, s) && s != 0
    ensures Accepts(e, r, s, Times(d, G, SECP256R1))
  {
    hide Plus, Standard, GroupLaw, Times, OnCurve, Prefix, Cong, FMul, Divides;
    StandardIs();
    SignedRange(e, d, k, r, s);
    ResidueNonzero(s, N);
    var z := Inv(s, N);
    InvIs(s, N);
    InverseIs(s, z, N);
    NonceRecovered(e, d, k, r, s, N, z);
    var u1, u2 := FactorG(e, s), FactorQ(r, s);
    var Q := Times(d, G, SECP256R1);
    TimesTimes(u2, d, G, SECP256R1);
    MulNonnegative(u2, d);
    TimesAdd(u1, u2 * d, G, SECP256R1);
    TimesCong(u1 + u2 * d, k);
    PrefixWhole(u1);
    PrefixWhole(u2);
  }

  /** s times the recovered nonce is e + r d. */
  lemma RecoveredSigns(e: nat, d: nat, r: nat, s: nat, n: nat, z: nat)
    requires n > 0 && Cong(s * z, 1, n)
    ensures Cong(s * (FMul(e, z, n) + FMul(r, z, n) * d), e + r * d, n)
  {
    hide Cong, FMul;
    var u1, u2 := FMul(e, z, n), FMul(r, z, n);
    CongRefl(e, n);
    CongRefl(r, n);
    CongRefl(z, n);
    CongRefl(d, n);
    CongRefl(s, n);
    CongRefl(e + r * d, n);
    MulCong(e, z, e, z, n);
    MulCong(r, z, r, z, n);
    CongMul(u2, r * z, d, d, n);
    CongAdd(u1, e * z, u2 * d, r * z * d, n);
    CongMul(s, s, u1 + u2 * d, e * z + r * z * d, n);
    CongMul(s * z, 1, e + r * d, e + r * d, n);
    SumOfTerms(e, d, r, s, z);
    CongTrans(s * (u1 + u2 * d), s * (e * z + r * z * d), e + r * d, n);
  }

  lemma SumOfTerms(e: int, d: int, r: int, s: int, z: int)
    ensures s * (e * z + r * z * d) == s * z * (e + r * d) && 1 * (e + r * d) == e + r * d
  {
    assert s * (e * z) == s * z * e && s * (r * z * d) == s * z * (r * d);
  }

  /** Nothing but a signature is accepted: the nonce can be recovered. */
  lemma AcceptedIsSigned(e: nat, d: nat, r: nat, s: nat) returns (k: nat)
    requires Standard() && Accepts(e, r, s, Times(d, G, SECP256R1))
    ensures 0 < r < N && 0 < s < N && 0 < k < N && Signed(e, d, k, r, s)
  {
    hide Plus, Standard, GroupLaw, Times, OnCurve, Prefix, Cong, FMul, Divides;
    StandardIs();
    ResidueNonzero(s, N);
    var z := Inv(s, N);
    InvIs(s, N);
    InverseIs(s, z, N);
    RecoveredSigns(e, d, r, s, N, z);
    var u1, u2 := FactorG(e, s), FactorQ(r, s);
    MulNonnegative(u2, d);
    k := (u1 + u2 * d) % N;
    CongMod(u1 + u2 * d, N);
    NonceCong(s, k, u1 + u2 * d, e + r * d);
    var Q := Times(d, G, SECP256R1);
    TimesTimes(u2, d, G, SECP256R1);
    TimesAdd(u1, u2 * d, G, SECP256R1);
    TimesCong(k, u1 + u2 * d);
    PrefixWhole(u1);
    PrefixWhole(u2);
    TimesNone();
  }

  lemma NonceCong(s: nat, k: nat, u: nat, v: nat)
    requires Cong(k, u, N) && Cong(s * u, v, N)
    ensures Cong(s * k, v, N)
  {
    hide Cong;
    CongRefl(s, N);
    CongMul(s, s, k, u, N);
    CongTrans(s * k, s * u, v, N);
  }

  lemma TimesNone()
    ensures Times(0, G, SECP256R1) == Infinity
  {}

  /** Some nonce makes this signature. */
  ghost predicate HasNonce(e: nat, d: nat, r: nat, s: nat) {
    exists k: nat :: 0 < k < N && Times(k, G, SECP256R1).Affine? && r == Times(k, G, SECP256R1).x % N
                     && Cong(s * k, e + r * d, N)
  }

  lemma NonceOf(e: nat, d: nat, k: nat, r: nat, s: nat)
    requires 0 < k < N && Signed(e, d, k, r, s)
    ensures HasNonce(e, d, r, s)
  {
    hide Times, Cong;
  }

  /** The signatures accepted for the key d G are, besides the range of r and s, exactly those that some nonce makes. */
  lemma AcceptsIff(e: nat, d: nat, r: nat, s: nat)
    requires Standard()
    ensures Accepts(e, r, s, Times(d, G, SECP256R1)) <==> 0 < r < N && 0 < s < N && HasNonce(e, d, r, s)
  {
    hide Standard, Times, Cong, Accepts, HasNonce;
    if Accepts(e, r, s, Times(d, G, SECP256R1)) {
      var k := AcceptedIsSigned(e, d, r, s);
      NonceOf(e, d, k, r, s);
    } else if 0 < r < N && 0 < s < N && HasNonce(e, d, r, s) {
      var k := NonceIs(e, d, r, s);
      SignedIsAccepted(e, d, k, r, s);
    }
  }

  lemma NonceIs(e: nat, d: nat, r: nat, s: nat) returns (k: nat)
    requires 0 < r < N && 0 < s < N && HasNonce(e, d, r, s)
    ensures Signed(e, d, k, r, s)
  {
    hide Times, Cong;
    k :| 0 < k < N && Times(k, G, SECP256R1).Affine? && r == Times(k, G, SECP256R1).x % N && Cong(s * k, e + r * d, N);
  }

  lemma MulNonnegative(a: nat, b: nat)
    ensures a * b >= 0
  {}

  lemma SignedRange(e: nat, d: nat, k: nat, r: nat, s: nat)
    requires Signed(e, d, k, r, s)
    ensures r < N
  {
    hide Times;
  }

  /** The doubling and the addition of round i meet no exceptional point. */
  ghost predicate StepClear(u1: nat, u2: nat, i: nat, Q: Point) {
    AdditionClear(JointMultiple(u1, u2, i + 1, Q), Selected(Bit(u1, i), Bit(u2, i), Q), SECP256R1)
  }

  /** General position for Shamir's trick: no coordinate difference vanishes in any round. */
  ghost predicate ShamirClear(u1: nat, u2: nat, Q: Point) {
    && Q.Affine? && Q.x != G.x
    && forall i: nat :: Reached(u1, u2, i) ==> StepClear(u1, u2, i, Q)
  }

  /** A bit is set above bit i, so the loop of ecdsa_verify makes a round for bit i. */
  ghost predicate Reached(u1: nat, u2: nat, i: nat) {
    Prefix(u1, i + 1) + Prefix(u2, i + 1) > 0
  }

  /** The rounds from n - 1 down to i are clear. */
  ghost predicate ClearDown(u1: nat, u2: nat, i: nat, n: nat, Q: Point)
    decreases n - i
  {
    i >= n || (ClearDown(u1, u2, i + 1, n, Q) && StepClear(u1, u2, i, Q))
  }

  /** n rounds follow the first table entry. */
  ghost predicate RoundCount(u1: nat, u2: nat, n: nat) {
    Prefix(u1, n) + Prefix(u2, n) > 0 && Prefix(u1, n) <= 1 && Prefix(u2, n) <= 1
  }

  lemma {:induction false} PrefixFalls(u: nat, i: nat, n: nat)
    requires i <= n
    ensures Prefix(u, n) <= Prefix(u, i) && (Prefix(u, i) > 0 || Prefix(u, n) == 0)
    ensures i < n && Prefix(u, i) <= 1 ==> Prefix(u, n) == 0
    decreases n - i
  {
    hide Prefix, Bit;
    if i < n {
      PrefixFalls(u, i + 1, n);
      PrefixStep(u, i);
    }
  }

  /** The rounds that ecdsa_verify makes are those with a bit set above them. */
  lemma RoundsAre(u1: nat, u2: nat, i: nat, n: nat)
    requires RoundCount(u1, u2, n)
    ensures Reached(u1, u2, i) <==> i < n
  {
    hide Prefix;
    if i < n {
      PrefixFalls(u1, i + 1, n);
      PrefixFalls(u2, i + 1, n);
    } else {
      PrefixFalls(u1, n, i + 1);
      PrefixFalls(u2, n, i + 1);
    }
  }

  lemma {:induction false} ClearDownIs(u1: nat, u2: nat, i: nat, n: nat, Q: Point)
    ensures ClearDown(u1, u2, i, n, Q) <==> forall j: nat :: i <= j < n ==> StepClear(u1, u2, j, Q)
    decreases n - i
  {
    hide StepClear;
    if i < n {
      ClearDownIs(u1, u2, i + 1, n, Q);
    }
  }

  lemma ShamirClearIs(u1: nat, u2: nat, n: nat, Q: Point)
    requires RoundCount(u1, u2, n)
    ensures ShamirClear(u1, u2, Q) <==> Q.Affine? && Q.x != G.x && ClearDown(u1, u2, 0, n, Q)
  {
    hide StepClear, Reached, ClearDown, RoundCount;
    ClearDownIs(u1, u2, 0, n, Q);
    forall i: nat ensures Reached(u1, u2, i) <==> i < n {
      RoundsAre(u1, u2, i, n);
    }
  }

  /** The first table entry is the joint multiple of the leading bits. */
  lemma JointStart(u1: nat, u2: nat, n: nat, Q: Point)
    requires Prefix(u1, n) <= 1 && Prefix(u2, n) <= 1 && P > 3
    ensures JointMultiple(u1, u2, n, Q) == Selected(Prefix(u1, n), Prefix(u2, n), Q)
  {
    hide Plus, Times, Prefix;
    SelectedIs(Prefix(u1, n), Prefix(u2, n), Q);
  }
}
