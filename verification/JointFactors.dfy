/** When ecdsa_verify ends for the key d G, read off its factors, and a signature for which it does not. */
module JointFactors {
  import opened Arith
  import opened Modular
  import opened Digits
  import opened Bits
  import opened Field
  import opened P256
  import opened CoZ
  import opened Curves
  import opened Scalar
  import opened LadderSteps
  import opened Orders
  import opened Ladder
  import opened Joint

  /** Round i of Shamir's trick for the key d G: what is doubled and what is added, as multiples of G. */
  ghost predicate RoundClear(u1: nat, u2: nat, i: nat, d: nat) {
    FactorsClear(Prefix(u1, i + 1) + Prefix(u2, i + 1) * d, Bit(u1, i) + Bit(u2, i) * d, N)
  }

  /** Every round is clear, and d G has another x-coordinate than G. */
  ghost predicate KeyClear(u1: nat, u2: nat, d: nat) {
    d != 1 && d != N - 1 && forall i: nat :: Reached(u1, u2, i) ==> RoundClear(u1, u2, i, d)
  }

  lemma FactorOfSum(a: nat, b: nat, d: nat)
    requires Standard()
    ensures a + b * d >= 0
    ensures Plus(Times(a, G, SECP256R1), Times(b, Times(d, G, SECP256R1), SECP256R1), SECP256R1)
            == Times(a + b * d, G, SECP256R1)
  {
    hide Plus, Standard, GroupLaw, Times, OnCurve, OrderIs;
    StandardIs();
    MulNonnegative(b, d);
    TimesTimes(b, d, G, SECP256R1);
    TimesAdd(a, b * d, G, SECP256R1);
  }

  lemma RoundClearIff(u1: nat, u2: nat, i: nat, d: nat)
    requires Standard()
    ensures StepClear(u1, u2, i, Times(d, G, SECP256R1)) <==> RoundClear(u1, u2, i, d)
  {
    hide Plus, Standard, GroupLaw, Times, OnCurve, OrderIs, Prefix, Bit, AdditionClear, FactorsClear, Selected;
    StandardIs();
    OrderFacts();
    var a, b, e, f := Prefix(u1, i + 1), Prefix(u2, i + 1), Bit(u1, i), Bit(u2, i);
    FactorOfSum(a, b, d);
    FactorOfSum(e, f, d);
    SelectedIs(e, f, Times(d, G, SECP256R1));
    AdditionClearIff(a + b * d, e + f * d, N, G, SECP256R1);
  }

  lemma OwnX(d: nat)
    requires Standard() && 0 < d < N
    ensures var Q := Times(d, G, SECP256R1); Q.Affine? && (Q.x != G.x <==> d != 1 && d != N - 1)
  {
    hide Plus, Standard, GroupLaw, Times, OnCurve, OrderIs;
    StandardIs();
    OrderFacts();
    NotInfinity(d, N, G, SECP256R1);
    TimesOne(G, SECP256R1);
    SameXIff(d, 1, N, G, SECP256R1);
    SmallMultiple(d - 1, N);
    SmallMultiple(d + 1, N);
  }

  lemma SmallMultiple(a: nat, n: nat)
    requires 0 <= a <= n && n > 0
    ensures Divides(n, a) <==> a == 0 || a == n
  {
    if a == n {
      QuotientIs(a, n, 1, 0);
    } else {
      QuotientIs(a, n, 0, a);
    }
  }

  /** The exact condition on u1, u2 and d for Shamir's trick to stay clear of exceptional points. */
  lemma ShamirClearIff(u1: nat, u2: nat, d: nat)
    requires Standard() && 0 < d < N
    ensures ShamirClear(u1, u2, Times(d, G, SECP256R1)) <==> KeyClear(u1, u2, d)
  {
    hide Standard, Times, StepClear, RoundClear, Reached;
    OwnX(d);
    forall i: nat ensures StepClear(u1, u2, i, Times(d, G, SECP256R1)) <==> RoundClear(u1, u2, i, d) {
      RoundClearIff(u1, u2, i, d);
    }
  }

  /** 2 G and 4 G. */
  const TWICE: Point :=
    Affine(0x7cf2_7b18_8d03_4f7e_8a52_3803_04b5_1ac3_c089_69e2_77f2_1b35_a60b_48fc_4766_9978,
           0x0777_5510_db8e_d040_293d_9ac6_9f74_30db_ba7d_ade6_3ce9_8229_9e04_b79d_2278_73d1)

  const FOURFOLD: Point :=
    Affine(0xe253_4a35_32d0_8fbb_a02d_de65_9ee6_2bd0_031f_e2db_7855_96ef_5093_0244_6b03_0852,
           0xe0f1_575a_4c63_3cc7_19df_ee5f_da86_2d76_4efc_96c3_f30e_e005_5c42_c23f_184e_d8c6)

  /** The slopes of the tangents at G and 2 G. */
  const SLOPE: nat := 0xa249_bcb3_1918_02d3_cb56_fc75_a873_1f84_8e7b_2caf_080f_3477_a4e4_d904_a671_af9d

  const SLOPE2: nat := 0xc248_9a9e_ef61_dfa0_6d37_41ff_3b40_5300_988b_d0db_42a9_3785_9069_b9ce_fb57_6e35

  /** A residue that solves the tangent equation is the slope. */
  lemma SlopeIs(x: int, y: int, l: int, p: nat)
    requires Prime(p) && p > 3 && 0 < y < p && 0 <= l < p && Cong(l * (2 * y), 3 * (x * x) - 3, p)
    ensures Slope(x, y, x, y, p) == l
  {
    hide Cong, Slope, Divides;
    OddPrime(p);
    TangentSlope(x, y, y, p);
    var m := Slope(x, y, x, y, p);
    ResiduesDiffer(y, 0, p);
    NonzeroProduct(2, y, p);
    CongSym(m * (2 * y), 3 * (x * x) - 3, p);
    CongTrans(l * (2 * y), 3 * (x * x) - 3, m * (2 * y), p);
    CancelFactor(l, m, 2 * y, p);
  }

  lemma CancelFactor(a: int, b: int, r: int, n: nat)
    requires Prime(n) && !Divides(n, r) && Cong(a * r, b * r, n) && 0 <= a < n && 0 <= b < n
    ensures a == b
  {
    hide Cong, Divides;
    InvIs(r, n);
    assert a * r == r * a && b * r == r * b;
    Cancel(r, Inv(r, n), a, b, n);
    CongUnique(a, b, n);
  }

  /** A doubling with its slope given. */
  lemma DoubleWith(x: int, y: int, l: int, R: Point, c: Curve)
    requires ValidCurve(c) && 0 < y < c.p && 0 <= l < c.p && Cong(l * (2 * y), 3 * (x * x) - 3, c.p)
    requires R == Affine(ThirdX(l, x, x) % c.p, ThirdY(l, x, y, x) % c.p)
    ensures Plus(Affine(x, y), Affine(x, y), c) == R
  {
    hide Cong, Slope, ThirdX, ThirdY, FAdd;
    SlopeIs(x, y, l, c.p);
    NotOpposed(y, c.p);
  }

  lemma TangentAtG()
    ensures 0 < G.y < P && SLOPE < P && Cong(SLOPE * (2 * G.y), 3 * (G.x * G.x) - 3, P)
  {
    hide Cong;
    CongFrom(SLOPE * (2 * G.y), 3 * (G.x * G.x) - 3,
      -0x211d_1d20_6a82_28ca_3f06_8bcb_77b6_c66e_965b_291a_7279_9fab_7671_3dc1_b6ea_6cd9, P);
  }

  lemma TwiceG()
    ensures TWICE == Affine(ThirdX(SLOPE, G.x, G.x) % P, ThirdY(SLOPE, G.x, G.y, G.x) % P)
  {
    QuotientIs(ThirdX(SLOPE, G.x, G.x), P,
      0x66e1_6810_3bdf_a57c_dd53_0631_89a6_1e37_9158_27bb_44d6_70bd_3c28_7263_db86_185b, TWICE.x);
    QuotientIs(ThirdY(SLOPE, G.x, G.y, G.x), P,
      -0x4138_45f6_74a1_f23f_8741_1c1c_a4dc_802d_98f7_56b4_c716_08b2_bbd5_f403_1db1_99b6
       * 0x1_0000_0000_0000_0000_0000_0000_0000_0000_0000_0000_0000_0000_0000_0000_0000_0000
      - 0xf106_3ec4_f67f_12a6_8f1d_da77_ff72_2c3c_e366_15d6_fa8f_12eb_8bad_2855_a3f3_186f, TWICE.y);
  }

  lemma TangentAtTwice()
    ensures 0 < TWICE.y < P && SLOPE2 < P && Cong(SLOPE2 * (2 * TWICE.y), 3 * (TWICE.x * TWICE.x) - 3, P)
  {
    hide Cong;
    CongFrom(SLOPE2 * (2 * TWICE.y), 3 * (TWICE.x * TWICE.x) - 3,
      -0xab9e_4db4_a865_c5d9_faa5_ffc3_47a0_0126_5457_740d_67c4_1056_9732_0488_b093_97cd, P);
  }

  lemma FourTimesG()
    ensures FOURFOLD == Affine(ThirdX(SLOPE2, TWICE.x, TWICE.x) % P, ThirdY(SLOPE2, TWICE.x, TWICE.y, TWICE.x) % P)
  {
    QuotientIs(ThirdX(SLOPE2, TWICE.x, TWICE.x), P,
      0x9372_1ef0_cd0c_b79b_4714_ba2c_81dc_32cc_e646_a035_0aa3_2bf6_c06d_0cf8_f458_a449, FOURFOLD.x);
    QuotientIs(ThirdY(SLOPE2, TWICE.x, TWICE.y, TWICE.x), P,
      -0x6fe6_4c99_6009_2c9c_dbb1_8290_5a7f_25f2_5d16_c619_fd99_0a85_4657_8527_99a7_02dd
       * 0x1_0000_0000_0000_0000_0000_0000_0000_0000_0000_0000_0000_0000_0000_0000_0000_0000
      - 0x48da_e707_ced7_2083_2dcb_9791_b3b3_4405_4fc1_48af_fca8_d9e8_3a7f_821b_d8de_7564, FOURFOLD.y);
  }

  lemma FourIs()
    requires Standard()
    ensures Times(4, G, SECP256R1) == FOURFOLD
  {
    hide Plus, Standard, GroupLaw, Times, OnCurve, OrderIs, Cong, ThirdX, ThirdY;
    StandardIs();
    TangentAtG();
    TwiceG();
    DoubleWith(G.x, G.y, SLOPE, TWICE, SECP256R1);
    TangentAtTwice();
    FourTimesG();
    DoubleWith(TWICE.x, TWICE.y, SLOPE2, FOURFOLD, SECP256R1);
    TimesOne(G, SECP256R1);
    TimesAdd(1, 1, G, SECP256R1);
    TimesAdd(2, 2, G, SECP256R1);
  }

  /** A hash, and the number that ecdsa_sign gives for it twice, for the private key 2 and the nonce 4. */
  const HASH: nat := 0xc4a6_946b_65a1_1f76_405b_bccb_3dcc_57a0_4958_cb09_4993_8f59_ad6c_39c5_d9a2_eb53

  const R4: nat := 0xe253_4a35_32d0_8fbb_a02d_de65_9ee6_2bd0_031f_e2db_7855_96ef_5093_0244_6b03_0852

  lemma HashIs()
    ensures 0 < R4 < N && HASH < N && HASH + N == 2 * R4 && FOURFOLD.Affine? && FOURFOLD.x == R4
  {}

  lemma TwoAsFactor(e: nat, r: nat, n: nat)
    requires Prime(n) && 0 < r < n && 2 < n && e + n == 2 * r
    ensures FDiv(e, r, n) == 2 && FDiv(r, r, n) == 1
  {
    hide Cong, Divides, FDiv;
    ResiduesDiffer(r, 0, n);
    FDivIs(e, r, n);
    FDivIs(r, r, n);
    CongFrom(e, 2 * r, -1, n);
    CongTrans(FDiv(e, r, n) * r, e, 2 * r, n);
    CancelFactor(FDiv(e, r, n), 2, r, n);
    assert 1 * r == r;
    CancelFactor(FDiv(r, r, n), 1, r, n);
  }

  lemma NotClear(n: nat)
    requires n > 2
    ensures !FactorsClear(1, 2, n)
  {
    QuotientIs(2, n, 0, 2);
    QuotientIs(0, n, 0, 0);
  }

  /** With the factors 2 and 1 the only round doubles G and adds 2 G. */
  lemma OnlyRound()
    ensures Reached(2, 1, 0) && !RoundClear(2, 1, 0, 2)
  {
    hide FactorsClear;
    NotClear(N);
    assert Two(0) == 1 && Two(1) == 2;
    assert Prefix(2, 1) == 1 && Prefix(1, 1) == 0 && Bit(2, 0) == 0 && Bit(1, 0) == 1;
  }

  lemma SignatureIs()
    requires Times(4, G, SECP256R1) == FOURFOLD
    ensures Signed(HASH, 2, 4, R4, R4)
  {
    hide Times, Cong;
    HashIs();
    QuotientIs(R4, N, 0, R4);
    CongFrom(R4 * 4, HASH + R4 * 2, 1, N);
  }

  /** For the hash -HASH the same key and nonce give s = 0. */
  lemma ZeroSigned()
    requires Standard()
    ensures Signed(N - HASH, 2, 4, R4, 0)
  {
    hide Standard, Times, Cong, GroupLaw, OnCurve, OrderIs;
    FourIs();
    HashIs();
    QuotientIs(R4, N, 0, R4);
    CongFrom(0 * 4, N - HASH + R4 * 2, -2, N);
  }

  lemma ProductVanishes(s: nat, k: nat, w: nat, n: nat)
    requires Prime(n) && s < n && 0 < k < n && Cong(s * k, w, n)
    ensures s == 0 <==> Divides(n, w)
  {
    hide Cong, Divides;
    NonzeroCong(s * k, w, n);
    ResiduesDiffer(k, 0, n);
    if s == 0 {
      assert s * k == 0 * n;
      DividesMultiple(0, n);
    } else {
      ResiduesDiffer(s, 0, n);
      NonzeroProduct(s, k, n);
    }
  }

  /** What ecdsa_sign divides by the nonce: the hash plus r times the private key. */
  ghost function SignedSum(e: nat, d: nat, r: nat): nat {
    MulNonnegative(r, d);
    e + r * d
  }

  /** A signature has s = 0 exactly if the order divides that sum. */
  lemma ZeroIff(e: nat, d: nat, k: nat, r: nat, s: nat)
    requires Standard() && Signed(e, d, k, r, s) && 0 < k < N
    ensures s == 0 <==> Divides(N, SignedSum(e, d, r))
  {
    hide Standard, Times, Cong, Divides, GroupLaw, OnCurve, OrderIs;
    StandardIs();
    ProductVanishes(s, k, SignedSum(e, d, r), N);
  }

  /** A quotient by s is the k-fold over s k. */
  lemma DivideThrough(e: int, k: int, s: int, w: int, n: nat)
    requires Prime(n) && Cong(s * k, w, n) && !Divides(n, s) && !Divides(n, w)
    ensures FDiv(e, s, n) == FDiv(e * k, w, n)
  {
    hide Cong, Divides, FDiv;
    var a, b := FDiv(e, s, n), FDiv(e * k, w, n);
    FDivIs(e, s, n);
    FDivIs(e * k, w, n);
    CongRefl(k, n);
    CongRefl(a, n);
    CongMul(a * s, e, k, k, n);
    CongSym(s * k, w, n);
    CongMul(a, a, w, s * k, n);
    assert a * (s * k) == a * s * k;
    CongTrans(a * w, a * s * k, e * k, n);
    CongSym(b * w, e * k, n);
    CongTrans(a * w, e * k, b * w, n);
    CancelFactor(a, b, w, n);
  }

  /** The factors that ecdsa_verify computes from a signature, in terms of what it was made from. */
  lemma FactorsOfSigned(e: nat, d: nat, k: nat, r: nat, s: nat)
    requires Standard() && Signed(e, d, k, r, s) && 0 < k < N && s != 0
    ensures FactorG(e, s) == FDiv(e * k, SignedSum(e, d, r), N) && FactorQ(r, s) == FDiv(r * k, SignedSum(e, d, r), N)
  {
    hide Standard, Times, Cong, Divides, GroupLaw, OnCurve, OrderIs, FDiv;
    StandardIs();
    ZeroIff(e, d, k, r, s);
    ResiduesDiffer(s, 0, N);
    DivideThrough(e, k, s, SignedSum(e, d, r), N);
    DivideThrough(r, k, s, SignedSum(e, d, r), N);
  }

  /** A signature that section 6.4 of FIPS 186-4 accepts and on which ecdsa_verify does not end. */
  lemma VerifyLoops()
    requires Standard()
    ensures Signed(HASH, 2, 4, R4, R4) && Accepts(HASH, R4, R4, Times(2, G, SECP256R1))
    ensures FactorG(HASH, R4) == 2 && FactorQ(R4, R4) == 1
    ensures !ShamirClear(FactorG(HASH, R4), FactorQ(R4, R4), Times(2, G, SECP256R1))
  {
    hide Standard, Times, Signed, Accepts, ShamirClear, RoundClear, Reached, Cong, FDiv, OrderIs, GroupLaw, OnCurve;
    StandardIs();
    OrderFacts();
    FourIs();
    HashIs();
    TwoAsFactor(HASH, R4, N);
    SignatureIs();
    SignedIsAccepted(HASH, 2, 4, R4, R4);
    ShamirClearIff(2, 1, 2);
    OnlyRound();
  }
}
