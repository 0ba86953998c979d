/** Keccak-f[1600] written out: 24 rounds of bit equations with the published constants. */
module KeccakRounds {
  import opened Arith
  import opened Digits
  import opened Bits
  import opened Words
  import opened KeccakSpec

  /** The register of algorithm 5 of FIPS 202. */
  datatype Octet = Octet(b0: bool, b1: bool, b2: bool, b3: bool, b4: bool, b5: bool, b6: bool, b7: bool)

  predicate InRegister(t: nat, o: Octet) { Register(t) == [o.b0, o.b1, o.b2, o.b3, o.b4, o.b5, o.b6, o.b7] }

  function Stepped(o: Octet): Octet {
    Octet(o.b7, o.b0, o.b1, o.b2, o.b3 != o.b7, o.b4 != o.b7, o.b5 != o.b7, o.b6)
  }

  lemma StepOn(t: nat, o: Octet) returns (n: Octet)
    requires InRegister(t, o) && t < 254
    ensures n == Stepped(o) && InRegister(t + 1, n) && Rc(t) == o.b0
  {
    n := Stepped(o);
    Next(t);
    hide Register;
  }

  lemma Next(t: nat)
    ensures Register(t + 1) == var r := Register(t); [r[7], r[0], r[1], r[2], r[3] != r[7], r[4] != r[7], r[5] != r[7], r[6]]
  {}

  /** The constant of round i, from its first n nonzero positions. */
  function Constant(i: nat, n: nat): nat {
    if n == 0 then 0 else Constant(i, n - 1) + (if Rc(n - 1 + 7 * i) then Two(Two(n - 1) - 1) else 0)
  }

  lemma {:induction false} ConstantBound(i: nat, n: nat)
    ensures Constant(i, n) < Two(Two(n) - 1)
  {
    hide Rc;
    if n > 0 {
      ConstantBound(i, n - 1);
      TwoUp(Two(n - 1), Two(n) - 1);
      TwoStep(Two(n - 1) - 1);
    }
  }

  lemma AddPowerBit(a: nat, m: nat, z: nat)
    requires a < Two(m)
    ensures BitOf(a + Two(m), z) <==> BitOf(a, z) || z == m
  {
    hide Two, Bit;
    BitIs(a + Two(m), z);
    BitIs(a, z);
    if z == m {
      QuotientIs(a + Two(m), Two(m), 1, a);
    } else if z > m {
      TwoStep(m);
      TwoUp(m + 1, z);
      SmallBit(a + Two(m), m + 1, z);
      SmallBit(a, m, z);
    } else {
      TwoAdd(z, m - z);
      TwoStep(m - z - 1);
      assert Two(m) == 2 * (Two(m - z - 1) * Two(z));
      ParityOfQuotient(a, Two(z), Two(m - z - 1));
    }
  }

  lemma {:induction false} ConstantIs(i: nat, n: nat, z: nat)
    ensures BitOf(Constant(i, n), z) == ConstantBit(i, n, z)
  {
    hide Rc, BitOf, Two;
    if n == 0 {
      ZeroBits(z);
    } else {
      ConstantIs(i, n - 1, z);
      ConstantBound(i, n - 1);
      AddPowerBit(Constant(i, n - 1), Two(n - 1) - 1, z);
    }
  }

  lemma ZeroBits(z: nat)
    ensures !BitOf(0, z)
  {
    ZeroBit(z);
  }

  lemma Powers()
    ensures Two(Two(0) - 1) == 1 && Two(Two(1) - 1) == 2 && Two(Two(2) - 1) == 8 && Two(Two(3) - 1) == 0x80
    ensures Two(Two(4) - 1) == 0x8000 && Two(Two(5) - 1) == 0x8000_0000 && Two(Two(6) - 1) == 0x8000_0000_0000_0000
  {
    SmallTwos();
    hide Two;
    TwoAdd(7, 8);
    TwoAdd(15, 8);
    TwoAdd(23, 8);
    TwoAdd(31, 8);
    TwoAdd(39, 8);
    TwoAdd(47, 8);
    TwoAdd(55, 8);
  }

  /** The constant whose bits the register puts out from octet o on, and the octet 7 steps later. */
  lemma RoundOn(i: nat, o: Octet) returns (c: nat, n: Octet)
    requires i < 24 && InRegister(7 * i, o)
    ensures c == Constant(i, 7) && InRegister(7 * i + 7, n)
    ensures var p := Stepped(o); var q := Stepped(p); var r := Stepped(q); var s := Stepped(r); var t := Stepped(s);
            && n == Stepped(Stepped(t))
            && c == (if o.b0 then 1 else 0) + (if p.b0 then 2 else 0) + (if q.b0 then 8 else 0) + (if r.b0 then 0x80 else 0)
                    + (if s.b0 then 0x8000 else 0) + (if t.b0 then 0x8000_0000 else 0)
                    + (if Stepped(t).b0 then 0x8000_0000_0000_0000 else 0)
  {
    hide InRegister, Stepped, Rc, Two;
    n := StepOn(7 * i, o);
    n := StepOn(7 * i + 1, n);
    n := StepOn(7 * i + 2, n);
    n := StepOn(7 * i + 3, n);
    n := StepOn(7 * i + 4, n);
    n := StepOn(7 * i + 5, n);
    n := StepOn(7 * i + 6, n);
    Powers();
    c := Constant(i, 7);
    Unfolded(i);
  }

  lemma Unfolded(i: nat)
    ensures Constant(i, 7) == (if Rc(7 * i) then Two(Two(0) - 1) else 0) + (if Rc(1 + 7 * i) then Two(Two(1) - 1) else 0)
                              + (if Rc(2 + 7 * i) then Two(Two(2) - 1) else 0) + (if Rc(3 + 7 * i) then Two(Two(3) - 1) else 0)
                              + (if Rc(4 + 7 * i) then Two(Two(4) - 1) else 0) + (if Rc(5 + 7 * i) then Two(Two(5) - 1) else 0)
                              + (if Rc(6 + 7 * i) then Two(Two(6) - 1) else 0)
  {
    hide Rc, Two;
    assert Constant(i, 1) == (if Rc(7 * i) then Two(Two(0) - 1) else 0);
    assert Constant(i, 3) == Constant(i, 2) + (if Rc(2 + 7 * i) then Two(Two(2) - 1) else 0);
    assert Constant(i, 5) == Constant(i, 4) + (if Rc(4 + 7 * i) then Two(Two(4) - 1) else 0);
  }

  /** The 24 round constants, in rows of 6. */
  const RC_A: seq<nat> := [
    0x0000000000000001, 0x0000000000008082, 0x800000000000808a,
    0x8000000080008000, 0x000000000000808b, 0x0000000080000001]

  const RC_B: seq<nat> := [
    0x8000000080008081, 0x8000000000008009, 0x000000000000008a,
    0x0000000000000088, 0x0000000080008009, 0x000000008000000a]

  const RC_C: seq<nat> := [
    0x000000008000808b, 0x800000000000008b, 0x8000000000008089,
    0x8000000000008003, 0x8000000000008002, 0x8000000000000080]

  const RC_D: seq<nat> := [
    0x000000000000800a, 0x800000008000000a, 0x8000000080008081,
    0x8000000000008080, 0x0000000080000001, 0x8000000080008008]

  const RC: seq<nat> := RC_A + RC_B + RC_C + RC_D

  ghost predicate InRow(row: seq<nat>, i: nat) { |row| == 6 && forall j: nat :: j < 6 ==> Constant(i + j, 7) == row[j] }

  lemma Constants0() returns (n: Octet)
    requires InRegister(0, Octet(true, false, false, false, false, false, false, false))
    ensures InRegister(42, Octet(true, false, true, false, true, true, false, false))
    ensures InRow(RC_A, 0)
  {
    hide InRegister, Constant;
    var c;
    n := Octet(true, false, false, false, false, false, false, false);
    c, n := RoundOn(0, n);
    assert c == 0x0000000000000001 && n == Octet(false, false, false, false, false, false, false, true);
    c, n := RoundOn(1, n);
    assert c == 0x0000000000008082 && n == Octet(false, false, false, true, true, false, true, true);
    c, n := RoundOn(2, n);
    assert c == 0x800000000000808a && n == Octet(false, true, false, true, true, false, false, false);
    c, n := RoundOn(3, n);
    assert c == 0x8000000080008000 && n == Octet(true, true, true, true, true, false, true, true);
    c, n := RoundOn(4, n);
    assert c == 0x000000000000808b && n == Octet(true, false, false, true, false, false, false, false);
    c, n := RoundOn(5, n);
    assert c == 0x0000000080000001 && n == Octet(true, false, true, false, true, true, false, false);
    assert Constant(0, 7) == RC_A[0] && Constant(1, 7) == RC_A[1] && Constant(2, 7) == RC_A[2];
    assert Constant(3, 7) == RC_A[3] && Constant(4, 7) == RC_A[4] && Constant(5, 7) == RC_A[5];
  }

  lemma Constants1() returns (n: Octet)
    requires InRegister(42, Octet(true, false, true, false, true, true, false, false))
    ensures InRegister(84, Octet(true, false, true, false, true, false, true, true))
    ensures InRow(RC_B, 6)
  {
    hide InRegister, Constant;
    var c;
    n := Octet(true, false, true, false, true, true, false, false);
    c, n := RoundOn(6, n);
    assert c == 0x8000000080008081 && n == Octet(true, true, true, true, false, false, true, false);
    c, n := RoundOn(7, n);
    assert c == 0x8000000000008009 && n == Octet(false, true, false, true, false, false, true, true);
    c, n := RoundOn(8, n);
    assert c == 0x000000000000008a && n == Octet(false, false, false, false, true, true, true, false);
    c, n := RoundOn(9, n);
    assert c == 0x0000000000000088 && n == Octet(true, false, false, false, false, false, true, false);
    c, n := RoundOn(10, n);
    assert c == 0x0000000080008009 && n == Octet(false, false, true, true, false, true, true, true);
    c, n := RoundOn(11, n);
    assert c == 0x000000008000000a && n == Octet(true, false, true, false, true, false, true, true);
    assert Constant(6 + 0, 7) == RC_B[0] && Constant(6 + 1, 7) == RC_B[1] && Constant(6 + 2, 7) == RC_B[2];
    assert Constant(6 + 3, 7) == RC_B[3] && Constant(6 + 4, 7) == RC_B[4] && Constant(6 + 5, 7) == RC_B[5];
  }

  lemma Constants2() returns (n: Octet)
    requires InRegister(84, Octet(true, false, true, false, true, false, true, true))
    ensures InRegister(126, Octet(false, true, false, false, true, true, true, true))
    ensures InRow(RC_C, 12)
  {
    hide InRegister, Constant;
    var c;
    n := Octet(true, false, true, false, true, false, true, true);
    c, n := RoundOn(12, n);
    assert c == 0x000000008000808b && n == Octet(true, false, true, true, false, false, true, true);
    c, n := RoundOn(13, n);
    assert c == 0x800000000000008b && n == Octet(true, true, false, false, false, true, true, false);
    c, n := RoundOn(14, n);
    assert c == 0x8000000000008089 && n == Octet(true, true, false, true, false, true, false, true);
    c, n := RoundOn(15, n);
    assert c == 0x8000000000008003 && n == Octet(false, true, false, true, false, true, false, true);
    c, n := RoundOn(16, n);
    assert c == 0x8000000000008002 && n == Octet(false, true, false, true, false, true, false, false);
    c, n := RoundOn(17, n);
    assert c == 0x8000000000000080 && n == Octet(false, true, false, false, true, true, true, true);
    assert Constant(12 + 0, 7) == RC_C[0] && Constant(12 + 1, 7) == RC_C[1] && Constant(12 + 2, 7) == RC_C[2];
    assert Constant(12 + 3, 7) == RC_C[3] && Constant(12 + 4, 7) == RC_C[4] && Constant(12 + 5, 7) == RC_C[5];
  }

  lemma Constants3() returns (n: Octet)
    requires InRegister(126, Octet(false, true, false, false, true, true, true, true))
    ensures InRegister(168, Octet(false, true, true, true, false, false, false, true))
    ensures InRow(RC_D, 18)
  {
    hide InRegister, Constant;
    var c;
    n := Octet(false, true, false, false, true, true, true, true);
    c, n := RoundOn(18, n);
    assert c == 0x000000000000800a && n == Octet(false, false, false, true, false, true, true, true);
    c, n := RoundOn(19, n);
    assert c == 0x800000008000000a && n == Octet(true, true, true, false, true, true, false, false);
    c, n := RoundOn(20, n);
    assert c == 0x8000000080008081 && n == Octet(false, true, true, true, true, true, false, false);
    c, n := RoundOn(21, n);
    assert c == 0x8000000000008080 && n == Octet(true, true, false, true, false, false, false, false);
    c, n := RoundOn(22, n);
    assert c == 0x0000000080000001 && n == Octet(false, false, true, false, false, false, true, false);
    c, n := RoundOn(23, n);
    assert c == 0x8000000080008008 && n == Octet(false, true, true, true, false, false, false, true);
    assert Constant(18 + 0, 7) == RC_D[0] && Constant(18 + 1, 7) == RC_D[1] && Constant(18 + 2, 7) == RC_D[2];
    assert Constant(18 + 3, 7) == RC_D[3] && Constant(18 + 4, 7) == RC_D[4] && Constant(18 + 5, 7) == RC_D[5];
  }


  lemma RowsAre(j: nat)
    requires j < 6
    ensures |RC_A| == |RC_B| == |RC_C| == |RC_D| == 6 && |RC| == 24
    ensures RC[j] == RC_A[j] && RC[6 + j] == RC_B[j] && RC[12 + j] == RC_C[j] && RC[18 + j] == RC_D[j]
  {
    assert |RC_A| == |RC_B| == |RC_C| == |RC_D| == 6;
    hide RC_A, RC_B, RC_C, RC_D;
    assert RC == RC_A + RC_B + RC_C + RC_D;
  }

  lemma AllRows()
    ensures InRow(RC_A, 0) && InRow(RC_B, 6) && InRow(RC_C, 12) && InRow(RC_D, 18)
  {
    hide *;
    FirstOctet();
    var n := Constants0();
    n := Constants1();
    n := Constants2();
    n := Constants3();
  }

  lemma AtRow(row: seq<nat>, i: nat, j: nat)
    requires InRow(row, i) && j < 6
    ensures |row| == 6 && Constant(i + j, 7) == row[j]
  {}

  lemma AllConstants(i: nat)
    requires i < 24
    ensures |RC| == 24 && Constant(i, 7) == RC[i]
  {
    hide *;
    AllRows();
    var j := i % 6;
    RowsAre(j);
    AtRow(RC_A, 0, j);
    AtRow(RC_B, 6, j);
    AtRow(RC_C, 12, j);
    AtRow(RC_D, 18, j);
    assert i == j || i == 6 + j || i == 12 + j || i == 18 + j;
  }

  lemma FirstOctet()
    ensures InRegister(0, Octet(true, false, false, false, false, false, false, false))
  {}

  lemma Coordinates(k: nat)
    requires k < 1600
    ensures X(k) == k / 64 % 5 < 5 && Y(k) == k / 320 < 5 && Z(k) == k % 64 < 64
    ensures k == 64 * (5 * Y(k) + X(k)) + Z(k) && k / 64 == 5 * Y(k) + X(k)
  {
    var l, z := k / 64, k % 64;
    assert k == 64 * l + z;
    QuotientIs(k, 320, l / 5, 64 * (l % 5) + z);
  }

  /** A bit by its coordinates, reduced. */
  lemma AtIs(s: State, x: nat, y: nat, z: nat)
    requires x < 5 && y < 5 && z < 64
    ensures At(s, x, y, z) == s[64 * (5 * y + x) + z]
  {}

  lemma AtTurns(s: State, x: nat, y: nat, z: nat)
    ensures At(s, x, y, z) == At(s, x % 5, y % 5, z % 64)
  {}

  lemma ParityIs(s: State, x: nat, z: nat)
    ensures var u, w := x % 5, z % 64;
            Parity(s, x, z) == ((((s[64 * u + w] != s[64 * (5 + u) + w]) != s[64 * (10 + u) + w]) != s[64 * (15 + u) + w])
                                != s[64 * (20 + u) + w])
  {
    hide At;
    var u, w := x % 5, z % 64;
    AtTurns(s, x, 0, z);
    AtTurns(s, x, 1, z);
    AtTurns(s, x, 2, z);
    AtTurns(s, x, 3, z);
    AtTurns(s, x, 4, z);
    AtIs(s, u, 0, w);
    AtIs(s, u, 1, w);
    AtIs(s, u, 2, w);
    AtIs(s, u, 3, w);
    AtIs(s, u, 4, w);
  }

  lemma ThetaAt(s: State, k: nat)
    requires k < 1600
    ensures var x, z := k / 64 % 5, k % 64;
            var u, v, w := (x + 4) % 5, (x + 1) % 5, (z + 63) % 64;
            Theta(s)[k]
            == ((s[k] != ((((s[64 * u + z] != s[64 * (5 + u) + z]) != s[64 * (10 + u) + z]) != s[64 * (15 + u) + z])
                          != s[64 * (20 + u) + z]))
                != ((((s[64 * v + w] != s[64 * (5 + v) + w]) != s[64 * (10 + v) + w]) != s[64 * (15 + v) + w])
                    != s[64 * (20 + v) + w]))
  {
    hide X, Y, Z, At, Parity;
    Coordinates(k);
    AtIs(s, X(k), Y(k), Z(k));
    ParityIs(s, X(k) + 4, Z(k));
    ParityIs(s, X(k) + 1, Z(k) + 63);
  }

  lemma OffsetIs(x: nat, y: nat)
    requires x < 5 && y < 5
    ensures |OFFSETS| == 25 && Offset(x, y) == OFFSETS[5 * y + x]
  {
    assert x % 5 == x && y % 5 == y;
  }

  lemma RhoAt(s: State, k: nat)
    requires k < 1600
    ensures |OFFSETS| == 25 && k / 64 < 25 && Rho(s)[k] == s[64 * (k / 64) + (k % 64 + 64 - OFFSETS[k / 64] % 64) % 64]
  {
    hide X, Y, Z, At, OFFSETS, Offset;
    Coordinates(k);
    OffsetIs(X(k), Y(k));
    var n := OFFSETS[k / 64] % 64;
    AtTurns(s, X(k), Y(k), Z(k) + 64 - n);
    AtIs(s, X(k), Y(k), (Z(k) + 64 - n) % 64);
  }

  lemma PiAt(s: State, k: nat)
    requires k < 1600
    ensures var x, y, z := k / 64 % 5, k / 320, k % 64; Pi(s)[k] == s[64 * (5 * x + (x + 3 * y) % 5) + z]
  {
    hide X, Y, Z, At;
    Coordinates(k);
    AtTurns(s, X(k) + 3 * Y(k), X(k), Z(k));
    AtIs(s, (X(k) + 3 * Y(k)) % 5, X(k), Z(k));
  }

  lemma ChiAt(s: State, k: nat)
    requires k < 1600
    ensures var x, y, z := k / 64 % 5, k / 320, k % 64;
            Chi(s)[k] == (s[k] != (!s[64 * (5 * y + (x + 1) % 5) + z] && s[64 * (5 * y + (x + 2) % 5) + z]))
  {
    hide X, Y, Z, At;
    Coordinates(k);
    AtIs(s, X(k), Y(k), Z(k));
    AtTurns(s, X(k) + 1, Y(k), Z(k));
    AtTurns(s, X(k) + 2, Y(k), Z(k));
    AtIs(s, (X(k) + 1) % 5, Y(k), Z(k));
    AtIs(s, (X(k) + 2) % 5, Y(k), Z(k));
  }

  lemma ConstantBitIs(i: nat, z: nat)
    requires i < 24
    ensures |RC| == 24 && ConstantBit(i, 7, z) == BitOf(RC[i], z)
  {
    AllConstants(i);
    ConstantIs(i, 7, z);
    hide *;
  }

  lemma IotaAt(s: State, i: nat, k: nat)
    requires i < 24 && k < 1600
    ensures |RC| == 24 && Iota(s, i)[k] == (s[k] != (k < 64 && BitOf(RC[i], k)))
  {
    hide X, Y, Z, At, ConstantBit, RC, BitOf;
    Coordinates(k);
    AtIs(s, X(k), Y(k), Z(k));
    ConstantBitIs(i, Z(k));
  }

  /** The step mappings of section 3.2 of FIPS 202 as equations for bit k, which is bit z of lane (x, y). */
  ghost predicate IsTheta(s: State, a: State) {
    forall k :: 0 <= k < 1600 ==>
      var x, z := k / 64 % 5, k % 64;
      var u, v, w := (x + 4) % 5, (x + 1) % 5, (z + 63) % 64;
      a[k] == ((s[k] != ((((s[64 * u + z] != s[64 * (5 + u) + z]) != s[64 * (10 + u) + z]) != s[64 * (15 + u) + z])
                         != s[64 * (20 + u) + z]))
               != ((((s[64 * v + w] != s[64 * (5 + v) + w]) != s[64 * (10 + v) + w]) != s[64 * (15 + v) + w])
                   != s[64 * (20 + v) + w]))
  }

  ghost predicate IsRho(s: State, b: State) {
    |OFFSETS| == 25
    && forall k :: 0 <= k < 1600 ==> b[k] == s[64 * (k / 64) + (k % 64 + 64 - OFFSETS[k / 64] % 64) % 64]
  }

  ghost predicate IsPi(s: State, c: State) {
    forall k :: 0 <= k < 1600 ==>
      var x, y, z := k / 64 % 5, k / 320, k % 64; c[k] == s[64 * (5 * x + (x + 3 * y) % 5) + z]
  }

  ghost predicate IsChi(s: State, d: State) {
    forall k :: 0 <= k < 1600 ==>
      var x, y, z := k / 64 % 5, k / 320, k % 64;
      d[k] == (s[k] != (!s[64 * (5 * y + (x + 1) % 5) + z] && s[64 * (5 * y + (x + 2) % 5) + z]))
  }

  ghost predicate IsIota(s: State, t: State, constant: nat) {
    forall k :: 0 <= k < 1600 ==> t[k] == (s[k] != (k < 64 && BitOf(constant, k)))
  }

  lemma StepsAre(s: State)
    ensures IsTheta(s, Theta(s)) && IsRho(s, Rho(s)) && IsPi(s, Pi(s)) && IsChi(s, Chi(s))
  {
    ThetaIs(s);
    RhoIs(s);
    PiIs(s);
    ChiIs(s);
    hide *;
  }

  lemma ThetaIs(s: State)
    ensures IsTheta(s, Theta(s))
  {
    hide Theta;
    forall k | 0 <= k < 1600 ensures var x, z := k / 64 % 5, k % 64;
      var u, v, w := (x + 4) % 5, (x + 1) % 5, (z + 63) % 64;
      Theta(s)[k]
      == ((s[k] != ((((s[64 * u + z] != s[64 * (5 + u) + z]) != s[64 * (10 + u) + z]) != s[64 * (15 + u) + z])
                    != s[64 * (20 + u) + z]))
          != ((((s[64 * v + w] != s[64 * (5 + v) + w]) != s[64 * (10 + v) + w]) != s[64 * (15 + v) + w])
              != s[64 * (20 + v) + w]))
    {
      ThetaAt(s, k);
    }
  }

  lemma RhoIs(s: State)
    ensures IsRho(s, Rho(s))
  {
    hide Rho, OFFSETS;
    RhoAt(s, 0);
    forall k | 0 <= k < 1600
      ensures k / 64 < |OFFSETS| && Rho(s)[k] == s[64 * (k / 64) + (k % 64 + 64 - OFFSETS[k / 64] % 64) % 64]
    {
      RhoAt(s, k);
    }
  }

  lemma PiIs(s: State)
    ensures IsPi(s, Pi(s))
  {
    hide Pi;
    forall k | 0 <= k < 1600
      ensures var x, y, z := k / 64 % 5, k / 320, k % 64; Pi(s)[k] == s[64 * (5 * x + (x + 3 * y) % 5) + z]
    {
      PiAt(s, k);
    }
  }

  lemma ChiIs(s: State)
    ensures IsChi(s, Chi(s))
  {
    hide Chi;
    forall k | 0 <= k < 1600 ensures var x, y, z := k / 64 % 5, k / 320, k % 64;
      Chi(s)[k] == (s[k] != (!s[64 * (5 * y + (x + 1) % 5) + z] && s[64 * (5 * y + (x + 2) % 5) + z]))
    {
      ChiAt(s, k);
    }
  }

  lemma IotaIs(s: State, i: nat)
    requires i < 24
    ensures |RC| == 24 && IsIota(s, Iota(s, i), RC[i])
  {
    hide Iota, RC, BitOf;
    IotaAt(s, i, 0);
    forall k | 0 <= k < 1600 ensures Iota(s, i)[k] == (s[k] != (k < 64 && BitOf(RC[i], k))) {
      IotaAt(s, i, k);
    }
  }

  /** Keccak-f is 24 rounds of theta, rho, pi, chi and iota with the constants of the table. The states between the rounds
      are t, and within round i, a[i], b[i], c[i] and d[i]. */
  lemma KeccakIs(s: State) returns (t: seq<State>, a: seq<State>, b: seq<State>, c: seq<State>, d: seq<State>)
    ensures |t| == 25 && |a| == |b| == |c| == |d| == 24 && |RC| == 24
    ensures t[0] == s && t[24] == KeccakF(s)
    ensures forall i :: 0 <= i < 24 ==> && IsTheta(t[i], a[i]) && IsRho(a[i], b[i]) && IsPi(b[i], c[i])
                                        && IsChi(c[i], d[i]) && IsIota(d[i], t[i + 1], RC[i])
  {
    hide *;
    t := seq(25, i requires 0 <= i < 25 => Rounds(s, i));
    a := seq(24, i requires 0 <= i < 24 => Theta(Rounds(s, i)));
    b := seq(24, i requires 0 <= i < 24 => Rho(Theta(Rounds(s, i))));
    c := seq(24, i requires 0 <= i < 24 => Pi(Rho(Theta(Rounds(s, i)))));
    d := seq(24, i requires 0 <= i < 24 => Chi(Pi(Rho(Theta(Rounds(s, i))))));
    Ends(s);
    IotaIs(s, 0);
    forall i | 0 <= i < 24
      ensures IsTheta(t[i], a[i]) && IsRho(a[i], b[i]) && IsPi(b[i], c[i]) && IsChi(c[i], d[i])
              && IsIota(d[i], t[i + 1], RC[i])
    {
      StepsAre(t[i]);
      StepsAre(a[i]);
      StepsAre(b[i]);
      StepsAre(c[i]);
      OneRound(s, i);
      IotaIs(d[i], i);
    }
  }

  lemma Ends(s: State)
    ensures Rounds(s, 0) == s && Rounds(s, 24) == KeccakF(s)
  {}

  lemma OneRound(s: State, i: nat)
    ensures Rounds(s, i + 1) == Iota(Chi(Pi(Rho(Theta(Rounds(s, i))))), i)
  {}
}
