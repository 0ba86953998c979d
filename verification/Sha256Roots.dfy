/** The constants of SHA-256 are fractions of roots of primes, as sections 4.2.2 and 5.3.3 of FIPS 180-4 say. */
module Sha256Roots {
  import opened Arith
  import opened Modular
  import opened Field
  import opened Words
  import opened Sha256Spec
  import opened Sha256Vectors

  /** The first 64 primes, in rows of 16. */
  const PRIMES_A: seq<nat> := [2, 3, 5, 7, 11, 13, 17, 19, 23, 29, 31, 37, 41, 43, 47, 53]

  const PRIMES_B: seq<nat> := [59, 61, 67, 71, 73, 79, 83, 89, 97, 101, 103, 107, 109, 113, 127, 131]

  const PRIMES_C: seq<nat> := [137, 139, 149, 151, 157, 163, 167, 173, 179, 181, 191, 193, 197, 199, 211, 223]

  const PRIMES_D: seq<nat> := [227, 229, 233, 239, 241, 251, 257, 263, 269, 271, 277, 281, 283, 293, 307, 311]

  const PRIMES: seq<nat> := PRIMES_A + PRIMES_B + PRIMES_C + PRIMES_D

  function Square(n: nat): nat { n * n }

  function Cube(n: nat): nat { n * n * n }

  /** 2^32 c + k is the whole part of 2^32 times the cube root of p, whose own whole part is c. */
  predicate CubeOf(p: nat, k: Word, c: nat) {
    && Cube(c) < p < Cube(c + 1)
    && Cube(0x1_0000_0000 * c + k) <= 0x1_0000_0000_0000_0000_0000_0000 * p < Cube(0x1_0000_0000 * c + k + 1)
  }

  predicate SquareOf(p: nat, k: Word, c: nat) {
    && Square(c) < p < Square(c + 1)
    && Square(0x1_0000_0000 * c + k) <= 0x1_0000_0000_0000_0000 * p < Square(0x1_0000_0000 * c + k + 1)
  }

  /** b is the first number above a that the sieve leaves. */
  predicate Follows(a: nat, b: nat) { a < b && Sieved(b) && NoneBetween(a, b) }

  predicate NoneBetween(a: nat, b: nat)
    decreases b - a
  {
    || a + 1 >= b
    || (a >= 3 && a % 2 == 1 && (a + 2 >= b || (!Sieved(a + 2) && NoneBetween(a + 2, b))))
  }

  lemma RootsA0(t: nat) returns (c: nat)
    requires t < 8
    ensures |PRIMES_A| == |K_A| == 16 && 1 < PRIMES_A[t] < 361 && CubeOf(PRIMES_A[t], K_A[t], c)
    ensures Follows(if t == 0 then 1 else PRIMES_A[t - 1], PRIMES_A[t])
  {
    match t {
      case 0 => c := 1; assert CubeOf(2, 0x428a2f98, 1) && Follows(1, 2);
      case 1 => c := 1; assert CubeOf(3, 0x71374491, 1) && Follows(2, 3);
      case 2 => c := 1; assert CubeOf(5, 0xb5c0fbcf, 1) && Follows(3, 5);
      case 3 => c := 1; assert CubeOf(7, 0xe9b5dba5, 1) && Follows(5, 7);
      case 4 => c := 2; assert CubeOf(11, 0x3956c25b, 2) && Follows(7, 11);
      case 5 => c := 2; assert CubeOf(13, 0x59f111f1, 2) && Follows(11, 13);
      case 6 => c := 2; assert CubeOf(17, 0x923f82a4, 2) && Follows(13, 17);
      case _ => c := 2; assert CubeOf(19, 0xab1c5ed5, 2) && Follows(17, 19);
    }
  }

  lemma RootsA1(t: nat) returns (c: nat)
    requires t < 8
    ensures |PRIMES_A| == |K_A| == 16 && 1 < PRIMES_A[8 + t] < 361 && CubeOf(PRIMES_A[8 + t], K_A[8 + t], c)
    ensures Follows(if t == 0 then 19 else PRIMES_A[8 + t - 1], PRIMES_A[8 + t])
  {
    match t {
      case 0 => c := 2; assert CubeOf(23, 0xd807aa98, 2) && Follows(19, 23);
      case 1 => c := 3; assert CubeOf(29, 0x12835b01, 3) && Follows(23, 29);
      case 2 => c := 3; assert CubeOf(31, 0x243185be, 3) && Follows(29, 31);
      case 3 => c := 3; assert CubeOf(37, 0x550c7dc3, 3) && Follows(31, 37);
      case 4 => c := 3; assert CubeOf(41, 0x72be5d74, 3) && Follows(37, 41);
      case 5 => c := 3; assert CubeOf(43, 0x80deb1fe, 3) && Follows(41, 43);
      case 6 => c := 3; assert CubeOf(47, 0x9bdc06a7, 3) && Follows(43, 47);
      case _ => c := 3; assert CubeOf(53, 0xc19bf174, 3) && Follows(47, 53);
    }
  }

  lemma RootsB0(t: nat) returns (c: nat)
    requires t < 8
    ensures |PRIMES_B| == |K_B| == 16 && 1 < PRIMES_B[t] < 361 && CubeOf(PRIMES_B[t], K_B[t], c)
    ensures Follows(if t == 0 then 53 else PRIMES_B[t - 1], PRIMES_B[t])
  {
    match t {
      case 0 => c := 3; assert CubeOf(59, 0xe49b69c1, 3) && Follows(53, 59);
      case 1 => c := 3; assert CubeOf(61, 0xefbe4786, 3) && Follows(59, 61);
      case 2 => c := 4; assert CubeOf(67, 0x0fc19dc6, 4) && Follows(61, 67);
      case 3 => c := 4; assert CubeOf(71, 0x240ca1cc, 4) && Follows(67, 71);
      case 4 => c := 4; assert CubeOf(73, 0x2de92c6f, 4) && Follows(71, 73);
      case 5 => c := 4; assert CubeOf(79, 0x4a7484aa, 4) && Follows(73, 79);
      case 6 => c := 4; assert CubeOf(83, 0x5cb0a9dc, 4) && Follows(79, 83);
      case _ => c := 4; assert CubeOf(89, 0x76f988da, 4) && Follows(83, 89);
    }
  }

  lemma RootsB1(t: nat) returns (c: nat)
    requires t < 8
    ensures |PRIMES_B| == |K_B| == 16 && 1 < PRIMES_B[8 + t] < 361 && CubeOf(PRIMES_B[8 + t], K_B[8 + t], c)
    ensures Follows(if t == 0 then 89 else PRIMES_B[8 + t - 1], PRIMES_B[8 + t])
  {
    match t {
      case 0 => c := 4; assert CubeOf(97, 0x983e5152, 4) && Follows(89, 97);
      case 1 => c := 4; assert CubeOf(101, 0xa831c66d, 4) && Follows(97, 101);
      case 2 => c := 4; assert CubeOf(103, 0xb00327c8, 4) && Follows(101, 103);
      case 3 => c := 4; assert CubeOf(107, 0xbf597fc7, 4) && Follows(103, 107);
      case 4 => c := 4; assert CubeOf(109, 0xc6e00bf3, 4) && Follows(107, 109);
      case 5 => c := 4; assert CubeOf(113, 0xd5a79147, 4) && Follows(109, 113);
      case 6 => c := 5; assert CubeOf(127, 0x06ca6351, 5) && Follows(113, 127);
      case _ => c := 5; assert CubeOf(131, 0x14292967, 5) && Follows(127, 131);
    }
  }

  lemma RootsC0(t: nat) returns (c: nat)
    requires t < 8
    ensures |PRIMES_C| == |K_C| == 16 && 1 < PRIMES_C[t] < 361 && CubeOf(PRIMES_C[t], K_C[t], c)
    ensures Follows(if t == 0 then 131 else PRIMES_C[t - 1], PRIMES_C[t])
  {
    match t {
      case 0 => c := 5; assert CubeOf(137, 0x27b70a85, 5) && Follows(131, 137);
      case 1 => c := 5; assert CubeOf(139, 0x2e1b2138, 5) && Follows(137, 139);
      case 2 => c := 5; assert CubeOf(149, 0x4d2c6dfc, 5) && Follows(139, 149);
      case 3 => c := 5; assert CubeOf(151, 0x53380d13, 5) && Follows(149, 151);
      case 4 => c := 5; assert CubeOf(157, 0x650a7354, 5) && Follows(151, 157);
      case 5 => c := 5; assert CubeOf(163, 0x766a0abb, 5) && Follows(157, 163);
      case 6 => c := 5; assert CubeOf(167, 0x81c2c92e, 5) && Follows(163, 167);
      case _ => c := 5; assert CubeOf(173, 0x92722c85, 5) && Follows(167, 173);
    }
  }

  lemma RootsC1(t: nat) returns (c: nat)
    requires t < 8
    ensures |PRIMES_C| == |K_C| == 16 && 1 < PRIMES_C[8 + t] < 361 && CubeOf(PRIMES_C[8 + t], K_C[8 + t], c)
    ensures Follows(if t == 0 then 173 else PRIMES_C[8 + t - 1], PRIMES_C[8 + t])
  {
    match t {
      case 0 => c := 5; assert CubeOf(179, 0xa2bfe8a1, 5) && Follows(173, 179);
      case 1 => c := 5; assert CubeOf(181, 0xa81a664b, 5) && Follows(179, 181);
      case 2 => c := 5; assert CubeOf(191, 0xc24b8b70, 5) && Follows(181, 191);
      case 3 => c := 5; assert CubeOf(193, 0xc76c51a3, 5) && Follows(191, 193);
      case 4 => c := 5; assert CubeOf(197, 0xd192e819, 5) && Follows(193, 197);
      case 5 => c := 5; assert CubeOf(199, 0xd6990624, 5) && Follows(197, 199);
      case 6 => c := 5; assert CubeOf(211, 0xf40e3585, 5) && Follows(199, 211);
      case _ => c := 6; assert CubeOf(223, 0x106aa070, 6) && Follows(211, 223);
    }
  }

  lemma RootsD0(t: nat) returns (c: nat)
    requires t < 8
    ensures |PRIMES_D| == |K_D| == 16 && 1 < PRIMES_D[t] < 361 && CubeOf(PRIMES_D[t], K_D[t], c)
    ensures Follows(if t == 0 then 223 else PRIMES_D[t - 1], PRIMES_D[t])
  {
    match t {
      case 0 => c := 6; assert CubeOf(227, 0x19a4c116, 6) && Follows(223, 227);
      case 1 => c := 6; assert CubeOf(229, 0x1e376c08, 6) && Follows(227, 229);
      case 2 => c := 6; assert CubeOf(233, 0x2748774c, 6) && Follows(229, 233);
      case 3 => c := 6; assert CubeOf(239, 0x34b0bcb5, 6) && Follows(233, 239);
      case 4 => c := 6; assert CubeOf(241, 0x391c0cb3, 6) && Follows(239, 241);
      case 5 => c := 6; assert CubeOf(251, 0x4ed8aa4a, 6) && Follows(241, 251);
      case 6 => c := 6; assert CubeOf(257, 0x5b9cca4f, 6) && Follows(251, 257);
      case _ => c := 6; assert CubeOf(263, 0x682e6ff3, 6) && Follows(257, 263);
    }
  }

  lemma RootsD1(t: nat) returns (c: nat)
    requires t < 8
    ensures |PRIMES_D| == |K_D| == 16 && 1 < PRIMES_D[8 + t] < 361 && CubeOf(PRIMES_D[8 + t], K_D[8 + t], c)
    ensures Follows(if t == 0 then 263 else PRIMES_D[8 + t - 1], PRIMES_D[8 + t])
  {
    match t {
      case 0 => c := 6; assert CubeOf(269, 0x748f82ee, 6) && Follows(263, 269);
      case 1 => c := 6; assert CubeOf(271, 0x78a5636f, 6) && Follows(269, 271);
      case 2 => c := 6; assert CubeOf(277, 0x84c87814, 6) && Follows(271, 277);
      case 3 => c := 6; assert CubeOf(281, 0x8cc70208, 6) && Follows(277, 281);
      case 4 => c := 6; assert CubeOf(283, 0x90befffa, 6) && Follows(281, 283);
      case 5 => c := 6; assert CubeOf(293, 0xa4506ceb, 6) && Follows(283, 293);
      case 6 => c := 6; assert CubeOf(307, 0xbef9a3f7, 6) && Follows(293, 307);
      case _ => c := 6; assert CubeOf(311, 0xc67178f2, 6) && Follows(307, 311);
    }
  }

  lemma StartRoot(i: nat) returns (c: nat)
    requires i < 8
    ensures |PRIMES_A| == 16 && |H0| == 8 && SquareOf(PRIMES_A[i], H0[i], c)
  {
    match i {
      case 0 => c := 1; assert SquareOf(2, 0x6a09e667, 1);
      case 1 => c := 1; assert SquareOf(3, 0xbb67ae85, 1);
      case 2 => c := 2; assert SquareOf(5, 0x3c6ef372, 2);
      case 3 => c := 2; assert SquareOf(7, 0xa54ff53a, 2);
      case 4 => c := 3; assert SquareOf(11, 0x510e527f, 3);
      case 5 => c := 3; assert SquareOf(13, 0x9b05688c, 3);
      case 6 => c := 4; assert SquareOf(17, 0x1f83d9ab, 4);
      case _ => c := 4; assert SquareOf(19, 0x5be0cd19, 4);
    }
  }

  function PrimeRow(q: nat): seq<nat>
    requires q < 4
  {
    if q == 0 then PRIMES_A else if q == 1 then PRIMES_B else if q == 2 then PRIMES_C else PRIMES_D
  }

  lemma PrimeAt(q: nat, t: nat)
    requires q < 4 && t < 16
    ensures |PRIMES| == 64 && |PrimeRow(q)| == 16 && PRIMES[16 * q + t] == PrimeRow(q)[t]
  {
    assert |PRIMES_A| == |PRIMES_B| == |PRIMES_C| == |PRIMES_D| == 16;
    hide PRIMES_A, PRIMES_B, PRIMES_C, PRIMES_D;
    assert PRIMES == PRIMES_A + PRIMES_B + PRIMES_C + PRIMES_D;
  }

  function KeyRow(q: nat): seq<Word>
    requires q < 4
  {
    if q == 0 then K_A else if q == 1 then K_B else if q == 2 then K_C else K_D
  }

  lemma KeyAt(q: nat, t: nat)
    requires q < 4 && t < 16
    ensures |K| == 64 && |KeyRow(q)| == 16 && K[16 * q + t] == KeyRow(q)[t]
  {
    assert |K_A| == 16 && |K_B| == 16 && |K_C| == 16 && |K_D| == 16;
    hide K_A, K_B, K_C, K_D;
    assert K == K_A + K_B + K_C + K_D;
  }

  lemma Ends()
    ensures |PRIMES_A| == |PRIMES_B| == |PRIMES_C| == |PRIMES_D| == 16
    ensures |K_A| == |K_B| == |K_C| == |K_D| == 16
    ensures PRIMES_A[7] == 19 && PRIMES_A[15] == 53 && PRIMES_B[7] == 89 && PRIMES_B[15] == 131
    ensures PRIMES_C[7] == 173 && PRIMES_C[15] == 223 && PRIMES_D[7] == 263
  {}

  lemma RowRoot(q: nat, t: nat) returns (c: nat)
    requires q < 4 && t < 16
    ensures |PrimeRow(q)| == |KeyRow(q)| == 16 && (q > 0 ==> |PrimeRow(q - 1)| == 16)
    ensures 1 < PrimeRow(q)[t] < 361 && CubeOf(PrimeRow(q)[t], KeyRow(q)[t], c)
    ensures Follows(if t > 0 then PrimeRow(q)[t - 1] else if q > 0 then PrimeRow(q - 1)[15] else 1, PrimeRow(q)[t])
  {
    Ends();
    hide K_A, K_B, K_C, K_D, PRIMES_A, PRIMES_B, PRIMES_C, PRIMES_D, CubeOf, Follows;
    if t < 8 {
      match q {
        case 0 => c := RootsA0(t);
        case 1 => c := RootsB0(t);
        case 2 => c := RootsC0(t);
        case _ => c := RootsD0(t);
      }
    } else {
      match q {
        case 0 => c := RootsA1(t - 8);
        case 1 => c := RootsB1(t - 8);
        case 2 => c := RootsC1(t - 8);
        case _ => c := RootsD1(t - 8);
      }
    }
  }

  lemma RootAt(q: nat, t: nat) returns (c: nat)
    requires q < 4 && t < 16
    ensures |PRIMES| == |K| == 64 && 1 < PRIMES[16 * q + t] < 361 && CubeOf(PRIMES[16 * q + t], K[16 * q + t], c)
    ensures Follows(if q == 0 && t == 0 then 1 else PRIMES[16 * q + t - 1], PRIMES[16 * q + t])
  {
    hide *;
    KeyAt(q, t);
    PrimeAt(q, t);
    c := RowRoot(q, t);
    if t > 0 {
      PrimeAt(q, t - 1);
    } else if q > 0 {
      PrimeAt(q - 1, 15);
    }
  }

  /** No small prime divides n, unless it is n. */
  predicate Sieved(n: nat) {
    && (n % 2 != 0 || n == 2) && (n % 3 != 0 || n == 3) && (n % 5 != 0 || n == 5) && (n % 7 != 0 || n == 7)
    && (n % 11 != 0 || n == 11) && (n % 13 != 0 || n == 13) && (n % 17 != 0 || n == 17)
  }

  lemma PrimeIsSieved(n: nat)
    requires Prime(n)
    ensures Sieved(n)
  {
    assert n % 2 == 0 ==> Divides(2, n);
    assert n % 3 == 0 ==> Divides(3, n);
    assert n % 5 == 0 ==> Divides(5, n);
    assert n % 7 == 0 ==> Divides(7, n);
    assert n % 11 == 0 ==> Divides(11, n);
    assert n % 13 == 0 ==> Divides(13, n);
    assert n % 17 == 0 ==> Divides(17, n);
  }

  lemma Multiple(n: nat, d: nat, q: nat)
    requires q > 0 && d > 0 && n % d == 0 && d % q == 0
    ensures n % q == 0
  {
    var a, b := n / d, d / q;
    assert n == a * b * q;
    QuotientIs(n, q, a * b, 0);
  }

  lemma SmallFactor(n: nat, d: nat)
    requires Sieved(n) && 1 < d <= 18 && d < n
    ensures n % d != 0
  {
    hide Sieved;
    var q := if d % 2 == 0 then 2 else if d % 3 == 0 then 3 else if d % 5 == 0 then 5 else d;
    assert q in [2, 3, 5, 7, 11, 13, 17];
    NoDivisor(n, q);
    if n % d == 0 {
      Multiple(n, d, q);
    }
  }

  lemma NoDivisor(n: nat, q: nat)
    requires Sieved(n) && q in [2, 3, 5, 7, 11, 13, 17] && q < n
    ensures n % q != 0
  {}

  /** Below 19^2 = 361 that is enough. */
  lemma SievedIsPrime(n: nat)
    requires 1 < n < 361 && Sieved(n)
    ensures Prime(n)
  {
    hide Sieved;
    forall d: nat | 0 < d && Divides(d, n) ensures d == 1 || d == n {
      if d != 1 && d != n {
        var e := n / d;
        assert n == e * d;
        OtherFactor(n, d, e);
        SmallFactor(n, if d <= 18 then d else e);
      }
    }
  }

  lemma OtherFactor(n: nat, d: nat, e: nat)
    requires n == e * d && n > 0 && n < 361 && d > 1 && d != n
    ensures 1 < d < n && 1 < e < n && (d <= 18 || e <= 18) && n % e == 0
  {
    if e <= 1 {
      MulLe(e, 1, d);
    }
    QuotientIs(n, e, d, 0);
    if d > 18 && e > 18 {
      MulLe(19, d, 19);
      MulLe(19, e, d);
    }
    MulLe(2, e, d);
    MulLe(2, d, e);
  }

  lemma {:induction false} NoneIs(a: nat, b: nat, n: nat)
    requires NoneBetween(a, b) && a < n < b
    ensures !Sieved(n)
    decreases b - a
  {
    hide Sieved;
    if n > a + 2 {
      NoneIs(a + 2, b, n);
    } else if n == a + 1 {
      EvenIsOut(n);
    }
  }

  lemma FollowsIs(a: nat, b: nat)
    requires Follows(a, b)
    ensures a < b && Sieved(b) && NoneBetween(a, b)
  {}

  lemma EvenIsOut(n: nat)
    requires n > 2 && n % 2 == 0
    ensures !Sieved(n)
  {}

  /** PRIMES[t] is the prime that follows PRIMES[t - 1], and the first one is 2. */
  lemma PrimesAre(t: nat)
    requires t < 64
    ensures |PRIMES| == 64 && Prime(PRIMES[t]) && (t == 0 ==> PRIMES[t] == 2)
    ensures t > 0 ==> PRIMES[t - 1] < PRIMES[t] && forall n: nat :: PRIMES[t - 1] < n < PRIMES[t] ==> !Prime(n)
  {
    hide PRIMES, CubeOf, Sieved, Prime, K, Follows, NoneBetween;
    var c := RootAt(t / 16, t % 16);
    var p := PRIMES[t];
    assert 16 * (t / 16) + t % 16 == t;
    assert t == 0 <==> t / 16 == 0 && t % 16 == 0;
    assert 16 * (t / 16) + t % 16 - 1 == t - 1;
    FollowsIs(if t == 0 then 1 else PRIMES[t - 1], p);
    SievedIsPrime(p);
    if t > 0 {
      forall n: nat | PRIMES[t - 1] < n < p ensures !Prime(n) {
        NoneIs(PRIMES[t - 1], p, n);
        if Prime(n) {
          PrimeIsSieved(n);
        }
      }
    }
  }

  /** The constant of round t is 2^32 times the fraction of the cube root of the prime, rounded down. */
  lemma ConstantsAre(t: nat) returns (c: nat)
    requires t < 64
    ensures |K| == |PRIMES| == 64 && c * c * c < PRIMES[t] < (c + 1) * (c + 1) * (c + 1)
    ensures var x := 0x1_0000_0000 * c + Constant(t);
            x * x * x <= 0x1_0000_0000_0000_0000_0000_0000 * PRIMES[t] < (x + 1) * (x + 1) * (x + 1)
  {
    hide PRIMES, K, Follows;
    c := RootAt(t / 16, t % 16);
  }

  /** Likewise the initial chaining value and the square roots of the first 8 primes. */
  lemma StartIs(i: nat) returns (c: nat)
    requires i < 8
    ensures |H0| == 8 && |PRIMES| == 64 && c * c < PRIMES[i] < (c + 1) * (c + 1)
    ensures var x := 0x1_0000_0000 * c + H0[i]; x * x <= 0x1_0000_0000_0000_0000 * PRIMES[i] < (x + 1) * (x + 1)
  {
    PrimeAt(0, i);
    hide PRIMES, PRIMES_A, H0;
    c := StartRoot(i);
  }
}
