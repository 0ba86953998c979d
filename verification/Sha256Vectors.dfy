/** The compression function of SHA-256 on bit-vectors, where it can be computed for given words. */
module Sha256Vectors {
  import opened Arith
  import opened Digits
  import opened Words
  import opened Sha256Spec
  import opened WordVectors

  /** The functions of section 4.1.2 of FIPS 180-4. */
  function Sum0(x: bv32): bv32 { Odd(x.RotateRight(2), x.RotateRight(13), x.RotateRight(22)) }

  function Sum1(x: bv32): bv32 { Odd(x.RotateRight(6), x.RotateRight(11), x.RotateRight(25)) }

  function Mix0(x: bv32): bv32 { Odd(x.RotateRight(7), x.RotateRight(18), x >> 3) }

  function Mix1(x: bv32): bv32 { Odd(x.RotateRight(17), x.RotateRight(19), x >> 10) }

  function Choose(x: bv32, y: bv32, z: bv32): bv32 { Exclusive(Meet(x, y), Meet(Flip(x), z)) }

  function Majority(x: bv32, y: bv32, z: bv32): bv32 { Odd(Meet(x, y), Meet(x, z), Meet(y, z)) }

  function Odd(x: bv32, y: bv32, z: bv32): bv32 { Exclusive(Exclusive(x, y), z) }

  /** The operations under names of their own, so that a proof need not look at bits. */
  function Exclusive(x: bv32, y: bv32): bv32 { x ^ y }

  function Meet(x: bv32, y: bv32): bv32 { x & y }

  function Flip(x: bv32): bv32 { !x }

  function Sum(x: bv32, y: bv32): bv32 { x + y }

  lemma ExclusiveIs(x: bv32, y: bv32)
    ensures Value(Exclusive(x, y)) == XorWord(Value(x), Value(y))
  {
    hide Value, XorWord;
    XorValue(x, y);
  }

  lemma MeetIs(x: bv32, y: bv32)
    ensures Value(Meet(x, y)) == AndWord(Value(x), Value(y))
  {
    hide Value, AndWord;
    AndValue(x, y);
  }

  lemma FlipIs(x: bv32)
    ensures Value(Flip(x)) == NotWord(Value(x))
  {
    hide Value, NotWord;
    NotValue(x);
  }

  lemma AddsUp(x: bv32, y: bv32)
    ensures Value(Sum(x, y)) == Plus32(Value(x), Value(y))
  {
    hide Value, Plus32;
    PlusValue(x, y);
  }

  lemma OddIs(x: bv32, y: bv32, z: bv32)
    ensures Value(Odd(x, y, z)) == XorWord(XorWord(Value(x), Value(y)), Value(z))
  {
    hide Value, XorWord, Exclusive;
    ExclusiveIs(x, y);
    ExclusiveIs(Exclusive(x, y), z);
  }

  lemma SumIs(x: bv32, m: nat, n: nat, p: nat)
    requires 0 < m < 32 && 0 < n < 32 && 0 < p < 32
    ensures Value(Odd(Turn(x, m), Turn(x, n), Turn(x, p)))
            == XorWord(XorWord(Rotr(Value(x), m), Rotr(Value(x), n)), Rotr(Value(x), p))
  {
    hide Odd, Value, Turn, Rotr, XorWord;
    TurnValue(x, m);
    TurnValue(x, n);
    TurnValue(x, p);
    OddIs(Turn(x, m), Turn(x, n), Turn(x, p));
  }

  lemma MixIs(x: bv32, m: nat, n: nat, p: nat)
    requires 0 < m < 32 && 0 < n < 32
    ensures Value(Odd(Turn(x, m), Turn(x, n), Fall(x, p)))
            == XorWord(XorWord(Rotr(Value(x), m), Rotr(Value(x), n)), Shr(Value(x), p))
  {
    hide Odd, Value, Turn, Fall, Rotr, Shr, XorWord;
    TurnValue(x, m);
    TurnValue(x, n);
    FallValue(x, p);
    OddIs(Turn(x, m), Turn(x, n), Fall(x, p));
  }

  lemma SumsAre(x: bv32)
    ensures Value(Sum0(x)) == BigSigma0(Value(x)) && Value(Sum1(x)) == BigSigma1(Value(x))
  {
    hide Odd, Value, Rotr, XorWord, Turn;
    SumIs(x, 2, 13, 22);
    SumIs(x, 6, 11, 25);
    TurnsAre(x);
  }

  lemma MixesAre(x: bv32)
    ensures Value(Mix0(x)) == SmallSigma0(Value(x)) && Value(Mix1(x)) == SmallSigma1(Value(x))
  {
    hide Odd, Value, Rotr, Shr, XorWord, Turn, Fall;
    MixIs(x, 7, 18, 3);
    MixIs(x, 17, 19, 10);
    TurnsAre(x);
    FallsAre(x);
  }

  lemma ChoicesAre(x: bv32, y: bv32, z: bv32)
    ensures Value(Choose(x, y, z)) == Ch(Value(x), Value(y), Value(z))
    ensures Value(Majority(x, y, z)) == Maj(Value(x), Value(y), Value(z))
  {
    hide Value, XorWord, AndWord, NotWord, Exclusive, Meet, Flip, Odd;
    MeetIs(x, y);
    MeetIs(x, z);
    MeetIs(y, z);
    FlipIs(x);
    MeetIs(Flip(x), z);
    ExclusiveIs(Meet(x, y), Meet(Flip(x), z));
    OddIs(Meet(x, y), Meet(x, z), Meet(y, z));
  }

  /** The registers of a round. */
  datatype Vector = Vector(a: bv32, b: bv32, c: bv32, d: bv32, e: bv32, f: bv32, g: bv32, h: bv32)

  function Values(v: Vector): Registers {
    Registers(Value(v.a), Value(v.b), Value(v.c), Value(v.d), Value(v.e), Value(v.f), Value(v.g), Value(v.h))
  }

  function First(v: Vector, k: bv32, w: bv32): bv32 {
    Sum(Sum(Sum(Sum(v.h, Sum1(v.e)), Choose(v.e, v.f, v.g)), k), w)
  }

  function Second(v: Vector): bv32 { Sum(Sum0(v.a), Majority(v.a, v.b, v.c)) }

  lemma FirstIs(v: Vector, k: bv32, w: bv32)
    ensures Value(First(v, k, w)) == Plus32(Plus32(Plus32(Plus32(Value(v.h), BigSigma1(Value(v.e))),
            Ch(Value(v.e), Value(v.f), Value(v.g))), Value(k)), Value(w))
  {
    hide Value, Plus32, Sum, Sum1, Choose, BigSigma1, Ch;
    SumsAre(v.e);
    ChoicesAre(v.e, v.f, v.g);
    AddsUp(v.h, Sum1(v.e));
    AddsUp(Sum(v.h, Sum1(v.e)), Choose(v.e, v.f, v.g));
    AddsUp(Sum(Sum(v.h, Sum1(v.e)), Choose(v.e, v.f, v.g)), k);
    AddsUp(Sum(Sum(Sum(v.h, Sum1(v.e)), Choose(v.e, v.f, v.g)), k), w);
  }

  /** A round, from its new values a and e. */
  lemma StepIs(v: Vector, k: bv32, w: bv32, a: bv32, e: bv32)
    requires Sum(First(v, k, w), Second(v)) == a && Sum(v.d, First(v, k, w)) == e
    ensures Step(Values(v), Value(k), Value(w)) == Values(Vector(a, v.a, v.b, v.c, e, v.e, v.f, v.g))
  {
    hide Value, Plus32, Sum, Sum0, Majority, First, BigSigma0, BigSigma1, Ch, Maj;
    FirstIs(v, k, w);
    SumsAre(v.a);
    ChoicesAre(v.a, v.b, v.c);
    AddsUp(Sum0(v.a), Majority(v.a, v.b, v.c));
    AddsUp(First(v, k, w), Second(v));
    AddsUp(v.d, First(v, k, w));
  }

  /** v after t rounds for block m and chaining value h. */
  predicate Held(h: Chain, m: Block, t: nat, v: Vector) { t <= |K| && Rounds(Start(h), m, t) == Values(v) }

  predicate InKey(t: nat, k: bv32) { t < |K| && Constant(t) == Value(k) }

  predicate InSchedule(m: Block, t: nat, w: bv32) { Schedule(m, t) == Value(w) }

  lemma RoundOn(h: Chain, m: Block, t: nat, v: Vector, k: bv32, w: bv32, a: bv32, e: bv32) returns (n: Vector)
    requires Held(h, m, t, v) && InKey(t, k) && InSchedule(m, t, w)
    requires Sum(First(v, k, w), Second(v)) == a && Sum(v.d, First(v, k, w)) == e
    ensures n == Vector(a, v.a, v.b, v.c, e, v.e, v.f, v.g) && Held(h, m, t + 1, n)
  {
    hide Value, Constant, Schedule, Step, First, Second, Sum, K;
    StepIs(v, k, w, a, e);
    n := Vector(a, v.a, v.b, v.c, e, v.e, v.f, v.g);
  }

  function Mixed(w16: bv32, w15: bv32, w7: bv32, w2: bv32): bv32 {
    Sum(Sum(Sum(Mix1(w2), w7), Mix0(w15)), w16)
  }

  /** A word of the schedule, from the four it is made of. */
  lemma WordOn(m: Block, t: nat, w16: bv32, w15: bv32, w7: bv32, w2: bv32, w: bv32)
    requires t >= 16 && InSchedule(m, t - 16, w16) && InSchedule(m, t - 15, w15) && InSchedule(m, t - 7, w7)
    requires InSchedule(m, t - 2, w2) && Mixed(w16, w15, w7, w2) == w
    ensures InSchedule(m, t, w)
  {
    hide Value, Plus32, Sum, Mix0, Mix1, SmallSigma0, SmallSigma1;
    MixesAre(w2);
    MixesAre(w15);
    AddsUp(Mix1(w2), w7);
    AddsUp(Sum(Mix1(w2), w7), Mix0(w15));
    AddsUp(Sum(Sum(Mix1(w2), w7), Mix0(w15)), w16);
  }

  /** The registers and the next 16 words of the schedule. */
  datatype Stage = Stage(v: Vector, lo: Vector, hi: Vector)

  /** s is reached after t rounds for block m and chaining value h. */
  predicate Reached(h: Chain, m: Block, t: nat, s: Stage) {
    && Held(h, m, t, s.v)
    && InSchedule(m, t, s.lo.a) && InSchedule(m, t + 1, s.lo.b) && InSchedule(m, t + 2, s.lo.c)
    && InSchedule(m, t + 3, s.lo.d) && InSchedule(m, t + 4, s.lo.e) && InSchedule(m, t + 5, s.lo.f)
    && InSchedule(m, t + 6, s.lo.g) && InSchedule(m, t + 7, s.lo.h) && InSchedule(m, t + 8, s.hi.a)
    && InSchedule(m, t + 9, s.hi.b) && InSchedule(m, t + 10, s.hi.c) && InSchedule(m, t + 11, s.hi.d)
    && InSchedule(m, t + 12, s.hi.e) && InSchedule(m, t + 13, s.hi.f) && InSchedule(m, t + 14, s.hi.g)
    && InSchedule(m, t + 15, s.hi.h)
  }

  lemma Begin(h: Chain, m: Block, v: Vector, lo: Vector, hi: Vector) returns (s: Stage)
    requires IsChain(h, v)
    requires InSchedule(m, 0, lo.a) && InSchedule(m, 1, lo.b) && InSchedule(m, 2, lo.c) && InSchedule(m, 3, lo.d)
    requires InSchedule(m, 4, lo.e) && InSchedule(m, 5, lo.f) && InSchedule(m, 6, lo.g) && InSchedule(m, 7, lo.h)
    requires InSchedule(m, 8, hi.a) && InSchedule(m, 9, hi.b) && InSchedule(m, 10, hi.c) && InSchedule(m, 11, hi.d)
    requires InSchedule(m, 12, hi.e) && InSchedule(m, 13, hi.f) && InSchedule(m, 14, hi.g) && InSchedule(m, 15, hi.h)
    ensures s == Stage(v, lo, hi) && Reached(h, m, 0, s)
  {
    hide InSchedule, Value;
    s := Stage(v, lo, hi);
  }

  function Shifted(v: Vector, w: bv32): Vector { Vector(v.b, v.c, v.d, v.e, v.f, v.g, v.h, w) }

  /** One round, with the new word of the schedule and the new values of a and e. */
  lemma Advance(h: Chain, m: Block, t: nat, s: Stage, k: bv32, w: bv32, a: bv32, e: bv32) returns (n: Stage)
    requires Reached(h, m, t, s) && InKey(t, k)
    requires Mixed(s.lo.a, s.lo.b, s.hi.b, s.hi.g) == w
    requires Sum(First(s.v, k, s.lo.a), Second(s.v)) == a && Sum(s.v.d, First(s.v, k, s.lo.a)) == e
    ensures n == Stage(Vector(a, s.v.a, s.v.b, s.v.c, e, s.v.e, s.v.f, s.v.g), Shifted(s.lo, s.hi.a), Shifted(s.hi, w))
    ensures Reached(h, m, t + 1, n)
  {
    hide K, Held, InKey, InSchedule, Mixed, First, Second, Sum;
    var v := RoundOn(h, m, t, s.v, k, s.lo.a, a, e);
    WordOn(m, t + 16, s.lo.a, s.lo.b, s.hi.b, s.hi.g, w);
    n := Stage(v, Shifted(s.lo, s.hi.a), Shifted(s.hi, w));
  }

  /** A chaining value. */
  predicate IsChain(h: Chain, v: Vector) { Start(h) == Values(v) }

  lemma CompressOn(h: Chain, m: Block, v: Vector, w: Vector)
    requires IsChain(h, v) && Held(h, m, |K|, w)
    ensures IsChain(Compress(h, m), Sums(v, w))
  {
    hide Value, Plus32, Rounds, K, Sum;
    AddsUp(v.a, w.a);
    AddsUp(v.b, w.b);
    AddsUp(v.c, w.c);
    AddsUp(v.d, w.d);
    AddsUp(v.e, w.e);
    AddsUp(v.f, w.f);
    AddsUp(v.g, w.g);
    AddsUp(v.h, w.h);
  }

  function Sums(v: Vector, w: Vector): Vector {
    Vector(Sum(v.a, w.a), Sum(v.b, w.b), Sum(v.c, w.c), Sum(v.d, w.d), Sum(v.e, w.e), Sum(v.f, w.f), Sum(v.g, w.g),
        Sum(v.h, w.h))
  }

  lemma End(h: Chain, m: Block, v: Vector, s: Stage)
    requires IsChain(h, v) && Reached(h, m, 64, s)
    ensures IsChain(Compress(h, m), Sums(v, s.v))
  {
    RowsAre(0);
    hide InSchedule, IsChain, Compress, Sums, K, Rounds, Value;
    CompressOn(h, m, v, s.v);
  }

  /** The rows of the constants. */
  lemma RowsAre(t: nat)
    requires t < 16
    ensures |K_A| == 16 && |K_B| == 16 && |K_C| == 16 && |K_D| == 16 && |K| == 64
    ensures K[t] == K_A[t] && K[16 + t] == K_B[t] && K[32 + t] == K_C[t] && K[48 + t] == K_D[t]
  {
    assert |K_A| == 16 && |K_B| == 16 && |K_C| == 16 && |K_D| == 16;
    hide K_A, K_B, K_C, K_D;
    assert K == K_A + K_B + K_C + K_D;
  }

  /** A constant is the value of its bits. */
  lemma KeyIs(row: seq<Word>, q: nat, t: nat, k: bv32)
    requires q < 4 && row == [K_A, K_B, K_C, K_D][q] && t < |row| && row[t] == Written(k)
    ensures InKey(16 * q + t, k)
  {
    hide Value, Written, K_A, K_B, K_C, K_D, K;
    WrittenIs(k);
    RowsAre(t % 16);
  }

  /** A word of the block. */
  lemma WordIs(m: Block, t: nat, a: Byte, b: Byte, c: Byte, d: Byte, w: bv32)
    requires t < 16 && m[4 * t] == a && m[4 * t + 1] == b && m[4 * t + 2] == c && m[4 * t + 3] == d
    requires BigWord(a, b, c, d) == Written(w)
    ensures InSchedule(m, t, w)
  {
    hide Value, Written;
    WrittenIs(w);
  }

  lemma WrittenZero()
    ensures Written(0) == 0
  {}

  lemma ZeroIs(m: Block, t: nat)
    requires t < 16 && m[4 * t] == 0 && m[4 * t + 1] == 0 && m[4 * t + 2] == 0 && m[4 * t + 3] == 0
    ensures InSchedule(m, t, 0)
  {
    hide InSchedule, Written;
    WrittenZero();
    WordIs(m, t, 0, 0, 0, 0, 0);
  }

  lemma NumberIs(x: bv32, n: Word)
    requires Written(x) == n
    ensures Value(x) == n
  {
    hide Value, Written;
    WrittenIs(x);
  }

  /** The bytes of a value. */
  lemma BytesAre(x: bv32, a: Byte, b: Byte, c: Byte, d: Byte)
    requires Written(x) == BigWord(a, b, c, d)
    ensures BigBytes(Value(x)) == [a, b, c, d]
  {
    hide Value, Written, BigBytes, BigWord;
    WrittenIs(x);
    BackToBytes(a, b, c, d);
  }

  lemma BackToBytes(a: Byte, b: Byte, c: Byte, d: Byte)
    ensures 0 <= BigWord(a, b, c, d) < 0x1_0000_0000 && BigBytes(BigWord(a, b, c, d)) == [a, b, c, d]
  {
    var w := BigWord(a, b, c, d);
    QuotientIs(w, 0x100_0000, a, 0x1_0000 * (b as int) + 0x100 * (c as int) + d);
    QuotientIs(w, 0x1_0000, 0x100 * (a as int) + b, 0x100 * (c as int) + d);
    QuotientIs(0x100 * (a as int) + b, 0x100, a, b);
    QuotientIs(w, 0x100, 0x1_0000 * (a as int) + 0x100 * (b as int) + c, d);
    QuotientIs(0x1_0000 * (a as int) + 0x100 * (b as int) + c, 0x100, 0x100 * (a as int) + b, c);
  }
}
