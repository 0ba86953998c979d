/** sha256_transform: the rounds with rotated register names over a circular 16-word schedule. */
module Sha256Rounds {
  import opened Arith
  import opened Digits
  import opened Bits
  import opened Words
  import opened Sha256Spec

  /** MATH_ROTATE, a circular left shift. */
  function Rotate(a: Word, n: nat): Word
    requires 0 < n < 32
  {
    OrWord(Shl(a, n), Shr(a, 32 - n))
  }

  function BigSigma0Macro(x: Word): Word { XorWord(XorWord(Rotate(x, 30), Rotate(x, 19)), Rotate(x, 10)) }

  function BigSigma1Macro(x: Word): Word { XorWord(XorWord(Rotate(x, 26), Rotate(x, 21)), Rotate(x, 7)) }

  function SmallSigma0Macro(x: Word): Word { XorWord(XorWord(Rotate(x, 25), Rotate(x, 14)), Shr(x, 3)) }

  function SmallSigma1Macro(x: Word): Word { XorWord(XorWord(Rotate(x, 15), Rotate(x, 13)), Shr(x, 10)) }

  /** A left rotation is the right rotation by the rest of the word. */
  lemma RotateIs(a: Word, n: nat)
    requires 0 < n < 32
    ensures Rotate(a, n) == Rotr(a, 32 - n)
  {
    hide Or;
    OrCommutes(Shl(a, n), Shr(a, 32 - n));
  }

  /** The macros are the functions of section 4.1.2. */
  lemma SigmasAre(x: Word)
    ensures BigSigma0Macro(x) == BigSigma0(x) && BigSigma1Macro(x) == BigSigma1(x)
    ensures SmallSigma0Macro(x) == SmallSigma0(x) && SmallSigma1Macro(x) == SmallSigma1(x)
  {
    hide XorWord, Rotate, Rotr, Shr;
    RotateIs(x, 30);
    RotateIs(x, 19);
    RotateIs(x, 10);
    RotateIs(x, 26);
    RotateIs(x, 21);
    RotateIs(x, 7);
    RotateIs(x, 25);
    RotateIs(x, 14);
    RotateIs(x, 15);
    RotateIs(x, 13);
  }

  /** The position of register j in round i: register a moves down one place each round. */
  function Position(i: nat, j: nat): (p: nat)
    requires j < 8
    ensures p < 8
  {
    if j >= i % 8 then j - i % 8 else j + 8 - i % 8
  }

  /** The registers of round i. */
  function RegistersOf(v: Chain, i: nat): Registers {
    Registers(v[Position(i, 0)], v[Position(i, 1)], v[Position(i, 2)], v[Position(i, 3)],
              v[Position(i, 4)], v[Position(i, 5)], v[Position(i, 6)], v[Position(i, 7)])
  }

  function Slot(n: nat, k: nat): (p: nat)
    ensures p < 16
  {
    (n + k) % 16
  }

  /** The words n - 16 to n - 1 of the schedule are in the circular buffer. */
  ghost predicate Window(x: seq<Word>, m: Block, n: nat) {
    |x| == 16 && n >= 16 && forall k :: 0 <= k < 16 ==> x[Slot(n, k)] == Schedule(m, n - 16 + k)
  }

  lemma Commute(a: int, b: int)
    ensures Plus32(a, b) == Plus32(b, a)
  {}

  lemma Regroup32(a: int, b: int, c: int)
    ensures Plus32(Plus32(a, b), c) == Plus32(a, Plus32(b, c))
  {
    var m := 0x1_0000_0000;
    assert (a + b) % m == a + b - (a + b) / m * m;
    assert (b + c) % m == b + c - (b + c) / m * m;
    Drop(a + b + c, (a + b) / m);
    Drop(a + b + c, (b + c) / m);
  }

  lemma Drop(a: int, q: int)
    ensures (a - q * 0x1_0000_0000) % 0x1_0000_0000 == a % 0x1_0000_0000
  {}

  lemma SumOrder(s0: Word, s1: Word, x9: Word, x0: Word)
    ensures Plus32(x0, Plus32(Plus32(s0, s1), x9)) == Plus32(Plus32(Plus32(s1, x9), s0), x0)
  {
    hide Plus32;
    Commute(x0, Plus32(Plus32(s0, s1), x9));
    Regroup32(s0, s1, x9);
    Commute(s0, Plus32(s1, x9));
  }

  /** The new word of the schedule. */
  lemma WindowWord(x: seq<Word>, m: Block, n: nat)
    requires Window(x, m, n)
    ensures Plus32(x[n % 16], Plus32(Plus32(SmallSigma0(x[(n + 1) % 16]), SmallSigma1(x[(n + 14) % 16])),
            x[(n + 9) % 16])) == Schedule(m, n)
  {
    hide SmallSigma0, SmallSigma1, Plus32, Schedule;
    assert Slot(n, 0) == n % 16 && Slot(n, 1) == (n + 1) % 16 && Slot(n, 14) == (n + 14) % 16 && Slot(n, 9) == (n + 9) % 16;
    SumOrder(SmallSigma0(x[(n + 1) % 16]), SmallSigma1(x[(n + 14) % 16]), x[(n + 9) % 16], x[n % 16]);
    ScheduleIs(m, n);
  }

  lemma ScheduleIs(m: Block, n: nat)
    requires n >= 16
    ensures Schedule(m, n) == Plus32(Plus32(Plus32(SmallSigma1(Schedule(m, n - 2)), Schedule(m, n - 7)),
            SmallSigma0(Schedule(m, n - 15))), Schedule(m, n - 16))
  {
    hide SmallSigma0, SmallSigma1, Plus32;
  }

  lemma WindowStep(x: seq<Word>, m: Block, n: nat, w: Word)
    requires Window(x, m, n) && w == Schedule(m, n)
    ensures Window(x[n % 16 := w], m, n + 1)
  {
    hide Schedule, Slot;
    var y, n' := x[n % 16 := w], n + 1;
    forall k | 0 <= k < 16 ensures y[Slot(n', k)] == Schedule(m, n' - 16 + k) {
      NextSlot(n, k);
      assert k < 15 ==> x[Slot(n, k + 1)] == Schedule(m, n - 16 + (k + 1));
    }
  }

  lemma NextSlot(n: nat, k: nat)
    requires k < 16
    ensures Slot(n + 1, k) == Slot(n, k + 1)
    ensures Slot(n, k + 1) == n % 16 <==> k == 15
  {}

  lemma Rotated(i: nat)
    ensures Position(i + 1, 0) == Position(i, 7) && Position(i + 1, 1) == Position(i, 0)
            && Position(i + 1, 2) == Position(i, 1) && Position(i + 1, 3) == Position(i, 2)
    ensures Position(i + 1, 4) == Position(i, 3) && Position(i + 1, 5) == Position(i, 4)
            && Position(i + 1, 6) == Position(i, 5) && Position(i + 1, 7) == Position(i, 6)
  {
    assert (i + 1) % 8 == if i % 8 == 7 then 0 else i % 8 + 1;
  }

  lemma PlacesApart(i: nat, j: nat, k: nat)
    requires j < 8 && k < 8 && j != k
    ensures Position(i, j) != Position(i, k)
  {}

  /** The round, with its sums in the order of the macro. */
  lemma StepIs(r: Registers, k: Word, w: Word, t: Word)
    requires t == Plus32(w, Plus32(Plus32(Plus32(r.h, BigSigma1(r.e)), Ch(r.e, r.f, r.g)), k))
    ensures Step(r, k, w) == Registers(Plus32(Plus32(BigSigma0(r.a), Maj(r.a, r.b, r.c)), t), r.a, r.b, r.c,
            Plus32(r.d, t), r.e, r.f, r.g)
  {
    hide Plus32, BigSigma0, BigSigma1, Ch, Maj;
    Commute(w, Plus32(Plus32(Plus32(r.h, BigSigma1(r.e)), Ch(r.e, r.f, r.g)), k));
    Commute(t, Plus32(BigSigma0(r.a), Maj(r.a, r.b, r.c)));
  }

  /** Overwriting the places of d and h turns the registers into those of the next round. */
  lemma NextRegisters(v: Chain, i: nat, t: Word, u: Word)
    ensures var r, d, h := RegistersOf(v, i), Position(i, 3), Position(i, 7);
            RegistersOf(v[d := t][h := u], i + 1) == Registers(u, r.a, r.b, r.c, t, r.e, r.f, r.g)
  {
    hide Position;
    Rotated(i);
    PlacesApart(i, 0, 3);
    PlacesApart(i, 0, 7);
    PlacesApart(i, 1, 3);
    PlacesApart(i, 1, 7);
    PlacesApart(i, 2, 3);
    PlacesApart(i, 2, 7);
    PlacesApart(i, 3, 7);
    PlacesApart(i, 4, 3);
    PlacesApart(i, 4, 7);
    PlacesApart(i, 5, 3);
    PlacesApart(i, 5, 7);
    PlacesApart(i, 6, 3);
    PlacesApart(i, 6, 7);
  }

  /** The sum t of the macro. */
  method RoundSum(value: array<Word>, x: array<Word>, i: nat, e: nat, f: nat, g: nat, h: nat) returns (t: Word)
    requires value.Length == 8 && x.Length == 16 && i < |K| && e < 8 && f < 8 && g < 8 && h < 8
    ensures t == Plus32(x[i % 16], Plus32(Plus32(Plus32(value[h], BigSigma1(value[e])),
            Ch(value[e], value[f], value[g])), Constant(i)))
  {
    hide BigSigma1, BigSigma1Macro, Ch, Plus32, Constant;
    SigmasAre(value[e]);
    t := x[i % 16];
    t := Plus32(t, Plus32(Plus32(Plus32(value[h], BigSigma1Macro(value[e])), Ch(value[e], value[f], value[g])), Constant(i)));
  }

  /** The macro SHA256_ROUND_00_15, for the registers in their places of round i. */
  method Round(value: array<Word>, x: array<Word>, i: nat, a: nat, b: nat, c: nat, d: nat, e: nat, f: nat, g: nat, h: nat)
    requires value.Length == 8 && x.Length == 16 && value != x && i < |K|
    requires a == Position(i, 0) && b == Position(i, 1) && c == Position(i, 2) && d == Position(i, 3)
    requires e == Position(i, 4) && f == Position(i, 5) && g == Position(i, 6) && h == Position(i, 7)
    modifies value
    ensures RegistersOf(value[..], i + 1) == Step(old(RegistersOf(value[..], i)), Constant(i), x[i % 16])
  {
    hide BigSigma0, BigSigma1, BigSigma0Macro, BigSigma1Macro, Ch, Maj, Plus32, Constant, Position, Step;
    PlacesApart(i, 3, 7);
    ghost var v: Chain := value[..];
    SigmasAre(value[a]);
    var t := RoundSum(value, x, i, e, f, g, h);
    StepIs(RegistersOf(v, i), Constant(i), x[i % 16], t);
    value[h] := Plus32(BigSigma0Macro(value[a]), Maj(value[a], value[b], value[c]));
    value[d] := Plus32(value[d], t);
    value[h] := Plus32(value[h], t);
    NextRegisters(v, i, value[d], value[h]);
    assert value[..] == v[d := value[d]][h := value[h]];
  }

  /** The macro SHA256_ROUND_16_63: the new word of the schedule in the place of the oldest, then the round. */
  method MixedRound(value: array<Word>, x: array<Word>, i: nat, a: nat, b: nat, c: nat, d: nat, e: nat, f: nat, g: nat,
      h: nat, ghost m: Block)
    requires value.Length == 8 && x.Length == 16 && value != x && i < |K| && Window(x[..], m, i)
    requires a == Position(i, 0) && b == Position(i, 1) && c == Position(i, 2) && d == Position(i, 3)
    requires e == Position(i, 4) && f == Position(i, 5) && g == Position(i, 6) && h == Position(i, 7)
    modifies value, x
    ensures RegistersOf(value[..], i + 1) == Step(old(RegistersOf(value[..], i)), Constant(i), Schedule(m, i))
            && Window(x[..], m, i + 1)
  {
    hide SmallSigma0, SmallSigma1, SmallSigma0Macro, SmallSigma1Macro, Plus32, Window, Schedule, RegistersOf, Step,
         Constant, Position;
    ghost var y := x[..];
    WindowWord(y, m, i);
    var s0 := x[(i + 1) % 16];
    SigmasAre(s0);
    s0 := SmallSigma0Macro(s0);
    var s1 := x[(i + 14) % 16];
    SigmasAre(s1);
    s1 := SmallSigma1Macro(s1);
    x[i % 16] := Plus32(x[i % 16], Plus32(Plus32(s0, s1), x[(i + 9) % 16]));
    WindowStep(y, m, i, x[i % 16]);
    assert x[..] == y[i % 16 := x[i % 16]];
    Round(value, x, i, a, b, c, d, e, f, g, h);
  }

  /** The first 16 words of the schedule. */
  ghost predicate Loaded(x: seq<Word>, m: Block) {
    |x| == 16 && forall k :: 0 <= k < 16 ==> x[k] == Schedule(m, k)
  }

  lemma LoadedIsWindow(x: seq<Word>, m: Block)
    requires Loaded(x, m)
    ensures Window(x, m, 16)
  {
    hide Schedule;
  }

  /** The place of register j in a round k of eight. */
  function Place(j: nat, k: nat): int { if j >= k then j - k else j + 8 - k }

  lemma PlacesAt(i: nat, k: nat)
    requires k < 8 && i % 8 == 0
    ensures Position(i + k, 0) == Place(0, k) && Position(i + k, 1) == Place(1, k) && Position(i + k, 2) == Place(2, k)
            && Position(i + k, 3) == Place(3, k)
    ensures Position(i + k, 4) == Place(4, k) && Position(i + k, 5) == Place(5, k) && Position(i + k, 6) == Place(6, k)
            && Position(i + k, 7) == Place(7, k)
  {
    assert (i + k) % 8 == k;
  }

  /** Rounds i to i + 7 over the loaded block, for i a multiple of 8: eight rounds bring the registers back to their places. */
  method EightRounds(value: array<Word>, x: array<Word>, i: nat, ghost m: Block, ghost r: Registers)
    requires value.Length == 8 && x.Length == 16 && value != x && i % 8 == 0 && i + 8 <= 16 && Loaded(x[..], m)
    requires RegistersOf(value[..], i) == Rounds(r, m, i)
    modifies value
    ensures RegistersOf(value[..], i + 8) == Rounds(r, m, i + 8)
  {
    hide Schedule, RegistersOf, Step, Constant, Position, Rounds, Loaded;
    LoadedStep(x[..], r, m, i);
    PlacesAt(i, 0);
    Round(value, x, i + 0, 0, 1, 2, 3, 4, 5, 6, 7);
    LoadedStep(x[..], r, m, i + 1);
    PlacesAt(i, 1);
    Round(value, x, i + 1, 7, 0, 1, 2, 3, 4, 5, 6);
    LoadedStep(x[..], r, m, i + 2);
    PlacesAt(i, 2);
    Round(value, x, i + 2, 6, 7, 0, 1, 2, 3, 4, 5);
    LoadedStep(x[..], r, m, i + 3);
    PlacesAt(i, 3);
    Round(value, x, i + 3, 5, 6, 7, 0, 1, 2, 3, 4);
    LoadedStep(x[..], r, m, i + 4);
    PlacesAt(i, 4);
    Round(value, x, i + 4, 4, 5, 6, 7, 0, 1, 2, 3);
    LoadedStep(x[..], r, m, i + 5);
    PlacesAt(i, 5);
    Round(value, x, i + 5, 3, 4, 5, 6, 7, 0, 1, 2);
    LoadedStep(x[..], r, m, i + 6);
    PlacesAt(i, 6);
    Round(value, x, i + 6, 2, 3, 4, 5, 6, 7, 0, 1);
    LoadedStep(x[..], r, m, i + 7);
    PlacesAt(i, 7);
    Round(value, x, i + 7, 1, 2, 3, 4, 5, 6, 7, 0);
  }

  lemma RoundsStep(r: Registers, m: Block, n: nat)
    requires n < |K|
    ensures Rounds(r, m, n + 1) == Step(Rounds(r, m, n), Constant(n), Schedule(m, n))
  {
    hide Schedule, Step, Constant;
  }

  lemma LoadedStep(x: seq<Word>, r: Registers, m: Block, n: nat)
    requires Loaded(x, m) && n < 16
    ensures n < |K| && Rounds(r, m, n + 1) == Step(Rounds(r, m, n), Constant(n), x[n % 16])
  {
    hide Schedule, Step, Constant, Rounds;
    RoundsStep(r, m, n);
  }

  /** Rounds i to i + 7, for i a multiple of 8 from 16 on. */
  method EightMixedRounds(value: array<Word>, x: array<Word>, i: nat, ghost m: Block, ghost r: Registers)
    requires value.Length == 8 && x.Length == 16 && value != x && i % 8 == 0 && i + 8 <= |K| && Window(x[..], m, i)
    requires RegistersOf(value[..], i) == Rounds(r, m, i)
    modifies value, x
    ensures RegistersOf(value[..], i + 8) == Rounds(r, m, i + 8) && Window(x[..], m, i + 8)
  {
    hide Schedule, RegistersOf, Step, Constant, Window, Position, Rounds;
    RoundsStep(r, m, i);
    PlacesAt(i, 0);
    MixedRound(value, x, i + 0, 0, 1, 2, 3, 4, 5, 6, 7, m);
    RoundsStep(r, m, i + 1);
    PlacesAt(i, 1);
    MixedRound(value, x, i + 1, 7, 0, 1, 2, 3, 4, 5, 6, m);
    RoundsStep(r, m, i + 2);
    PlacesAt(i, 2);
    MixedRound(value, x, i + 2, 6, 7, 0, 1, 2, 3, 4, 5, m);
    RoundsStep(r, m, i + 3);
    PlacesAt(i, 3);
    MixedRound(value, x, i + 3, 5, 6, 7, 0, 1, 2, 3, 4, m);
    RoundsStep(r, m, i + 4);
    PlacesAt(i, 4);
    MixedRound(value, x, i + 4, 4, 5, 6, 7, 0, 1, 2, 3, m);
    RoundsStep(r, m, i + 5);
    PlacesAt(i, 5);
    MixedRound(value, x, i + 5, 3, 4, 5, 6, 7, 0, 1, 2, m);
    RoundsStep(r, m, i + 6);
    PlacesAt(i, 6);
    MixedRound(value, x, i + 6, 2, 3, 4, 5, 6, 7, 0, 1, m);
    RoundsStep(r, m, i + 7);
    PlacesAt(i, 7);
    MixedRound(value, x, i + 7, 1, 2, 3, 4, 5, 6, 7, 0, m);
  }
}
