/** The tables of KeccakF-1600-reference.c, filled by its loops, and the permutation of a byte buffer. */
module KeccakTables {
  import opened Arith
  import opened Digits
  import opened Bits
  import opened Words
  import opened KeccakSpec
  import opened KeccakWords
  import opened Keccak

  /** The byte s holds the register of algorithm 5 after t steps. */
  ghost predicate Holds(s: Byte, t: nat) {
    forall k :: 0 <= k < 8 ==> BitOf(s, k) == Register(t)[k]
  }

  /** The bits of x^6 + x^5 + x^4 + 1. */
  lemma TapBits()
    ensures BitOf(0x71, 0) && !BitOf(0x71, 1) && !BitOf(0x71, 2) && !BitOf(0x71, 3)
    ensures BitOf(0x71, 4) && BitOf(0x71, 5) && BitOf(0x71, 6) && !BitOf(0x71, 7)
  {
    SmallTwos();
  }

  function LfsrNext(s: Byte): Byte {
    if And(s, 0x80) != 0 then Xor(2 * s, 0x71) % 256 else 2 * s % 256
  }

  lemma DoubleBit(s: Byte, k: nat)
    ensures BitOf(2 * s, k) == (k >= 1 && BitOf(s, k - 1))
  {
    hide BitOf;
    SmallTwos();
    ScaledBit(s, 1, k);
  }

  lemma NextBit(s: Byte, k: nat)
    requires k < 8
    ensures BitOf(LfsrNext(s), k) == ((k >= 1 && BitOf(s, k - 1)) != (BitOf(s, 7) && BitOf(0x71, k)))
  {
    hide Two, Xor, And, Bit;
    SmallTwos();
    AndPower(s, 7);
    DoubleBit(s, k);
    XorBit(2 * s, 0x71, k);
    ModBit(Xor(2 * s, 0x71), 8, k);
    ModBit(2 * s, 8, k);
  }

  lemma HoldsStep(s: Byte, t: nat)
    requires Holds(s, t)
    ensures Holds(LfsrNext(s), t + 1)
  {
    hide BitOf, LfsrNext;
    TapBits();
    forall k | 0 <= k < 8 ensures BitOf(LfsrNext(s), k) == Register(t + 1)[k] {
      NextBit(s, k);
    }
  }

  lemma HoldsStart()
    ensures Holds(1, 0)
  {
    SmallTwos();
    assert Register(0) == [true, false, false, false, false, false, false, false];
  }

  /** LFSR86540: the output bit and the next state. */
  method Lfsr(s: Byte, ghost t: nat) returns (result: bool, next: Byte)
    requires Holds(s, t)
    ensures result == Register(t)[0] && next == LfsrNext(s) && Holds(next, t + 1)
  {
    hide Two, Xor, Bit, Register;
    SmallTwos();
    AndPower(s, 0);
    result := And(s, 0x01) != 0;
    assert result == BitOf(s, 0);
    HoldsStep(s, t);
    next := if And(s, 0x80) != 0 then Xor(2 * s, 0x71) % 256 else 2 * s % 256;
  }

  lemma {:induction false} ConstantAbove(ir: nat, n: nat, z: nat)
    requires z >= Two(n) - 1
    ensures !ConstantBit(ir, n, z)
  {
    hide Rc;
    if n > 0 {
      ConstantAbove(ir, n - 1, z);
    }
  }

  lemma OneBit(k: nat)
    requires k < 64
    ensures LaneBit(1, 0, k) == (k == 0)
  {
    hide Two, Bit;
    if k == 0 {
      BitZero(1);
    } else if k < 32 {
      BitStep(1, k);
      ZeroBit(k - 1);
    } else {
      ZeroBit(k % 32);
    }
  }

  /** XORing the rotated 1 into a constant sets bit n. */
  lemma XorRotated(c0: Word, c1: Word, n: nat, z: nat)
    requires n < 64 && z < 64
    ensures LaneBit(XorWord(c0, RolWord(1, 0, n, 0)), XorWord(c1, RolWord(1, 0, n, 1)), z) == (LaneBit(c0, c1, z) != (z == n))
  {
    hide BitOf, Xor, RolWord;
    var h, b := z / 32, z % 32;
    XorBit(c0, RolWord(1, 0, n, 0), b);
    XorBit(c1, RolWord(1, 0, n, 1), b);
    RolBit(1, 0, n, h, b);
    OneBit((32 * h + b + 64 - n % 64) % 64);
  }

  lemma ConstantStep(c0: Word, c1: Word, ir: nat, n: nat, bit: bool, d0: Word, d1: Word)
    requires IsConstant(c0, c1, ir, n) && n < 7 && bit == Rc(n + 7 * ir)
    requires d0 == if bit then XorWord(c0, RolWord(1, 0, Two(n) - 1, 0)) else c0
    requires d1 == if bit then XorWord(c1, RolWord(1, 0, Two(n) - 1, 1)) else c1
    ensures IsConstant(d0, d1, ir, n + 1)
  {
    hide BitOf, XorWord, RolWord, LaneBit, Rc;
    SmallTwos();
    TwoUp(n, 6);
    forall z | 0 <= z < 64 ensures LaneBit(d0, d1, z) == ConstantBit(ir, n + 1, z) {
      if bit {
        XorRotated(c0, c1, Two(n) - 1, z);
      }
      ConstantAbove(ir, n, Two(n) - 1);
    }
  }

  lemma ConstantStart(ir: nat)
    ensures IsConstant(0, 0, ir, 0)
  {
    hide Bit;
    forall z | 0 <= z < 64 ensures LaneBit(0, 0, z) == ConstantBit(ir, 0, z) {
      ZeroBit(z % 32);
    }
  }

  /** One constant of KeccakInitializeRoundConstants. */
  method RoundConstant(constants: array<Word>, i: nat, s: Byte) returns (state: Byte)
    requires constants.Length == 48 && i < 24 && Holds(s, 7 * i)
    modifies constants
    ensures Holds(state, 7 * i + 7) && IsConstant(constants[2 * i], constants[2 * i + 1], i, 7)
    ensures forall k :: 0 <= k < 48 && !(2 * i <= k < 2 * i + 2) ==> constants[k] == old(constants[k])
  {
    hide Holds, IsConstant, XorWord, RolWord, Two, LfsrNext, Register;
    state := s;
    constants[2 * i], constants[2 * i + 1] := 0, 0;
    ConstantStart(i);
    var temp, result := new Word[2], new Word[2];
    temp[0], temp[1] := 1, 0;
    for j := 0 to 7
      invariant Holds(state, 7 * i + j) && IsConstant(constants[2 * i], constants[2 * i + 1], i, j)
      invariant temp[0] == 1 && temp[1] == 0
      invariant forall k :: 0 <= k < 48 && !(2 * i <= k < 2 * i + 2) ==> constants[k] == old(constants[k])
    {
      var bitPosition := Two(j) - 1;
      ghost var c0, c1 := constants[2 * i], constants[2 * i + 1];
      var bit;
      bit, state := Lfsr(state, 7 * i + j);
      if bit {
        Rol(result, 0, temp, 0, bitPosition);
        constants[2 * i] := XorWord(constants[2 * i], result[0]);
        constants[2 * i + 1] := XorWord(constants[2 * i + 1], result[1]);
      }
      ConstantStep(c0, c1, i, j, bit, constants[2 * i], constants[2 * i + 1]);
    }
  }

  /** The lanes in the order algorithm 2 visits them. */
  const VISITS: seq<nat> := [1, 10, 7, 11, 17, 18, 3, 5, 16, 8, 21, 24, 4, 15, 23, 19, 13, 12, 2, 20, 14, 22, 9, 6]

  /** The time lane l + 1 is visited. */
  const TIMES: seq<nat> := [0, 18, 6, 12, 7, 23, 2, 9, 22, 1, 3, 17, 16, 20, 13, 8, 4, 5, 15, 19, 10, 21, 14, 11]

  /** The offset of the lane visited at time t, modulo the lane's length. */
  function Triangle(t: nat): nat { (t + 1) * (t + 2) / 2 % 64 }

  lemma VisitOffset(t: nat)
    requires t < 24
    ensures VISITS[t] < 25 && OFFSETS[VISITS[t]] == (t + 1) * (t + 2) / 2
  {}

  lemma VisitStep(t: nat)
    requires t < 23
    ensures VISITS[t + 1] == 5 * ((2 * (VISITS[t] % 5) + 3 * (VISITS[t] / 5)) % 5) + VISITS[t] / 5
  {
    if t < 12 {
      EarlyVisit(t);
    } else {
      LateVisit(t);
    }
  }

  lemma EarlyVisit(t: nat)
    requires t < 12
    ensures VISITS[t + 1] == 5 * ((2 * (VISITS[t] % 5) + 3 * (VISITS[t] / 5)) % 5) + VISITS[t] / 5
  {}

  lemma LateVisit(t: nat)
    requires 12 <= t < 23
    ensures VISITS[t + 1] == 5 * ((2 * (VISITS[t] % 5) + 3 * (VISITS[t] / 5)) % 5) + VISITS[t] / 5
  {}

  lemma TimeIs(l: nat)
    requires 0 < l < 25
    ensures TIMES[l - 1] < 24 && VISITS[TIMES[l - 1]] == l
  {}

  /** The offsets of the lanes visited before time t. */
  ghost predicate OffsetsDone(offsets: seq<nat>, t: nat) {
    |offsets| == 25 && t <= 24 && offsets[0] == 0 && forall s :: 0 <= s < t ==> VISITS[s] < 25
                                                                                && offsets[VISITS[s]] == LaneOffset(VISITS[s])
  }

  lemma OffsetsStep(offsets: seq<nat>, t: nat, l: nat, offsets': seq<nat>)
    requires OffsetsDone(offsets, t) && t < 24 && l == VISITS[t] && 0 < l < 25
    requires offsets' == offsets[l := Triangle(t)]
    ensures OffsetsDone(offsets', t + 1)
  {
    VisitOffset(t);
    FirstOffset();
    LaneOffsetOf(l);
    forall s | 0 <= s < t + 1 ensures VISITS[s] < 25 && offsets'[VISITS[s]] == LaneOffset(VISITS[s]) {
      VisitOffset(s);
    }
  }

  lemma OffsetsEnd(offsets: seq<nat>)
    requires OffsetsDone(offsets, 24)
    ensures forall l :: 0 <= l < 25 ==> offsets[l] == LaneOffset(l)
  {
    FirstOffset();
    forall l | 0 <= l < 25 ensures offsets[l] == LaneOffset(l) {
      if l > 0 {
        TimeIs(l);
      }
    }
  }

  lemma FirstOffset()
    ensures LaneOffset(0) == 0
  {}

  lemma LaneOffsetOf(l: nat)
    requires l < 25
    ensures LaneOffset(l) == OFFSETS[l] % 64
  {}

  lemma VisitPositive(t: nat)
    requires t < 24
    ensures 0 < VISITS[t] < 25
  {}

  /** The walk from (x, y) to (y, 2 x + 3 y). */
  lemma NextVisit(t: nat, x: nat, y: nat)
    requires t < 24 && x < 5 && y < 5 && 5 * y + x == VISITS[t]
    ensures 0 <= (0 * x + 1 * y) % 5 < 5 && 0 <= (2 * x + 3 * y) % 5 < 5
    ensures t < 23 ==> 5 * ((2 * x + 3 * y) % 5) + (0 * x + 1 * y) % 5 == VISITS[t + 1]
  {
    LaneNumber(y, x);
    QuotientIs(y, 5, 0, y);
    if t < 23 {
      VisitStep(t);
    }
  }

  /** KeccakInitializeRhoOffsets. */
  method RhoOffsets() returns (offsets: array<nat>)
    ensures fresh(offsets) && offsets.Length == 25 && forall l :: 0 <= l < 25 ==> offsets[l] == LaneOffset(l)
  {
    hide LaneOffset, OffsetsDone, Triangle;
    offsets := new nat[25];
    offsets[0] := 0;
    var x, y := 1, 0;
    assert OffsetsDone(offsets[..], 0) by { OffsetsStart(offsets[..]); }
    FirstVisit();
    for t := 0 to 24
      invariant 0 <= x < 5 && 0 <= y < 5 && (t < 24 ==> 5 * y + x == VISITS[t])
      invariant OffsetsDone(offsets[..], t)
    {
      VisitPositive(t);
      NextVisit(t, x, y);
      OffsetsStep(offsets[..], t, 5 * y + x, offsets[..][5 * y + x := Triangle(t)]);
      offsets[5 * y + x] := Triangle(t);
      var newX := (0 * x + 1 * y) % 5;
      var newY := (2 * x + 3 * y) % 5;
      x := newX;
      y := newY;
    }
    OffsetsEnd(offsets[..]);
  }

  lemma OffsetsStart(offsets: seq<nat>)
    requires |offsets| == 25 && offsets[0] == 0
    ensures OffsetsDone(offsets, 0)
  {}

  lemma FirstVisit()
    ensures VISITS[0] == 1
  {}

  /** The global tables, as KeccakInitialize leaves them. */
  class Tables {
    const offsets: array<nat>
    const constants: array<Word>

    ghost predicate Valid()
      reads offsets, constants
    {
      && offsets.Length == 25 && (forall l :: 0 <= l < 25 ==> offsets[l] == LaneOffset(l))
      && constants.Length == 48 && (forall i :: 0 <= i < 24 ==> IsConstant(constants[2 * i], constants[2 * i + 1], i, 7))
    }

    constructor ()
      ensures Valid() && fresh(offsets) && fresh(constants)
    {
      hide LaneOffset, IsConstant, Holds;
      var c := RoundConstants();
      var o := RhoOffsets();
      constants := c;
      offsets := o;
    }
  }

  /** KeccakInitializeRoundConstants. */
  method RoundConstants() returns (constants: array<Word>)
    ensures fresh(constants) && constants.Length == 48
    ensures forall i :: 0 <= i < 24 ==> IsConstant(constants[2 * i], constants[2 * i + 1], i, 7)
  {
    hide IsConstant, Holds;
    constants := new Word[48];
    var state: Byte := 1;
    HoldsStart();
    for i := 0 to 24
      invariant Holds(state, 7 * i)
      invariant forall r :: 0 <= r < i ==> IsConstant(constants[2 * r], constants[2 * r + 1], r, 7)
    {
      state := RoundConstant(constants, i, state);
    }
  }

  lemma RoundIs(w: Lanes, c0: Word, c1: Word, i: nat)
    requires IsConstant(c0, c1, i, 7)
    ensures StateBits(IotaWords(ChiWords(PiWords(RhoWords(ThetaWords(w)))), c0, c1)) == Round(StateBits(w), i)
  {
    hide IsConstant, StateBits, Iota, Chi, Pi, Rho, Theta, IotaWords, ChiWords, PiWords, RhoWords, ThetaWords;
    ThetaIs(w);
    RhoIs(ThetaWords(w));
    PiIs(RhoWords(ThetaWords(w)));
    ChiIs(PiWords(RhoWords(ThetaWords(w))));
    IotaIs(ChiWords(PiWords(RhoWords(ThetaWords(w)))), c0, c1, i);
  }

  /** KeccakPermutationOnWords. */
  method PermuteWords(A: array<Word>, tables: Tables)
    requires A.Length == 50 && tables.Valid() && A != tables.constants
    modifies A
    ensures StateBits(A[..]) == KeccakF(old(StateBits(A[..])))
  {
    hide StateBits, IsConstant, LaneOffset, Round, IotaWords, ChiWords, PiWords, RhoWords, ThetaWords;
    for i := 0 to 24
      invariant StateBits(A[..]) == Rounds(old(StateBits(A[..])), i)
    {
      ghost var w: Lanes := A[..];
      ThetaStep(A);
      RhoStep(A, tables.offsets);
      PiStep(A);
      ChiStep(A);
      IotaStep(A, tables.constants, i);
      RoundIs(w, tables.constants[2 * i], tables.constants[2 * i + 1], i);
    }
  }

  /** The bits of a byte string, least significant bit of each byte first. */
  function BytesBits(s: seq<Byte>): (t: seq<bool>)
    ensures |t| == 8 * |s|
  {
    seq(8 * |s|, k requires 0 <= k < 8 * |s| => BitOf(s[k / 8], k % 8))
  }

  /** Words read from a byte buffer, least significant byte first, have its bits. */
  lemma CastBits(w: Lanes, s: seq<Byte>)
    requires |s| == 200 && forall i :: 0 <= i < 50 ==> w[i] == Num(s[4 * i..4 * i + 4])
    ensures StateBits(w) == BytesBits(s)
  {
    hide Bit, Num;
    forall k | 0 <= k < 1600 ensures StateBits(w)[k] == BytesBits(s)[k] {
      var i, j := k / 32, k % 32;
      DigitBit(s[4 * i..4 * i + 4], j);
      assert s[4 * i..4 * i + 4][j / 8] == s[4 * i + j / 8];
      assert k / 8 == 4 * i + j / 8 && k % 8 == j % 8;
    }
  }

  /** The byte buffer as words: the cast of KeccakPermutation on a little-endian machine. */
  method LoadWords(buffer: array<Byte>) returns (A: array<Word>)
    requires buffer.Length == 200
    ensures fresh(A) && A.Length == 50 && StateBits(A[..]) == BytesBits(buffer[..])
  {
    hide Num, BytesBits, StateBits;
    A := new Word[50];
    for i := 0 to 50
      invariant forall k :: 0 <= k < i ==> A[k] == Num(buffer[..][4 * k..4 * k + 4])
    {
      A[i] := WordOf(buffer, 4 * i);
    }
    CastBits(A[..], buffer[..]);
  }

  method WordOf(buffer: array<Byte>, o: nat) returns (w: Word)
    requires o + 4 <= buffer.Length
    ensures w == Num(buffer[..][o..o + 4])
  {
    hide Num;
    w := (buffer[o] as int) + 0x100 * (buffer[o + 1] as int) + 0x1_0000 * (buffer[o + 2] as int)
    + 0x100_0000 * (buffer[o + 3] as int);
    FourDigits(buffer[o], buffer[o + 1], buffer[o + 2], buffer[o + 3]);
    assert buffer[..][o..o + 4] == [buffer[o], buffer[o + 1], buffer[o + 2], buffer[o + 3]];
  }

  /** The words back in the byte buffer. */
  method StoreWords(buffer: array<Byte>, A: array<Word>)
    requires buffer.Length == 200 && A.Length == 50
    modifies buffer
    ensures BytesBits(buffer[..]) == StateBits(A[..])
  {
    hide Num, BytesBits, StateBits;
    for i := 0 to 50
      invariant forall k :: 0 <= k < i ==> A[k] == Num(buffer[..][4 * k..4 * k + 4])
    {
      ghost var before := buffer[..];
      StoreWord(buffer, 4 * i, A[i]);
      forall k | 0 <= k < i ensures A[k] == Num(buffer[..][4 * k..4 * k + 4]) {
        assert buffer[..][4 * k..4 * k + 4] == before[4 * k..4 * k + 4];
      }
    }
    CastBits(A[..], buffer[..]);
  }

  method StoreWord(buffer: array<Byte>, o: nat, w: Word)
    requires o + 4 <= buffer.Length
    modifies buffer
    ensures Num(buffer[..][o..o + 4]) == w
    ensures forall k :: 0 <= k < buffer.Length && !(o <= k < o + 4) ==> buffer[k] == old(buffer[k])
  {
    hide Num;
    var s := WordBytes(w);
    buffer[o] := s[0];
    buffer[o + 1] := s[1];
    buffer[o + 2] := s[2];
    buffer[o + 3] := s[3];
    WordBytesValue(w);
    assert buffer[..][o..o + 4] == s;
  }

  /** KeccakPermutation: the buffer's bit string goes through Keccak-f[1600]. */
  method Permute(buffer: array<Byte>, tables: Tables)
    requires buffer.Length == 200 && tables.Valid()
    modifies buffer
    ensures BytesBits(buffer[..]) == KeccakF(old(BytesBits(buffer[..])))
  {
    hide BytesBits, StateBits, KeccakF, IsConstant, LaneOffset;
    var A := LoadWords(buffer);
    PermuteWords(A, tables);
    StoreWords(buffer, A);
  }
}
