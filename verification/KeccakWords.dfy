/** The step mappings on 32-bit halves of lanes, and why they are the step mappings of FIPS 202. */
module KeccakWords {
  import opened Arith
  import opened Digits
  import opened Bits
  import opened Words
  import opened KeccakSpec

  /** 25 lanes of two words each, low word first. */
  type Lanes = s: seq<Word> | |s| == 50 witness seq(50, _ => 0)

  function Index(x: nat, y: nat, h: nat): (i: nat)
    ensures h < 2 ==> i < 50
  {
    (x % 5 + 5 * (y % 5)) * 2 + h
  }

  /** The lanes as a bit string. */
  function StateBits(w: Lanes): State { seq(1600, k requires 0 <= k < 1600 => BitOf(w[k / 32], k % 32)) }

  /** Bit k of the lane with halves lo and hi. */
  function LaneBit(lo: Word, hi: Word, k: nat): bool
    requires k < 64
  {
    BitOf(if k < 32 then lo else hi, k % 32)
  }

  lemma AtIs(w: Lanes, x: nat, y: nat, z: nat)
    ensures At(StateBits(w), x, y, z) == LaneBit(w[Index(x, y, 0)], w[Index(x, y, 1)], z % 64)
  {
    hide BitOf;
    var k := 64 * (5 * (y % 5) + x % 5) + z % 64;
    assert k / 32 == Index(x, y, z % 64 / 32) && k % 32 == z % 64 % 32;
  }

  lemma AtWord(w: Lanes, x: nat, y: nat, h: nat, b: nat)
    requires h < 2 && b < 32
    ensures At(StateBits(w), x, y, 32 * h + b) == BitOf(w[Index(x, y, h)], b)
  {
    hide BitOf, StateBits, At;
    AtIs(w, x, y, 32 * h + b);
  }

  /** Bit k of a state is bit k % 32 of word k / 32. */
  lemma Coordinates(k: nat)
    requires k < 1600
    ensures X(k) < 5 && Y(k) < 5 && Index(X(k), Y(k), k / 32 % 2) == k / 32 && 32 * (k / 32 % 2) + k % 32 == Z(k)
  {
    var q, b := k / 32, k % 32;
    assert k == 32 * q + b;
    assert k / 64 == q / 2 && k / 320 == q / 10 && k % 64 == 32 * (q % 2) + b;
    WordCoordinates(q);
  }

  lemma IndexParts(x: nat, y: nat, h: nat)
    requires x < 5 && y < 5
    ensures Index(x, y, h) == 2 * (5 * y + x) + h
  {}

  lemma WordCoordinates(q: nat)
    requires q < 50
    ensures q / 2 % 5 < 5 && q / 10 < 5 && Index(q / 2 % 5, q / 10, q % 2) == q
  {
    var h, r := q / 2, q % 2;
    var x, y := h % 5, h / 5;
    QuotientIs(q, 10, y, 2 * x + r);
    IndexParts(x, y, r);
  }

  lemma IndexIs(x: nat, y: nat, h: nat)
    requires x < 5 && y < 5 && h < 2
    ensures Index(x, y, h) == 2 * (5 * y + x) + h < 50
    ensures Index(x, y, h) / 2 == 5 * y + x && Index(x, y, h) % 2 == h && (5 * y + x) % 5 == x && (5 * y + x) / 5 == y
    ensures Index(x, y, h) / 10 == y
  {
    hide Index;
    IndexParts(x, y, h);
    QuotientIs(Index(x, y, h), 2, 5 * y + x, h);
    QuotientIs(5 * y + x, 5, y, x);
    QuotientIs(Index(x, y, h), 10, y, 2 * x + h);
  }

  /** Word h of the lane rotated by n, as _rol stores it. */
  function RolWord(lo: Word, hi: Word, n: nat, h: nat): Word
    requires h < 2
  {
    var d, m := n / 32 % 2, n % 32;
    var a, b := if (h + d) % 2 == 0 then lo else hi, if (h + d) % 2 == 0 then hi else lo;
    if m == 0 then a else OrWord(Shl(a, m), Shr(b, 32 - m))
  }

  lemma OrShiftBit(a: Word, b: Word, m: nat, z: nat)
    requires 0 < m < 32 && z < 32
    ensures BitOf(OrWord(Shl(a, m), Shr(b, 32 - m)), z) == if z < m then BitOf(b, z + 32 - m) else BitOf(a, z - m)
  {
    hide Two, BitOf, Shl, Shr, Or;
    OrBit(Shl(a, m), Shr(b, 32 - m), z);
    ShlBit(a, m, z);
    ShrBit(b, 32 - m, z);
    if z >= m {
      WordBound();
      NoBit(b, z + 32 - m);
    }
  }

  lemma NoBit(b: Word, k: nat)
    requires k >= 32
    ensures !BitOf(b, k)
  {
    hide Two, BitOf;
    WordBound();
    SmallBit(b, 32, k);
  }

  /** Where bit z of word h of a rotated lane comes from. */
  lemma RotatedIndex(h: nat, z: nat, n: nat)
    requires h < 2 && z < 32
    ensures var d, m := n / 32 % 2, n % 32;
            (32 * h + z + 64 - n % 64) % 64 == if z < m then 32 * (1 - (h + d) % 2)
            + (z + 32 - m) else 32 * ((h + d) % 2) + (z - m)
  {
    var d, m := n / 32 % 2, n % 32;
    DivDiv(n, 32, 2);
    OneTurn(h + d, 2);
    OneTurn(32 * h + z + 64 - n % 64, 64);
  }

  lemma OneTurn(k: nat, m: nat)
    requires k < 2 * m
    ensures k % m == if k < m then k else k - m
  {
    QuotientIs(k, m, if k < m then 0 else 1, if k < m then k else k - m);
  }

  /** Rotating the halves rotates the lane. */
  lemma RolBit(lo: Word, hi: Word, n: nat, h: nat, z: nat)
    requires h < 2 && z < 32
    ensures BitOf(RolWord(lo, hi, n, h), z) == LaneBit(lo, hi, (32 * h + z + 64 - n % 64) % 64)
  {
    hide Two, BitOf, Shl, Shr, OrWord;
    var d, m := n / 32 % 2, n % 32;
    var a, b := if (h + d) % 2 == 0 then lo else hi, if (h + d) % 2 == 0 then hi else lo;
    if m != 0 {
      OrShiftBit(a, b, m, z);
    }
    RotatedIndex(h, z, n);
  }

  /** The parity of the first n words of a column, word h. */
  function ColumnWord(w: Lanes, x: nat, h: nat, n: nat := 5): Word
    requires h < 2
  {
    if n == 0 then 0 else XorWord(ColumnWord(w, x, h, n - 1), w[Index(x, n - 1, h)])
  }

  function ThetaEffect(w: Lanes, x: nat, h: nat): Word
    requires h < 2
  {
    XorWord(RolWord(ColumnWord(w, x + 1, 0), ColumnWord(w, x + 1, 1), 1, h), ColumnWord(w, x + 4, h))
  }

  function ThetaWord(w: Lanes, i: nat): Word
    requires i < 50
  {
    XorWord(w[i], ThetaEffect(w, i / 2 % 5, i % 2))
  }

  function ThetaWords(w: Lanes): Lanes {
    seq(50, i requires 0 <= i < 50 => ThetaWord(w, i))
  }

  lemma ColumnEmpty(w: Lanes, x: nat, h: nat)
    requires h < 2
    ensures ColumnWord(w, x, h, 0) == 0
  {}

  lemma ColumnBitStep(w: Lanes, x: nat, h: nat, n: nat, b: nat)
    requires h < 2 && n > 0
    ensures BitOf(ColumnWord(w, x, h, n), b) == (BitOf(ColumnWord(w, x, h, n - 1), b) != BitOf(w[Index(x, n - 1, h)], b))
  {
    hide BitOf, Xor;
    XorBit(ColumnWord(w, x, h, n - 1), w[Index(x, n - 1, h)], b);
  }

  lemma ColumnBit(w: Lanes, x: nat, h: nat, b: nat)
    requires h < 2 && b < 32
    ensures BitOf(ColumnWord(w, x, h), b) == Parity(StateBits(w), x, 32 * h + b)
  {
    hide BitOf, Xor, StateBits, At, ColumnWord;
    ColumnBitStep(w, x, h, 1, b);
    ColumnBitStep(w, x, h, 2, b);
    ColumnBitStep(w, x, h, 3, b);
    ColumnBitStep(w, x, h, 4, b);
    ColumnBitStep(w, x, h, 5, b);
    ColumnEmpty(w, x, h);
    NoBits(b);
    AtWord(w, x, 0, h, b);
    AtWord(w, x, 1, h, b);
    AtWord(w, x, 2, h, b);
    AtWord(w, x, 3, h, b);
    AtWord(w, x, 4, h, b);
  }

  lemma NoBits(b: nat)
    ensures !BitOf(0, b)
  {
    ZeroBit(b);
  }

  lemma ParityPeriod(s: State, x: nat, z: nat)
    ensures Parity(s, x, z % 64) == Parity(s, x, z)
  {}

  lemma EffectBit(w: Lanes, x: nat, h: nat, b: nat)
    requires h < 2 && b < 32
    ensures BitOf(ThetaEffect(w, x, h),
            b) == (Parity(StateBits(w), x + 4, 32 * h + b) != Parity(StateBits(w), x + 1, 32 * h + b + 63))
  {
    hide BitOf, Xor, StateBits, At, Parity, RolWord, ColumnWord;
    var lo, hi := ColumnWord(w, x + 1, 0), ColumnWord(w, x + 1, 1);
    XorBit(RolWord(lo, hi, 1, h), ColumnWord(w, x + 4, h), b);
    ColumnBit(w, x + 4, h, b);
    RolBit(lo, hi, 1, h, b);
    var z := (32 * h + b + 63) % 64;
    ColumnBit(w, x + 1, z / 32, z % 32);
    ParityPeriod(StateBits(w), x + 1, 32 * h + b + 63);
  }

  lemma ThetaWordBit(w: Lanes, x: nat, y: nat, h: nat, b: nat)
    requires x < 5 && y < 5 && h < 2 && b < 32
    ensures BitOf(ThetaWords(w)[Index(x, y, h)], b) == ThetaBit(StateBits(w), x, y, 32 * h + b)
  {
    hide BitOf, Xor, StateBits, At, Parity, ThetaEffect, Index;
    IndexIs(x, y, h);
    XorBit(w[Index(x, y, h)], ThetaEffect(w, x, h), b);
    EffectBit(w, x, h, b);
    AtWord(w, x, y, h, b);
  }

  lemma ThetaIs(w: Lanes)
    ensures StateBits(ThetaWords(w)) == Theta(StateBits(w))
  {
    hide BitOf, ThetaWords, ThetaBit, X, Y, Z, Index;
    forall k | 0 <= k < 1600 ensures StateBits(ThetaWords(w))[k] == Theta(StateBits(w))[k] {
      Coordinates(k);
      ThetaWordBit(w, X(k), Y(k), k / 32 % 2, k % 32);
    }
  }

  function LaneOffset(l: nat): (n: nat)
    requires l < 25
    ensures n < 64
  {
    OFFSETS[l] % 64
  }

  lemma LaneOffsetIs(x: nat, y: nat)
    requires x < 5 && y < 5
    ensures LaneOffset(5 * y + x) == Offset(x, y) % 64
  {
    assert y % 5 == y && x % 5 == x;
  }

  function RhoWords(w: Lanes): Lanes {
    seq(50, i requires 0 <= i < 50 => RolWord(w[i / 2 * 2], w[i / 2 * 2 + 1], LaneOffset(i / 2), i % 2))
  }

  lemma RhoWordBit(w: Lanes, x: nat, y: nat, h: nat, b: nat)
    requires x < 5 && y < 5 && h < 2 && b < 32
    ensures BitOf(RhoWords(w)[Index(x, y, h)], b) == RhoBit(StateBits(w), x, y, 32 * h + b)
  {
    hide BitOf, StateBits, At, RolWord, LaneBit, Index, LaneOffset, Offset;
    var n := Offset(x, y) % 64;
    LaneOffsetIs(x, y);
    IndexIs(x, y, h);
    IndexIs(x, y, 0);
    IndexIs(x, y, 1);
    RolBit(w[Index(x, y, 0)], w[Index(x, y, 1)], n, h, b);
    AtIs(w, x, y, 32 * h + b + 64 - n);
  }

  lemma RhoIs(w: Lanes)
    ensures StateBits(RhoWords(w)) == Rho(StateBits(w))
  {
    hide BitOf, RhoWords, RhoBit, X, Y, Z, Index;
    forall k | 0 <= k < 1600 ensures StateBits(RhoWords(w))[k] == Rho(StateBits(w))[k] {
      Coordinates(k);
      RhoWordBit(w, X(k), Y(k), k / 32 % 2, k % 32);
    }
  }

  /** Lane l of pi comes from lane PiSource(l). */
  function PiSource(l: nat): (r: nat)
    requires l < 25
    ensures r < 25
  {
    (l % 5 + 3 * (l / 5)) % 5 + 5 * (l % 5)
  }

  function PiWords(w: Lanes): Lanes {
    seq(50, i requires 0 <= i < 50 => w[PiSource(i / 2) * 2 + i % 2])
  }

  lemma IndexPeriod(x: nat, y: nat, h: nat)
    ensures Index(x % 5, y, h) == Index(x, y, h)
  {}

  lemma PiWordBit(w: Lanes, x: nat, y: nat, h: nat, b: nat)
    requires x < 5 && y < 5 && h < 2 && b < 32
    ensures BitOf(PiWords(w)[Index(x, y, h)], b) == PiBit(StateBits(w), x, y, 32 * h + b)
  {
    hide BitOf, StateBits, At, Index;
    IndexIs(x, y, h);
    IndexIs((x + 3 * y) % 5, x, h);
    assert Index((x + 3 * y) % 5, x, h) == Index(x + 3 * y, x, h) by { IndexPeriod(x + 3 * y, x, h); }
    AtWord(w, x + 3 * y, x, h, b);
  }

  lemma PiIs(w: Lanes)
    ensures StateBits(PiWords(w)) == Pi(StateBits(w))
  {
    hide BitOf, PiWords, PiBit, X, Y, Z, Index;
    forall k | 0 <= k < 1600 ensures StateBits(PiWords(w))[k] == Pi(StateBits(w))[k] {
      Coordinates(k);
      PiWordBit(w, X(k), Y(k), k / 32 % 2, k % 32);
    }
  }

  function ChiWord(w: Lanes, x: nat, y: nat, h: nat): Word
    requires h < 2
  {
    XorWord(w[Index(x, y, h)], AndWord(NotWord(w[Index(x + 1, y, h)]), w[Index(x + 2, y, h)]))
  }

  function ChiWords(w: Lanes): Lanes {
    seq(50, i requires 0 <= i < 50 => ChiWord(w, i / 2 % 5, i / 10, i % 2))
  }

  lemma ChiWordBit(w: Lanes, x: nat, y: nat, h: nat, b: nat)
    requires x < 5 && y < 5 && h < 2 && b < 32
    ensures BitOf(ChiWords(w)[Index(x, y, h)], b) == ChiBit(StateBits(w), x, y, 32 * h + b)
  {
    hide BitOf, Xor, And, StateBits, At, NotWord, Index;
    IndexIs(x, y, h);
    var a, c, d := w[Index(x, y, h)], w[Index(x + 1, y, h)], w[Index(x + 2, y, h)];
    XorBit(a, AndWord(NotWord(c), d), b);
    AndBit(NotWord(c), d, b);
    NotWordBit(c, b);
    AtWord(w, x, y, h, b);
    AtWord(w, x + 1, y, h, b);
    AtWord(w, x + 2, y, h, b);
  }

  lemma ChiIs(w: Lanes)
    ensures StateBits(ChiWords(w)) == Chi(StateBits(w))
  {
    hide BitOf, ChiWords, ChiBit, X, Y, Z, Index;
    forall k | 0 <= k < 1600 ensures StateBits(ChiWords(w))[k] == Chi(StateBits(w))[k] {
      Coordinates(k);
      ChiWordBit(w, X(k), Y(k), k / 32 % 2, k % 32);
    }
  }

  /** c is the constant of round ir as two words. */
  ghost predicate IsConstant(c0: Word, c1: Word, ir: nat, n: nat) {
    forall z :: 0 <= z < 64 ==> LaneBit(c0, c1, z) == ConstantBit(ir, n, z)
  }

  function IotaWords(w: Lanes, c0: Word, c1: Word): Lanes {
    w[0 := XorWord(w[0], c0)][1 := XorWord(w[1], c1)]
  }

  lemma IotaWordBit(w: Lanes, c0: Word, c1: Word, ir: nat, x: nat, y: nat, h: nat, b: nat)
    requires x < 5 && y < 5 && h < 2 && b < 32 && IsConstant(c0, c1, ir, 7)
    ensures BitOf(IotaWords(w, c0, c1)[Index(x, y, h)], b) == IotaBit(StateBits(w), ir, x, y, 32 * h + b)
  {
    hide BitOf, Xor, StateBits, At, ConstantBit, Index;
    IndexIs(x, y, h);
    AtWord(w, x, y, h, b);
    XorBit(w[0], c0, b);
    XorBit(w[1], c1, b);
    assert LaneBit(c0, c1, 32 * h + b) == ConstantBit(ir, 7, 32 * h + b);
  }

  lemma IotaIs(w: Lanes, c0: Word, c1: Word, ir: nat)
    requires IsConstant(c0, c1, ir, 7)
    ensures StateBits(IotaWords(w, c0, c1)) == Iota(StateBits(w), ir)
  {
    hide BitOf, IotaWords, IotaBit, X, Y, Z, Index, IsConstant;
    forall k | 0 <= k < 1600 ensures StateBits(IotaWords(w, c0, c1))[k] == Iota(StateBits(w), ir)[k] {
      Coordinates(k);
      IotaWordBit(w, c0, c1, ir, X(k), Y(k), k / 32 % 2, k % 32);
    }
  }
}
