/** 32-bit words as bit-vectors: the operations on them compute those on naturals. */
module WordVectors {
  import opened Arith
  import opened Digits
  import opened Bits
  import opened Words
  import opened Sha256Spec

  /** The j-th bit alone. */
  function Mask(j: nat): bv32 { if j == 0 then 1 else Mask(j - 1) << 1 }

  predicate Single(m: bv32) { m != 0 && m & (m - 1) == 0 }

  predicate On(x: bv32, m: bv32) { x & m != 0 }

  predicate Has(x: bv32, j: nat) { On(x, Mask(j)) }

  lemma LowMasks()
    ensures Mask(0) == 0x1 && Mask(1) == 0x2 && Mask(2) == 0x4 && Mask(3) == 0x8
    ensures Mask(4) == 0x10 && Mask(5) == 0x20 && Mask(6) == 0x40 && Mask(7) == 0x80
    ensures Mask(8) == 0x100 && Mask(9) == 0x200 && Mask(10) == 0x400 && Mask(11) == 0x800
    ensures Mask(12) == 0x1000 && Mask(13) == 0x2000 && Mask(14) == 0x4000 && Mask(15) == 0x8000
  {
    assert Mask(1) == 0x2;
    assert Mask(3) == 0x8;
    assert Mask(5) == 0x20;
    assert Mask(7) == 0x80;
    assert Mask(9) == 0x200;
    assert Mask(11) == 0x800;
    assert Mask(13) == 0x2000;
  }

  lemma HighMasks()
    ensures Mask(16) == 0x1_0000 && Mask(17) == 0x2_0000 && Mask(18) == 0x4_0000 && Mask(19) == 0x8_0000
    ensures Mask(20) == 0x10_0000 && Mask(21) == 0x20_0000 && Mask(22) == 0x40_0000 && Mask(23) == 0x80_0000
    ensures Mask(24) == 0x100_0000 && Mask(25) == 0x200_0000 && Mask(26) == 0x400_0000 && Mask(27) == 0x800_0000
    ensures Mask(28) == 0x1000_0000 && Mask(29) == 0x2000_0000 && Mask(30) == 0x4000_0000 && Mask(31) == 0x8000_0000
  {
    LowMasks();
    assert Mask(17) == 0x2_0000;
    assert Mask(19) == 0x8_0000;
    assert Mask(21) == 0x20_0000;
    assert Mask(23) == 0x80_0000;
    assert Mask(25) == 0x200_0000;
    assert Mask(27) == 0x800_0000;
    assert Mask(29) == 0x2000_0000;
  }

  /** The next bit, in a circle. */
  function Up(m: bv32): bv32 { m.RotateLeft(1) }

  function Twice(m: bv32): bv32 { m << 1 }

  function Half(x: bv32): bv32 { x >> 1 }

  lemma MaskUp(j: nat)
    requires j < 32
    ensures Mask((j + 1) % 32) == Up(Mask(j))
  {
    LowMasks();
    HighMasks();
    hide Mask;
  }

  lemma NextMask(j: nat)
    requires j < 31
    ensures Mask(j + 1) == Twice(Mask(j)) && Mask(j) < 0x8000_0000
  {
    LowMasks();
    HighMasks();
    hide Mask;
  }

  lemma {:induction false} SingleMask(j: nat)
    requires j < 32
    ensures Single(Mask(j))
  {
    if j > 0 {
      SingleMask(j - 1);
      NextMask(j - 1);
      hide Mask;
      ShiftSingle(Mask(j - 1));
    }
  }

  lemma ShiftSingle(m: bv32)
    requires Single(m) && m < 0x8000_0000
    ensures Single(Twice(m))
  {}

  /** The bits from j on, as a number. */
  function Tail(x: bv32, j: nat): nat
    decreases 32 - j
  {
    if j >= 32 then 0 else (if Has(x, j) then 1 else 0) + 2 * Tail(x, j + 1)
  }

  lemma {:induction false} TailBound(x: bv32, j: nat)
    requires j <= 32
    ensures Tail(x, j) < Two(32 - j)
    decreases 32 - j
  {
    hide Has;
    if j < 32 {
      TailBound(x, j + 1);
    }
  }

  function Value(x: bv32): Word {
    TailBound(x, 0);
    WordBound();
    Tail(x, 0)
  }

  function BitIn(x: bv32, j: nat): nat { if Has(x, j) then 1 else 0 }

  lemma TailParts(x: bv32, j: nat)
    requires j < 32
    ensures Tail(x, j) == BitIn(x, j) + 2 * Tail(x, j + 1) && Tail(x, j) % 2 == BitIn(x, j) && Tail(x, j) / 2 == Tail(x, j + 1)
  {
    hide Has;
    QuotientIs(Tail(x, j), 2, Tail(x, j + 1), BitIn(x, j));
  }

  lemma {:induction false} TailBit(x: bv32, j: nat, k: nat)
    ensures BitOf(Tail(x, j), k) == (j + k < 32 && Has(x, j + k))
    decreases k
  {
    hide Bit, Has, Tail;
    if j >= 32 {
      NoTail(x, j);
      ZeroBit(k);
    } else {
      TailParts(x, j);
      if k == 0 {
        BitZero(Tail(x, j));
      } else {
        BitStep(Tail(x, j), k);
        TailBit(x, j + 1, k - 1);
      }
    }
  }

  lemma NoTail(x: bv32, j: nat)
    requires j >= 32
    ensures Tail(x, j) == 0
  {}

  lemma ValueBit(x: bv32, k: nat)
    requires k < 32
    ensures BitOf(Value(x), k) == Has(x, k)
  {
    hide BitOf, Has, Tail;
    TailBit(x, 0, k);
  }

  lemma {:induction false} SameNumber(a: nat, b: nat, n: nat)
    requires a < Two(n) && b < Two(n) && forall k: nat :: k < n ==> BitOf(a, k) == BitOf(b, k)
    ensures a == b
  {
    hide Bit;
    if n > 0 {
      assert BitOf(a, 0) == BitOf(b, 0);
      BitZero(a);
      BitZero(b);
      forall k: nat | k < n - 1 ensures BitOf(a / 2, k) == BitOf(b / 2, k) {
        BitStep(a, k + 1);
        BitStep(b, k + 1);
        assert BitOf(a, k + 1) == BitOf(b, k + 1);
      }
      SameNumber(a / 2, b / 2, n - 1);
    }
  }

  lemma SameWord(a: Word, b: Word)
    requires forall k: nat :: k < 32 ==> BitOf(a, k) == BitOf(b, k)
    ensures a == b
  {
    hide BitOf;
    WordBound();
    SameNumber(a, b, 32);
  }

  lemma HasXor(x: bv32, y: bv32, k: nat)
    requires k < 32
    ensures Has(x ^ y, k) == (Has(x, k) != Has(y, k))
  {
    hide Mask, On, Single;
    SingleMask(k);
    XorMask(x, y, Mask(k));
  }

  lemma XorMask(x: bv32, y: bv32, m: bv32)
    requires Single(m)
    ensures On(x ^ y, m) <==> On(x, m) != On(y, m)
  {}

  lemma XorValue(x: bv32, y: bv32)
    ensures Value(x ^ y) == XorWord(Value(x), Value(y))
  {
    hide Value, BitOf, Has, Xor;
    forall k: nat | k < 32 ensures BitOf(Value(x ^ y), k) == BitOf(XorWord(Value(x), Value(y)), k) {
      HasXor(x, y, k);
      ValueBit(x, k);
      ValueBit(y, k);
      ValueBit(x ^ y, k);
      XorBit(Value(x), Value(y), k);
    }
    SameWord(Value(x ^ y), XorWord(Value(x), Value(y)));
  }

  lemma HasAnd(x: bv32, y: bv32, k: nat)
    requires k < 32
    ensures Has(x & y, k) == (Has(x, k) && Has(y, k))
  {
    hide Mask, On, Single;
    SingleMask(k);
    AndMask(x, y, Mask(k));
  }

  lemma AndMask(x: bv32, y: bv32, m: bv32)
    requires Single(m)
    ensures On(x & y, m) <==> On(x, m) && On(y, m)
  {}

  lemma AndValue(x: bv32, y: bv32)
    ensures Value(x & y) == AndWord(Value(x), Value(y))
  {
    hide Value, BitOf, Has, And;
    forall k: nat | k < 32 ensures BitOf(Value(x & y), k) == BitOf(AndWord(Value(x), Value(y)), k) {
      HasAnd(x, y, k);
      ValueBit(x, k);
      ValueBit(y, k);
      ValueBit(x & y, k);
      AndBit(Value(x), Value(y), k);
    }
    SameWord(Value(x & y), AndWord(Value(x), Value(y)));
  }

  lemma HasNot(x: bv32, k: nat)
    requires k < 32
    ensures Has(!x, k) == !Has(x, k)
  {
    hide Mask, On, Single;
    SingleMask(k);
    NotMask(x, Mask(k));
  }

  lemma NotMask(x: bv32, m: bv32)
    requires Single(m)
    ensures On(!x, m) <==> !On(x, m)
  {}

  lemma NotValue(x: bv32)
    ensures Value(!x) == NotWord(Value(x))
  {
    hide Value, BitOf, Has, NotWord;
    forall k: nat | k < 32 ensures BitOf(Value(!x), k) == BitOf(NotWord(Value(x)), k) {
      HasNot(x, k);
      ValueBit(x, k);
      ValueBit(!x, k);
      NotWordBit(Value(x), k);
    }
    SameWord(Value(!x), NotWord(Value(x)));
  }

  function One(x: bv32): bv32 { x.RotateRight(1) }

  /** n single right rotations. */
  function Turn(x: bv32, n: nat): bv32 { if n == 0 then x else One(Turn(x, n - 1)) }

  lemma TurnMask(x: bv32, m: bv32)
    requires Single(m)
    ensures On(One(x), m) <==> On(x, Up(m))
  {}

  lemma HasTurn(x: bv32, k: nat)
    requires k < 32
    ensures Has(One(x), k) == Has(x, (k + 1) % 32)
  {
    hide Mask, On, Single, Up, One;
    SingleMask(k);
    MaskUp(k);
    TurnMask(x, Mask(k));
  }

  lemma {:induction false} TurnBit(x: bv32, n: nat, k: nat)
    requires k < 32
    ensures Has(Turn(x, n), k) == Has(x, (k + n) % 32)
  {
    hide Has;
    if n > 0 {
      HasTurn(Turn(x, n - 1), k);
      TurnBit(x, n - 1, (k + 1) % 32);
      assert ((k + 1) % 32 + n - 1) % 32 == (k + n) % 32;
    }
  }

  /** Where the bits of a circular shift come from. */
  lemma RotrBit(a: Word, n: nat, k: nat)
    requires 0 < n < 32 && k < 32
    ensures BitOf(Rotr(a, n), k) == BitOf(a, (k + n) % 32)
  {
    hide BitOf, Shr, Shl, Or;
    WordBound();
    OrBit(Shr(a, n), Shl(a, 32 - n), k);
    ShrBit(a, n, k);
    ShlBit(a, 32 - n, k);
    if k + n >= 32 {
      SmallBit(a, 32, k + n);
    }
  }

  lemma TurnValue(x: bv32, n: nat)
    requires 0 < n < 32
    ensures Value(Turn(x, n)) == Rotr(Value(x), n)
  {
    hide Value, BitOf, Has, Turn, Rotr;
    forall k: nat | k < 32 ensures BitOf(Value(Turn(x, n)), k) == BitOf(Rotr(Value(x), n), k) {
      TurnBit(x, n, k);
      ValueBit(Turn(x, n), k);
      ValueBit(x, (k + n) % 32);
      RotrBit(Value(x), n, k);
    }
    SameWord(Value(Turn(x, n)), Rotr(Value(x), n));
  }

  /** n single right shifts. */
  function Fall(x: bv32, n: nat): bv32 { if n == 0 then x else Half(Fall(x, n - 1)) }

  lemma HalfMask(x: bv32, m: bv32)
    requires Single(m) && m < 0x8000_0000
    ensures On(Half(x), m) <==> On(x, Twice(m))
  {}

  lemma HalfTop(x: bv32)
    ensures !On(Half(x), 0x8000_0000)
  {}

  lemma HasHalf(x: bv32, k: nat)
    requires k < 32
    ensures Has(Half(x), k) == (k < 31 && Has(x, k + 1))
  {
    hide Mask, On, Single, Half, Twice;
    if k < 31 {
      SingleMask(k);
      NextMask(k);
      HalfMask(x, Mask(k));
    } else {
      LastMask();
      HalfTop(x);
    }
  }

  lemma LastMask()
    ensures Mask(31) == 0x8000_0000
  {
    HighMasks();
  }

  lemma {:induction false} FallBit(x: bv32, n: nat, k: nat)
    requires k < 32
    ensures Has(Fall(x, n), k) == (k + n < 32 && Has(x, k + n))
  {
    hide Has;
    if n > 0 {
      HasHalf(Fall(x, n - 1), k);
      if k < 31 {
        FallBit(x, n - 1, k + 1);
      }
    }
  }

  lemma FallValue(x: bv32, n: nat)
    ensures Value(Fall(x, n)) == Shr(Value(x), n)
  {
    hide Value, BitOf, Has, Fall, Shr;
    forall k: nat | k < 32 ensures BitOf(Value(Fall(x, n)), k) == BitOf(Shr(Value(x), n), k) {
      FallBit(x, n, k);
      ValueBit(Fall(x, n), k);
      ShrBit(Value(x), n, k);
      if k + n < 32 {
        ValueBit(x, k + n);
      } else {
        WordBound();
        SmallBit(Value(x), 32, k + n);
      }
    }
    SameWord(Value(Fall(x, n)), Shr(Value(x), n));
  }

  /** The carries of x + y into each place. */
  function Carries(x: bv32, y: bv32): bv32 { (x + y) ^ x ^ y }

  lemma SumMask(x: bv32, y: bv32, m: bv32)
    requires Single(m)
    ensures On(x + y, m) <==> (On(x, m) != On(y, m)) != On((x + y) ^ x ^ y, m)
  {}

  lemma HasSum(x: bv32, y: bv32, k: nat)
    requires k < 32
    ensures Has(x + y, k) == ((Has(x, k) != Has(y, k)) != Has(Carries(x, y), k))
  {
    hide Mask, On, Single;
    SingleMask(k);
    SumMask(x, y, Mask(k));
  }

  lemma CarryFact(x: bv32, y: bv32, m: bv32)
    requires m != 0 && m & (m - 1) == 0 && m < 0x8000_0000
    ensures (((x + y) ^ x ^ y) & Twice(m) != 0)
            <==> (x & m != 0 && y & m != 0) || (x & m != 0 && ((x + y) ^ x ^ y) & m != 0)
                 || (y & m != 0 && ((x + y) ^ x ^ y) & m != 0)
  {}

  lemma CarryMask(x: bv32, y: bv32, m: bv32)
    requires Single(m) && m < 0x8000_0000
    ensures var c := (x + y) ^ x ^ y;
            On(c, Twice(m)) <==> (On(x, m) && On(y, m)) || (On(x, m) && On(c, m)) || (On(y, m) && On(c, m))
  {
    CarryFact(x, y, m);
  }

  lemma HasCarry(x: bv32, y: bv32, k: nat)
    requires k < 31
    ensures Has(Carries(x, y), k + 1)
            == ((Has(x, k) && Has(y, k)) || (Has(x, k) && Has(Carries(x, y), k)) || (Has(y, k) && Has(Carries(x, y), k)))
  {
    hide Mask, On, Single;
    SingleMask(k);
    NextMask(k);
    CarryMask(x, y, Mask(k));
  }

  lemma NoCarryIn(x: bv32, y: bv32)
    ensures !Has(Carries(x, y), 0)
  {
    hide On;
    FirstCarry(x, y);
  }

  lemma FirstCarry(x: bv32, y: bv32)
    ensures !On((x + y) ^ x ^ y, 1)
  {}

  lemma BitSum(x: bv32, y: bv32, j: nat)
    requires j < 31
    ensures BitIn(x, j) + BitIn(y, j) + BitIn(Carries(x, y), j) == BitIn(x + y, j) + 2 * BitIn(Carries(x, y), j + 1)
  {
    hide Carries, Has;
    HasSum(x, y, j);
    HasCarry(x, y, j);
  }

  lemma LastSum(x: bv32, y: bv32) returns (q: nat)
    ensures q <= 1 && BitIn(x, 31) + BitIn(y, 31) + BitIn(Carries(x, y), 31) == BitIn(x + y, 31) + 2 * q
  {
    hide Carries, Has;
    HasSum(x, y, 31);
    q := if BitIn(x, 31) + BitIn(y, 31) + BitIn(Carries(x, y), 31) >= 2 then 1 else 0;
  }

  lemma AdderStep(x: int, y: int, c: int, s: int, d: int, t: int, u: int, v: int, q: int, p: int)
    requires x + y + c == s + 2 * d && v + q * p == t + u + d
    ensures (s + 2 * v) + q * (2 * p) == (x + 2 * t) + (y + 2 * u) + c
  {}

  /** The sum from place j on, and the carry out of it. */
  lemma {:induction false} TailSum(x: bv32, y: bv32, j: nat) returns (q: nat)
    requires j < 32
    ensures q <= 1 && Tail(x + y, j) + q * Two(32 - j) == Tail(x, j) + Tail(y, j) + BitIn(Carries(x, y), j)
    decreases 32 - j
  {
    hide Carries, BitIn, Two, Tail;
    TailParts(x, j);
    TailParts(y, j);
    TailParts(x + y, j);
    TwoStep(31 - j);
    var c := Carries(x, y);
    if j == 31 {
      NoTail(x, 32);
      NoTail(y, 32);
      NoTail(x + y, 32);
      q := LastSum(x, y);
      AdderStep(BitIn(x, j), BitIn(y, j), BitIn(c, j), BitIn(x + y, j), q, 0, 0, 0, q, 1);
    } else {
      BitSum(x, y, j);
      q := TailSum(x, y, j + 1);
      AdderStep(BitIn(x, j), BitIn(y, j), BitIn(c, j), BitIn(x + y, j), BitIn(c, j + 1), Tail(x, j + 1), Tail(y, j + 1),
          Tail(x + y, j + 1), q, Two(31 - j));
    }
  }

  lemma PlusValue(x: bv32, y: bv32)
    ensures Value(x + y) == Plus32(Value(x), Value(y))
  {
    hide Tail, Has, Two, Carries;
    NoCarryIn(x, y);
    WordBound();
    var q := TailSum(x, y, 0);
    QuotientIs(Value(x) + Value(y), 0x1_0000_0000, q, Value(x + y));
  }

  /** Four bits from m on. */
  function Nibble(x: bv32, m: bv32): nat {
    (if On(x, m) then 1 else 0) + (if On(x, Twice(m)) then 2 else 0) + (if On(x, Twice(Twice(m))) then 4 else 0)
    + (if On(x, Twice(Twice(Twice(m)))) then 8 else 0)
  }

  /** The value written out, as it can be computed for a literal. */
  function Written(x: bv32): nat {
    Nibble(x, 1) + 0x10 * Nibble(x, 0x10) + 0x100 * Nibble(x, 0x100) + 0x1000 * Nibble(x, 0x1000)
    + 0x1_0000 * Nibble(x, 0x1_0000) + 0x10_0000 * Nibble(x, 0x10_0000) + 0x100_0000 * Nibble(x, 0x100_0000)
    + 0x1000_0000 * Nibble(x, 0x1000_0000)
  }

  lemma NibbleIs(x: bv32, j: nat)
    requires j <= 28
    ensures Tail(x, j) == Nibble(x, Mask(j)) + 16 * Tail(x, j + 4)
  {
    hide Mask, Tail, On, Twice;
    MaskThree(j);
    TailParts(x, j);
    TailParts(x, j + 1);
    TailParts(x, j + 2);
    TailParts(x, j + 3);
  }

  lemma MaskStep(j: nat)
    ensures Mask(j + 1) == Twice(Mask(j))
  {}

  lemma MaskThree(j: nat)
    ensures Mask(j + 1) == Twice(Mask(j)) && Mask(j + 2) == Twice(Mask(j + 1)) && Mask(j + 3) == Twice(Mask(j + 2))
  {
    hide Mask, Twice;
    MaskStep(j);
    MaskStep(j + 1);
    MaskStep(j + 2);
  }

  lemma WrittenIs(x: bv32)
    ensures Value(x) == Written(x)
  {
    LowMasks();
    HighMasks();
    hide Tail, Mask, Nibble;
    NibbleIs(x, 0);
    NibbleIs(x, 4);
    NibbleIs(x, 8);
    NibbleIs(x, 12);
    NibbleIs(x, 16);
    NibbleIs(x, 20);
    NibbleIs(x, 24);
    NibbleIs(x, 28);
    NoTail(x, 32);
  }

  /** Rotations by literal distances, one place at a time. */
  lemma LowRotations(x: bv32)
    ensures One(x) == x.RotateRight(1) && One(x.RotateRight(1)) == x.RotateRight(2)
    ensures One(x.RotateRight(2)) == x.RotateRight(3) && One(x.RotateRight(3)) == x.RotateRight(4)
    ensures One(x.RotateRight(4)) == x.RotateRight(5) && One(x.RotateRight(5)) == x.RotateRight(6)
    ensures One(x.RotateRight(6)) == x.RotateRight(7) && One(x.RotateRight(7)) == x.RotateRight(8)
    ensures One(x.RotateRight(8)) == x.RotateRight(9) && One(x.RotateRight(9)) == x.RotateRight(10)
    ensures One(x.RotateRight(10)) == x.RotateRight(11) && One(x.RotateRight(11)) == x.RotateRight(12)
  {}

  lemma HighRotations(x: bv32)
    ensures One(x.RotateRight(12)) == x.RotateRight(13) && One(x.RotateRight(13)) == x.RotateRight(14)
    ensures One(x.RotateRight(14)) == x.RotateRight(15) && One(x.RotateRight(15)) == x.RotateRight(16)
    ensures One(x.RotateRight(16)) == x.RotateRight(17) && One(x.RotateRight(17)) == x.RotateRight(18)
    ensures One(x.RotateRight(18)) == x.RotateRight(19) && One(x.RotateRight(19)) == x.RotateRight(20)
    ensures One(x.RotateRight(20)) == x.RotateRight(21) && One(x.RotateRight(21)) == x.RotateRight(22)
    ensures One(x.RotateRight(22)) == x.RotateRight(23) && One(x.RotateRight(23)) == x.RotateRight(24)
    ensures One(x.RotateRight(24)) == x.RotateRight(25)
  {}

  lemma LowTurns(x: bv32)
    ensures Turn(x, 2) == x.RotateRight(2) && Turn(x, 6) == x.RotateRight(6) && Turn(x, 7) == x.RotateRight(7)
    ensures Turn(x, 11) == x.RotateRight(11) && Turn(x, 12) == x.RotateRight(12)
  {
    hide One;
    LowRotations(x);
    assert Turn(x, 1) == x.RotateRight(1);
    assert Turn(x, 3) == x.RotateRight(3);
    assert Turn(x, 4) == x.RotateRight(4);
    assert Turn(x, 6) == x.RotateRight(6);
    assert Turn(x, 8) == x.RotateRight(8);
    assert Turn(x, 10) == x.RotateRight(10);
  }

  lemma TurnsAre(x: bv32)
    ensures Turn(x, 2) == x.RotateRight(2) && Turn(x, 6) == x.RotateRight(6) && Turn(x, 7) == x.RotateRight(7)
    ensures Turn(x, 11) == x.RotateRight(11) && Turn(x, 13) == x.RotateRight(13) && Turn(x, 17) == x.RotateRight(17)
    ensures Turn(x, 18) == x.RotateRight(18) && Turn(x, 19) == x.RotateRight(19) && Turn(x, 22) == x.RotateRight(22)
    ensures Turn(x, 25) == x.RotateRight(25)
  {
    hide One;
    LowTurns(x);
    HighRotations(x);
    assert Turn(x, 13) == x.RotateRight(13);
    assert Turn(x, 15) == x.RotateRight(15);
    assert Turn(x, 17) == x.RotateRight(17);
    assert Turn(x, 19) == x.RotateRight(19);
    assert Turn(x, 21) == x.RotateRight(21);
    assert Turn(x, 23) == x.RotateRight(23);
  }

  lemma LowShifts(x: bv32)
    ensures Half(x) == x >> 1 && Half(x >> 1) == x >> 2 && Half(x >> 2) == x >> 3 && Half(x >> 3) == x >> 4
    ensures Half(x >> 4) == x >> 5 && Half(x >> 5) == x >> 6 && Half(x >> 6) == x >> 7 && Half(x >> 7) == x >> 8
    ensures Half(x >> 8) == x >> 9 && Half(x >> 9) == x >> 10
  {}

  lemma FallsAre(x: bv32)
    ensures Fall(x, 3) == x >> 3 && Fall(x, 10) == x >> 10
  {
    LowShifts(x);
    hide Half;
    assert Fall(x, 1) == x >> 1;
    assert Fall(x, 3) == x >> 3;
    assert Fall(x, 4) == x >> 4;
    assert Fall(x, 6) == x >> 6;
    assert Fall(x, 8) == x >> 8;
  }
}
