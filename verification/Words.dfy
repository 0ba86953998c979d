/** 32-bit words: bitwise operations and shifts on naturals, bit by bit. */
module Words {
  import opened Arith
  import opened Digits
  import opened Bits

  type Word = x: int | 0 <= x < 0x1_0000_0000

  function Xor(a: nat, b: nat): nat
    decreases a + b
  {
    if a == 0 then b
    else if b == 0 then a
    else (if a % 2 == b % 2 then 0 else 1) + 2 * Xor(a / 2, b / 2)
  }

  /** Bit k as a truth value. */
  function BitOf(n: nat, k: nat): bool { Bit(n, k) == 1 }

  lemma BitZero(n: nat)
    ensures Bit(n, 0) == n % 2
  {
    assert Two(0) == 1;
  }

  lemma BitStep(n: nat, k: nat)
    requires k > 0
    ensures Bit(n, k) == Bit(n / 2, k - 1)
  {
    HalfTwo(n, k);
  }

  lemma ZeroBit(k: nat)
    ensures Bit(0, k) == 0
  {
    QuotientIs(0, Two(k), 0, 0);
  }

  lemma {:induction false} XorBit(a: nat, b: nat, k: nat)
    ensures BitOf(Xor(a, b), k) == (BitOf(a, k) != BitOf(b, k))
  {
    hide Bit;
    ZeroBit(k);
    if k == 0 {
      BitZero(a);
      BitZero(b);
      BitZero(Xor(a, b));
    } else {
      BitStep(a, k);
      BitStep(b, k);
      BitStep(Xor(a, b), k);
      XorBit(a / 2, b / 2, k - 1);
    }
  }

  lemma {:induction false} XorBound(a: nat, b: nat, n: nat)
    requires a < Two(n) && b < Two(n)
    ensures Xor(a, b) < Two(n)
  {
    if n > 0 {
      XorBound(a / 2, b / 2, n - 1);
    }
  }

  lemma {:induction false} AndBit(a: nat, b: nat, k: nat)
    ensures BitOf(And(a, b), k) == (BitOf(a, k) && BitOf(b, k))
  {
    hide Bit;
    ZeroBit(k);
    if k == 0 {
      BitZero(a);
      BitZero(b);
      BitZero(And(a, b));
    } else {
      BitStep(a, k);
      BitStep(b, k);
      BitStep(And(a, b), k);
      AndBit(a / 2, b / 2, k - 1);
      if a != 0 && b != 0 {
        assert And(a, b) / 2 == And(a / 2, b / 2) by { Parities(a % 2, b % 2, And(a / 2, b / 2)); }
        Parities(a % 2, b % 2, And(a / 2, b / 2));
      }
    }
  }

  lemma Parities(a: nat, b: nat, n: nat)
    requires a < 2 && b < 2
    ensures (a * b + 2 * n) / 2 == n && (a * b + 2 * n) % 2 == a * b
  {}

  lemma {:induction false} AndBound(a: nat, b: nat, n: nat)
    requires b < Two(n)
    ensures And(a, b) < Two(n)
  {
    if n > 0 && a != 0 && b != 0 {
      AndBound(a / 2, b / 2, n - 1);
      Parities(a % 2, b % 2, And(a / 2, b / 2));
    }
  }

  lemma {:induction false} OrBit(a: nat, b: nat, k: nat)
    ensures BitOf(Or(a, b), k) == (BitOf(a, k) || BitOf(b, k))
  {
    hide Bit;
    ZeroBit(k);
    if k == 0 {
      BitZero(a);
      BitZero(b);
      BitZero(Or(a, b));
    } else {
      BitStep(a, k);
      BitStep(b, k);
      BitStep(Or(a, b), k);
      OrBit(a / 2, b / 2, k - 1);
    }
  }

  lemma {:induction false} OrBound(a: nat, b: nat, n: nat)
    requires a < Two(n) && b < Two(n)
    ensures Or(a, b) < Two(n)
  {
    if n > 0 {
      OrBound(a / 2, b / 2, n - 1);
    }
  }

  /** The complement within n bits. */
  lemma {:induction false} NotBit(a: nat, n: nat, k: nat)
    requires a < Two(n) && k < n
    ensures BitOf(Two(n) - 1 - a, k) == !BitOf(a, k)
  {
    hide Bit;
    var c := Two(n) - 1 - a;
    if k == 0 {
      BitZero(a);
      BitZero(c);
    } else {
      BitStep(a, k);
      BitStep(c, k);
      NotBit(a / 2, n - 1, k - 1);
    }
  }

  /** Bits above the size of a number are clear. */
  lemma HighBit(a: nat, k: nat)
    requires a < Two(k)
    ensures !BitOf(a, k)
  {
    QuotientIs(a, Two(k), 0, a);
  }

  lemma SmallBit(a: nat, n: nat, k: nat)
    requires a < Two(n) && n <= k
    ensures !BitOf(a, k)
  {
    hide Bit;
    TwoUp(n, k);
    HighBit(a, k);
  }

  lemma ShiftRightBit(b: nat, j: nat, z: nat)
    ensures b / Two(j) >= 0 && BitOf(b / Two(j), z) == BitOf(b, z + j)
  {
    QuotientNonnegative(b, Two(j));
    TwoAdd(j, z);
    DivDiv(b, Two(j), Two(z));
  }

  /** A remainder modulo a power of 2 keeps the lower bits. */
  lemma ModBit(n: nat, m: nat, z: nat)
    requires z < m
    ensures BitOf(n % Two(m), z) == BitOf(n, z)
  {
    hide Two, Bit;
    var q, r := n / Two(m), n % Two(m);
    QuotientNonnegative(n, Two(m));
    TwoAdd(z, m - z);
    TwoStep(m - z - 1);
    AsParts(n, q, r, Two(z), Two(m - z - 1), Two(m));
    MulLe(0, q, Two(m - z - 1));
    ParityOfQuotient(r, Two(z), q * Two(m - z - 1));
    BitIs(n, z);
    BitIs(r, z);
  }

  lemma AsParts(n: int, q: int, r: int, t: int, u: int, p: int)
    requires n == q * p + r && p == t * (2 * u)
    ensures n == r + 2 * (q * u * t)
  {
    assert q * (t * (2 * u)) == 2 * (q * u * t);
  }

  lemma ScaledBit(a: nat, m: nat, z: nat)
    ensures a * Two(m) >= 0
    ensures BitOf(a * Two(m), z) == (z >= m && BitOf(a, z - m))
  {
    hide Two;
    MulLe(0, a, Two(m));
    if z >= m {
      TwoAdd(m, z - m);
      DivDiv(a * Two(m), Two(m), Two(z - m));
      QuotientIs(a * Two(m), Two(m), a, 0);
    } else {
      TwoAdd(z, m - z);
      TwoStep(m - z - 1);
      var t, u := Two(z), Two(m - z - 1);
      assert a * (t * (2 * u)) == 2 * (a * u) * t;
      QuotientIs(a * Two(m), t, 2 * (a * u), 0);
    }
  }

  lemma WordBound()
    ensures Two(32) == 0x1_0000_0000
  {
    assert Two(8) == 256 by { SmallTwos(); }
    TwoAdd(8, 8);
    TwoAdd(16, 16);
  }

  /** a << m on 32-bit words. */
  function Shl(a: Word, m: nat): Word { a * Two(m) % 0x1_0000_0000 }

  /** a >> m on 32-bit words. */
  function Shr(a: Word, m: nat): Word {
    QuotientNonnegative(a, Two(m));
    a / Two(m)
  }

  function XorWord(a: Word, b: Word): Word {
    WordBound();
    XorBound(a, b, 32);
    Xor(a, b)
  }

  function OrWord(a: Word, b: Word): Word {
    WordBound();
    OrBound(a, b, 32);
    Or(a, b)
  }

  function AndWord(a: Word, b: Word): Word {
    WordBound();
    AndBound(a, b, 32);
    And(a, b)
  }

  function NotWord(a: Word): Word { 0xffff_ffff - a }

  lemma ShlBit(a: Word, m: nat, z: nat)
    requires z < 32
    ensures BitOf(Shl(a, m), z) == (z >= m && BitOf(a, z - m))
  {
    hide Two, BitOf;
    WordBound();
    ScaledBit(a, m, z);
    ModBit(a * Two(m), 32, z);
  }

  lemma ShrBit(a: Word, m: nat, z: nat)
    ensures BitOf(Shr(a, m), z) == BitOf(a, z + m)
  {
    hide Two, BitOf;
    ShiftRightBit(a, m, z);
  }

  lemma NotWordBit(a: Word, z: nat)
    requires z < 32
    ensures BitOf(NotWord(a), z) == !BitOf(a, z)
  {
    hide Two, BitOf;
    WordBound();
    NotBit(a, 32, z);
  }

  function WordBytes(w: Word): (s: seq<Byte>)
    ensures |s| == 4
  {
    [w % 0x100, w / 0x100 % 0x100, w / 0x1_0000 % 0x100, w / 0x100_0000]
  }

  lemma WordBytesValue(w: Word)
    ensures Num(WordBytes(w)) == w
  {
    hide Num, Pow;
    var s := WordBytes(w);
    FourDigits(s[0], s[1], s[2], s[3]);
    assert s == [s[0], s[1], s[2], s[3]];
    WordParts(w);
  }

  lemma WordParts(w: nat)
    ensures w == w % 0x100 + 0x100 * (w / 0x100 % 0x100) + 0x1_0000 * (w / 0x1_0000 % 0x100) + 0x100_0000 * (w / 0x100_0000)
  {
    var a := w / 0x100;
    var b := a / 0x100;
    QuotientIs(w, 0x1_0000, b, 0x100 * (a % 0x100) + w % 0x100);
    QuotientIs(w, 0x100_0000, b / 0x100, 0x1_0000 * (b % 0x100) + 0x100 * (a % 0x100) + w % 0x100);
  }

  lemma FourDigits(a: Byte, b: Byte, c: Byte, d: Byte)
    ensures Num([a, b, c, d]) == a + 0x100 * b + 0x1_0000 * c + 0x100_0000 * d
  {
    hide Num;
    assert Pow(0) == 1 && Pow(1) == 0x100 && Pow(2) == 0x1_0000 && Pow(3) == 0x100_0000;
    NumZeros([]);
    NumSnoc([], a);
    NumSnoc([a], b);
    NumSnoc([a, b], c);
    NumSnoc([a, b, c], d);
    assert [] + [a] == [a] && [a] + [b] == [a, b] && [a, b] + [c] == [a, b, c] && [a, b, c] + [d] == [a, b, c, d];
  }

  lemma OneBits(k: nat)
    ensures BitOf(1, k) == (k == 0)
  {
    hide Bit;
    if k == 0 {
      BitZero(1);
    } else {
      BitStep(1, k);
      ZeroBit(k - 1);
    }
  }
}
