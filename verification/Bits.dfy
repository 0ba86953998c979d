/** Bitwise operations on naturals, and the single-bit facts the digit routines rely on. */
module Bits {
  import opened Digits
  import opened Arith

  function Bit(n: nat, k: nat): (b: nat)
    ensures b <= 1
  {
    n / Two(k) % 2
  }

  function And(a: nat, b: nat): nat {
    if a == 0 || b == 0 then 0 else (a % 2) * (b % 2) + 2 * And(a / 2, b / 2)
  }

  function Or(a: nat, b: nat): nat
    decreases a + b
  {
    if a == 0 then b
    else if b == 0 then a
    else (if a % 2 + b % 2 == 0 then 0 else 1) + 2 * Or(a / 2, b / 2)
  }

  lemma {:induction false} OrCommutes(a: nat, b: nat)
    ensures Or(a, b) == Or(b, a)
    decreases a + b
  {
    if a > 0 && b > 0 {
      OrCommutes(a / 2, b / 2);
    }
  }

  lemma HalfTwo(a: nat, k: nat)
    requires k > 0
    ensures a / Two(k) == a / 2 / Two(k - 1)
  {
    var t := Two(k - 1);
    var q, r := a / 2 / t, a / 2 % t;
    assert a / 2 == q * t + r;
    assert a == q * (2 * t) + (2 * r + a % 2);
    QuotientIs(a, 2 * t, q, 2 * r + a % 2);
  }

  /** Masking with one bit keeps exactly that bit. */
  lemma {:induction false} AndPower(a: nat, k: nat)
    ensures And(a, Two(k)) == Bit(a, k) * Two(k)
  {
    if k == 0 {
      assert And(a / 2, 0) == 0;
    } else {
      HalfTwo(a, k);
      assert Two(k) / 2 == Two(k - 1);
      AndPower(a / 2, k - 1);
      if a == 0 {
        QuotientIs(0, Two(k), 0, 0);
      } else {
        assert And(a, Two(k)) == 2 * And(a / 2, Two(k - 1));
      }
    }
  }

  lemma OrZeros(a: nat, b: nat)
    ensures Or(a, 0) == a && Or(0, b) == b
  {}

  lemma OrEven(h: nat, b: nat)
    requires h > 0 && b > 0
    ensures Or(2 * h, b) == b % 2 + 2 * Or(h, b / 2)
  {}

  /** Joining two numbers without a common bit adds them. */
  lemma {:induction false} OrDisjoint(a: nat, k: nat, b: nat)
    requires b < Two(k)
    ensures Or(a * Two(k), b) == a * Two(k) + b
  {
    hide Two, Or;
    TwoStep(0);
    OrZeros(a * Two(k), b);
    if k == 0 || a == 0 || b == 0 {
      assert a * 1 == a && 0 * Two(k) == 0;
    } else {
      var t := Two(k - 1);
      TwoStep(k - 1);
      Associate(a, 2, t);
      MulLe(1, a, t);
      OrDisjoint(a, k - 1, b / 2);
      OrEven(a * t, b);
    }
  }

  lemma SplitBit(n: nat, low: nat, d: Byte, high: nat, i: nat, j: nat)
    requires n == low + d * Pow(i) + Pow(i + 1) * high && low < Pow(i) && j < 8
    ensures Bit(n, 8 * i + j) == Bit(d, j)
  {
    hide *;
    TwoAdd(8 * i, j);
    TwoPow(i);
    NumPowStep(i);
    Regroup(low, d, high, Pow(i), Pow(i + 1));
    QuotientIs(n, Pow(i), d + 256 * high, low);
    DivDiv(n, Pow(i), Two(j));
    BitOfSum(d, high, j);
    BitIs(n, 8 * i + j);
    BitIs(d, j);
  }

  lemma DigitBit(s: seq<Byte>, bit: nat)
    requires bit < 8 * |s|
    ensures Bit(Num(s), bit) == Bit(s[bit / 8], bit % 8)
  {
    hide *;
    var i, j := bit / 8, bit % 8;
    assert s == s[..i + 1] + s[i + 1..];
    NumAppend(s[..i + 1], s[i + 1..]);
    NumPrefix(s, i);
    NumBound(s[..i]);
    SplitBit(Num(s), Num(s[..i]), s[i], Num(s[i + 1..]), i, j);
  }

  lemma BitIs(n: nat, k: nat)
    ensures Bit(n, k) == n / Two(k) % 2
  {}

  lemma Regroup(low: int, d: int, high: int, p: int, q: int)
    requires q == 256 * p
    ensures low + d * p + q * high == (d + 256 * high) * p + low
  {
    Distribute(d, 256 * high, p);
    Associate(256, high, p);
  }

  lemma BitOfSum(d: Byte, high: nat, j: nat)
    requires j < 8
    ensures (d + 256 * high) / Two(j) % 2 == d / Two(j) % 2
  {
    hide *;
    TwoAdd(j, 7 - j);
    TwoSeven();
    var t, u := Two(j), Two(7 - j);
    Associate(t, u, high);
    ParityOfQuotient(d, t, u * high);
  }

  lemma TwoSeven()
    ensures Two(7) == 128
  {
    assert Two(3) == 8;
  }

  /** The scalar without its i low bits. */
  ghost function Prefix(k: nat, i: nat): nat {
    QuotientNonnegative(k, Two(i));
    k / Two(i)
  }

  /** The leading bits of the scalar after one more bit. */
  lemma PrefixStep(k: nat, i: nat)
    ensures Prefix(k, i) == 2 * Prefix(k, i + 1) + Bit(k, i)
    ensures Prefix(k, i) <= k
  {
    HalveQuotient(k, i);
    QuotientNonnegative(k, Two(i));
  }

  lemma PrefixWhole(k: nat)
    ensures Prefix(k, 0) == k
  {
    assert Two(0) == 1;
  }

  lemma PrefixStart(k: nat, n: nat)
    requires n > 0 && Two(n - 1) <= k < Two(n)
    ensures Prefix(k, n - 1) == 1
  {
    QuotientIs(k, Two(n - 1), 1, k - Two(n - 1));
  }

  lemma PrefixPositive(k: nat, i: nat, n: nat)
    requires i <= n && Prefix(k, n) >= 1
    ensures Prefix(k, i) >= 1
    decreases n - i
  {
    if i < n {
      PrefixPositive(k, i + 1, n);
      PrefixStep(k, i);
    }
  }

  lemma HalveQuotient(top: nat, i: nat)
    ensures top / Two(i + 1) == top / Two(i) / 2
  {
    DivDiv(top, Two(i), 2);
  }

  lemma {:induction false} TwoUp(i: nat, n: nat)
    requires i <= n
    ensures Two(i) <= Two(n)
  {
    if i < n {
      TwoUp(i, n - 1);
    }
  }

  lemma BitsOfTop(low: nat, top: Byte, d: nat, i: nat)
    requires low < Pow(d) && 0 < i <= 8 && Two(i - 1) <= top < Two(i)
    ensures Two(8 * d + i - 1) <= low + top * Pow(d) < Two(8 * d + i)
  {
    hide *;
    TwoPow(d);
    TwoAdd(8 * d, i);
    TwoAdd(8 * d, i - 1);
    LeadingDigit(low, Pow(d), Two(i - 1), top, Two(i));
  }

  lemma LeadingBit(a: nat, n: nat)
    requires n > 0 && a < Two(n)
    ensures Prefix(a, n - 1) == Bit(a, n - 1) == if Two(n - 1) <= a then 1 else 0
  {
    if Two(n - 1) <= a {
      QuotientIs(a, Two(n - 1), 1, a - Two(n - 1));
    } else {
      QuotientIs(a, Two(n - 1), 0, a);
    }
  }
}
