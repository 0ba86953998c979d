/** Fixed-width digit arrays of ecc.c: the routines that copy, compare, shift, add and subtract. */
module Vli {
  import opened Arith
  import opened Digits
  import opened Bits

  const DIGITS: nat := 32

  /** 256 to the DIGITS. */
  const RADIX: nat := 0x1_0000_0000_0000_0000_0000_0000_0000_0000_0000_0000_0000_0000_0000_0000_0000_0000

  lemma PowDigits()
    ensures Pow(DIGITS) == RADIX
  {
    assert Pow(1) == 256;
    hide Pow;
    PowDouble(1, 256);
    PowDouble(2, 0x1_0000);
    PowDouble(4, 0x1_0000_0000);
    PowDouble(8, 0x1_0000_0000_0000_0000);
    PowDouble(16, 0x1_0000_0000_0000_0000_0000_0000_0000_0000);
  }

  lemma PowDouble(n: nat, p: nat)
    requires Pow(n) == p
    ensures Pow(2 * n) == p * p
  {
    PowAdd(n, n);
  }

  lemma DigitsIs()
    ensures DIGITS == 32
  {}

  /** The value of the DIGITS digits at p_vli + o. */
  ghost function V(a: array<Byte>, o: nat := 0): (v: nat)
    requires o + DIGITS <= a.Length
    reads a
    ensures v < RADIX
  {
    PowDigits();
    NumBound(a[o..o + DIGITS]);
    Num(a[o..o + DIGITS])
  }

  lemma VIs(a: array<Byte>, o: nat := 0)
    requires o + DIGITS <= a.Length
    ensures V(a, o) == Num(a[o..o + DIGITS])
  {}

  method Clear(a: array<Byte>, o: nat := 0)
    requires o + DIGITS <= a.Length
    modifies a
    ensures V(a, o) == 0
    ensures forall k :: o <= k < o + DIGITS ==> a[k] == 0
    ensures forall k :: 0 <= k < a.Length && !(o <= k < o + DIGITS) ==> a[k] == old(a[k])
  {
    for i := 0 to DIGITS
      invariant forall k :: o <= k < o + i ==> a[k] == 0
      invariant forall k :: 0 <= k < a.Length && !(o <= k < o + i) ==> a[k] == old(a[k])
    {
      a[o + i] := 0;
    }
    NumZeros(a[o..o + DIGITS]);
  }

  method IsZero(a: array<Byte>, o: nat := 0) returns (r: bool)
    requires o + DIGITS <= a.Length
    ensures r <==> V(a, o) == 0
  {
    NumZeros(a[o..o + DIGITS]);
    for i := 0 to DIGITS
      invariant forall k :: o <= k < o + i ==> a[k] == 0
    {
      if a[o + i] != 0 {
        assert a[o..o + DIGITS][i] != 0;
        return false;
      }
    }
    return true;
  }

  /** Nonzero exactly when bit `bit` is set. */
  method TestBit(a: array<Byte>, bit: nat) returns (r: nat)
    requires a.Length == DIGITS && bit < 8 * DIGITS
    ensures r != 0 <==> Bit(V(a), bit) == 1
  {
    assert a[0..DIGITS] == a[..];
    AndPower(a[bit / 8], bit % 8);
    DigitBit(a[..], bit);
    r := And(a[bit / 8], Two(bit % 8));
  }

  method NumDigits(a: array<Byte>, o: nat := 0) returns (n: nat)
    requires o + DIGITS <= a.Length
    ensures n <= DIGITS
    ensures n > 0 ==> a[o + n - 1] != 0
    ensures V(a, o) == Num(a[o..o + n])
  {
    var i := DIGITS - 1;
    while i >= 0 && a[o + i] == 0
      invariant -1 <= i < DIGITS
      invariant V(a, o) == Num(a[o..o + i + 1])
    {
      assert a[o..o + i + 1] == a[o..o + i] + [0];
      NumSnoc(a[o..o + i], 0);
      i := i - 1;
    }
    n := i + 1;
  }

  /** The number of bits: the least n with V below 2 to the n. */
  method NumBits(a: array<Byte>, o: nat := 0) returns (n: nat)
    requires o + DIGITS <= a.Length
    ensures n <= 8 * DIGITS
    ensures V(a, o) < Two(n)
    ensures n == 0 <==> V(a, o) == 0
    ensures n > 0 ==> Two(n - 1) <= V(a, o)
  {
    hide *;
    var d := NumDigits(a, o);
    NumBitsOfZero();
    if d == 0 {
      assert a[o..o + d] == [];
      return 0;
    }
    var digit := a[o + d - 1];
    ghost var top := digit;
    var i := 0;
    while digit != 0
      invariant digit == top / Two(i)
      invariant i > 0 ==> Two(i - 1) <= top
      invariant i <= 8
    {
      QuotientPositive(top, Two(i));
      QuotientPositive(top, Two(8));
      SmallTwos();
      HalveQuotient(top, i);
      digit := digit / 2;
      i := i + 1;
    }
    QuotientPositive(top, Two(i));
    n := (d - 1) * 8 + i;
    assert a[o..o + d] == a[o..o + d - 1] + [top];
    NumSnoc(a[o..o + d - 1], top);
    NumBound(a[o..o + d - 1]);
    BitsOfTop(Num(a[o..o + d - 1]), top, d - 1, i);
  }

  lemma NumBitsOfZero()
    ensures Num([]) == 0 && Two(0) == 1 && DIGITS == 32
  {}

  method Set(dest: array<Byte>, src: array<Byte>, d: nat := 0, o: nat := 0)
    requires d + DIGITS <= dest.Length && o + DIGITS <= src.Length
    requires dest == src ==> d == o
    modifies dest
    ensures dest[d..d + DIGITS] == old(src[o..o + DIGITS])
    ensures V(dest, d) == old(V(src, o))
    ensures forall k :: 0 <= k < dest.Length && !(d <= k < d + DIGITS) ==> dest[k] == old(dest[k])
  {
    ghost var s := src[o..o + DIGITS];
    for i := 0 to DIGITS
      invariant forall k :: 0 <= k < i ==> dest[d + k] == s[k]
      invariant forall k :: 0 <= k < dest.Length && !(d <= k < d + i) ==> dest[k] == old(dest[k])
    {
      assert src[o + i] == s[i];
      dest[d + i] := src[o + i];
    }
    assert dest[d..d + DIGITS] == s;
  }

  /** The sign of left - right. */
  method Cmp(left: array<Byte>, right: array<Byte>, lo: nat := 0, ro: nat := 0) returns (r: int)
    requires lo + DIGITS <= left.Length && ro + DIGITS <= right.Length
    ensures r == if V(left, lo) > V(right, ro) then 1 else if V(left, lo) < V(right, ro) then -1 else 0
  {
    hide *;
    ghost var s, t := left[lo..lo + DIGITS], right[ro..ro + DIGITS];
    VIs(left, lo);
    VIs(right, ro);
    var i := DIGITS - 1;
    while i >= 0
      invariant -1 <= i < DIGITS
      invariant forall k :: i < k < DIGITS ==> s[k] == t[k]
    {
      assert left[lo + i] == s[i] && right[ro + i] == t[i];
      if left[lo + i] > right[ro + i] {
        NumOrder(t, s, i);
        return 1;
      } else if left[lo + i] < right[ro + i] {
        NumOrder(s, t, i);
        return -1;
      }
      i := i - 1;
    }
    assert s == t;
    return 0;
  }

  lemma DropFirst(s: seq<Byte>, i: nat)
    requires i < |s|
    ensures s[i..] == [s[i]] + s[i + 1..]
  {}
}
