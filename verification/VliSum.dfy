/** Shifts, sums and differences of ecc.c's digit arrays, and the modular sum and difference. */
module VliSum {
  import opened Arith
  import opened Digits
  import opened Bits
  import opened Vli
  import opened Carry
  import opened Field

  lemma SumDone(w: seq<Byte>, c: int, l: seq<Byte>, r: seq<Byte>)
    requires |w| == DIGITS == |l| && SumSoFar(w, c, l, r, DIGITS)
    ensures Num(w) + c * RADIX == Num(l) + Num(r)
  {
    PowDigits();
    assert l[..DIGITS] == l && r[..DIGITS] == r;
  }

  method Add(result: array<Byte>, left: array<Byte>, right: array<Byte>, d: nat := 0, lo: nat := 0, ro: nat := 0)
    returns (carry: Byte)
    requires d + DIGITS <= result.Length && lo + DIGITS <= left.Length && ro + DIGITS <= right.Length
    requires (result == left ==> d == lo) && (result == right ==> d == ro)
    modifies result
    ensures V(result, d) + carry * RADIX == old(V(left, lo)) + old(V(right, ro))
    ensures carry <= 1
    ensures forall k :: 0 <= k < result.Length && !(d <= k < d + DIGITS) ==> result[k] == old(result[k])
  {
    hide *;
    ghost var l, r := left[lo..lo + DIGITS], right[ro..ro + DIGITS];
    VIs(left, lo);
    VIs(right, ro);
    ghost var w: seq<Byte> := [];
    carry := 0;
    SumStart(l, r);
    for i := 0 to DIGITS
      invariant carry <= 1 && |w| == i
      invariant forall k :: 0 <= k < i ==> result[d + k] == w[k]
      invariant forall k :: 0 <= k < result.Length && !(d <= k < d + i) ==> result[k] == old(result[k])
      invariant SumSoFar(w, carry, l, r, i)
    {
      assert left[lo + i] == l[i] && right[ro + i] == r[i];
      ghost var c := carry;
      var sum: Byte := ((left[lo + i] as int) + right[ro + i] + carry) % 256;
      if sum != left[lo + i] {
        carry := if sum < left[lo + i] then 1 else 0;
      }
      result[d + i] := sum;
      AddDigit(l[i], r[i], c, sum, carry);
      AddStep(w, c, l, r, i, sum, carry);
      w := w + [sum];
    }
    SumDone(w, carry, l, r);
    assert result[d..d + DIGITS] == w;
    VIs(result, d);
  }

  lemma DifferenceDone(w: seq<Byte>, b: int, l: seq<Byte>, r: seq<Byte>)
    requires |w| == DIGITS == |l| && DifferenceSoFar(w, b, l, r, DIGITS)
    ensures Num(w) == Num(l) - Num(r) + b * RADIX
  {
    PowDigits();
    assert l[..DIGITS] == l && r[..DIGITS] == r;
  }

  method Sub(result: array<Byte>, left: array<Byte>, right: array<Byte>, d: nat := 0, lo: nat := 0, ro: nat := 0)
    returns (borrow: Byte)
    requires d + DIGITS <= result.Length && lo + DIGITS <= left.Length && ro + DIGITS <= right.Length
    requires (result == left ==> d == lo) && (result == right ==> d == ro)
    modifies result
    ensures V(result, d) == old(V(left, lo)) - old(V(right, ro)) + borrow * RADIX
    ensures borrow <= 1
    ensures forall k :: 0 <= k < result.Length && !(d <= k < d + DIGITS) ==> result[k] == old(result[k])
  {
    hide *;
    ghost var l, r := left[lo..lo + DIGITS], right[ro..ro + DIGITS];
    VIs(left, lo);
    VIs(right, ro);
    ghost var w: seq<Byte> := [];
    borrow := 0;
    DifferenceStart(l, r);
    for i := 0 to DIGITS
      invariant borrow <= 1 && |w| == i
      invariant forall k :: 0 <= k < i ==> result[d + k] == w[k]
      invariant forall k :: 0 <= k < result.Length && !(d <= k < d + i) ==> result[k] == old(result[k])
      invariant DifferenceSoFar(w, borrow, l, r, i)
    {
      assert left[lo + i] == l[i] && right[ro + i] == r[i];
      ghost var b := borrow;
      var diff: Byte := ((left[lo + i] as int) - right[ro + i] - borrow) % 256;
      if diff != left[lo + i] {
        borrow := if diff > left[lo + i] then 1 else 0;
      }
      result[d + i] := diff;
      SubDigit(l[i], r[i], b, diff, borrow);
      SubStep(w, b, l, r, i, diff, borrow);
      w := w + [diff];
    }
    DifferenceDone(w, borrow, l, r);
    assert result[d..d + DIGITS] == w;
    VIs(result, d);
  }

  /** The invariant of vli_lshift; t is 2 to the shift. */
  ghost predicate ShiftSoFar(w: seq<Byte>, c: int, s: seq<Byte>, t: int, i: nat) {
    |w| == i <= |s| && Num(w) + c * Pow(i) == Num(s[..i]) * t
  }

  lemma ShiftStep(w: seq<Byte>, c: int, s: seq<Byte>, t: int, i: nat, d: Byte, c': int)
    requires ShiftSoFar(w, c, s, t, i) && i < |s| && DigitOf(s[i], t, c, d, c')
    ensures ShiftSoFar(w + [d], c', s, t, i + 1)
  {
    hide Num, Pow;
    NumSnoc(w, d);
    NumPrefix(s, i);
    NumPowStep(i);
    CarryTerms(d, c', s[i] * t, 0, c, Pow(i));
    Distribute(Num(s[..i]), s[i] * Pow(i), t);
    Associate(s[i], Pow(i), t);
  }

  lemma ShiftStart(s: seq<Byte>, t: int)
    ensures ShiftSoFar([], 0, s, t, 0)
  {}

  lemma ShiftDone(w: seq<Byte>, c: int, s: seq<Byte>, t: int)
    requires |w| == DIGITS == |s| && ShiftSoFar(w, c, s, t, DIGITS)
    ensures Num(w) + c * RADIX == Num(s) * t
  {
    PowDigits();
    assert s[..DIGITS] == s;
  }

  /** A digit shifted left by k over the carry c from below, and the bits it passes on. */
  function ShiftedDigit(t: Byte, k: nat, c: nat): Byte { Or(t * Two(k), c) % 256 }

  function CarryUp(t: Byte, k: nat): int
    requires k <= 8
  {
    t / Two(8 - k)
  }

  lemma ShiftDigit(t: Byte, k: nat, c: nat)
    requires 0 < k < 8 && c < Two(k)
    ensures 0 <= CarryUp(t, k) < Two(k) && CarryUp(t, k) < 256
    ensures DigitOf(t, Two(k), c, ShiftedDigit(t, k, c), CarryUp(t, k))
  {
    hide Two, Or;
    OrDisjoint(t, k, c);
    TwoAdd(k, 8 - k);
    SmallTwos();
    ShiftSplit(t, Two(k), Two(8 - k), c);
  }

  lemma ShiftSplit(t: nat, a: nat, b: nat, c: nat)
    requires t < 256 && c < a && a * b == 256 && b > 0
    ensures 0 <= t / b < a && t / b < 256
    ensures (t * a + c) % 256 + 256 * (t / b) == t * a + c
  {
    var q, r := t / b, t % b;
    assert t == q * b + r;
    QuotientBelow(t, b, a);
    QuotientBelow(t, b, 256);
    MulLe(r + 1, b, a);
    Distribute(r, 1, a);
    Distribute(q * b, r, a);
    Associate(q, b, a);
    QuotientIs(t * a + c, 256, q, r * a + c);
  }

  /** result = in << shift, returning the bits shifted out. */
  method Lshift(result: array<Byte>, input: array<Byte>, shift: nat, d: nat := 0, o: nat := 0) returns (carry: Byte)
    requires d + DIGITS <= result.Length && o + DIGITS <= input.Length
    requires result == input ==> d == o
    requires 0 < shift < 8
    modifies result
    ensures V(result, d) + carry * RADIX == old(V(input, o)) * Two(shift)
    ensures carry < Two(shift)
    ensures forall k :: 0 <= k < result.Length && !(d <= k < d + DIGITS) ==> result[k] == old(result[k])
  {
    hide *;
    ghost var s, t := input[o..o + DIGITS], Two(shift);
    VIs(input, o);
    carry := 0;
    ShiftStart(s, t);
    ghost var w: seq<Byte> := [];
    for i := 0 to DIGITS
      invariant carry < t && |w| == i
      invariant forall k :: 0 <= k < i ==> result[d + k] == w[k]
      invariant forall k :: 0 <= k < result.Length && !(d <= k < d + i) ==> result[k] == old(result[k])
      invariant ShiftSoFar(w, carry, s, t, i)
    {
      assert input[o + i] == s[i];
      ghost var c := carry;
      var temp := input[o + i];
      ShiftDigit(temp, shift, carry);
      result[d + i] := ShiftedDigit(temp, shift, carry);
      carry := CarryUp(temp, shift);
      ShiftStep(w, c, s, t, i, result[d + i], carry);
      w := w + [result[d + i]];
    }
    ShiftDone(w, carry, s, t);
    assert result[d..d + DIGITS] == w;
    VIs(result, d);
  }

  lemma NumCons(d: Byte, s: seq<Byte>)
    ensures Num([d] + s) == d + 256 * Num(s)
  {
    NumAppend([d], s);
    assert Num([d]) == d by { NumSnoc([], d); }
    assert Pow(1) == 256;
  }

  /** A digit shifted right by one below the carry c from above, and the bit it passes on. */
  function HalvedDigit(t: Byte, c: nat): nat { Or(t / 2, c) }

  function CarryDown(t: int): Byte { t * 128 % 256 }

  lemma HalfDigit(t: Byte, c: nat)
    requires c == 0 || c == 128
    ensures HalvedDigit(t, c) == t / 2 + c < 256
    ensures CarryDown(t) == 128 * (t % 2)
  {
    assert Two(7) == 128 by { TwoSeven(); }
    OrCommutes(t / 2, c);
    OrDisjoint(c / 128, 7, t / 2);
    QuotientIs(t * 128, 256, t / 2, 128 * (t % 2));
  }

  /** The invariant of vli_rshift1: the digits from i up are half of what they were. */
  ghost predicate HalfSoFar(w: seq<Byte>, c: int, s: seq<Byte>, i: nat) {
    |w| == |s| - i && (c == 0 || c == 128) && 2 * Num(w) + c / 128 == Num(s[i..])
  }

  lemma HalfStep(w: seq<Byte>, c: nat, s: seq<Byte>, i: nat)
    requires i < |s| && HalfSoFar(w, c, s, i + 1)
    ensures HalvedDigit(s[i], c) < 256 && (CarryDown(s[i]) == 0 || CarryDown(s[i]) == 128)
    ensures HalfSoFar([HalvedDigit(s[i], c)] + w, CarryDown(s[i]), s, i)
  {
    hide Num, HalvedDigit, CarryDown;
    HalfDigit(s[i], c);
    NumCons(HalvedDigit(s[i], c), w);
    DropFirst(s, i);
    NumCons(s[i], s[i + 1..]);
  }

  lemma HalfStart(s: seq<Byte>)
    ensures HalfSoFar([], 0, s, |s|)
  {}

  lemma HalfDone(w: seq<Byte>, c: int, s: seq<Byte>)
    requires HalfSoFar(w, c, s, 0)
    ensures Num(w) == Num(s) / 2
  {
    assert s[0..] == s;
  }

  /** a = a >> 1. */
  method Rshift1(a: array<Byte>, o: nat := 0)
    requires o + DIGITS <= a.Length
    modifies a
    ensures V(a, o) == old(V(a, o)) / 2
    ensures forall k :: 0 <= k < a.Length && !(o <= k < o + DIGITS) ==> a[k] == old(a[k])
  {
    hide *;
    ghost var s := a[o..o + DIGITS];
    VIs(a, o);
    var carry := 0;
    var i := DIGITS;
    ghost var w: seq<Byte> := [];
    HalfStart(s);
    while i > 0
      invariant 0 <= i <= DIGITS && |w| == DIGITS - i
      invariant carry == 0 || carry == 128
      invariant forall k :: o + i <= k < o + DIGITS ==> a[k] == w[k - o - i]
      invariant forall k :: 0 <= k < a.Length && !(o + i <= k < o + DIGITS) ==> a[k] == old(a[k])
      invariant HalfSoFar(w, carry, s, i)
    {
      i := i - 1;
      var temp := a[o + i];
      assert temp == s[i];
      HalfStep(w, carry, s, i);
      a[o + i] := HalvedDigit(temp, carry);
      w := [a[o + i]] + w;
      carry := CarryDown(temp);
    }
    HalfDone(w, carry, s);
    assert a[o..o + DIGITS] == w;
    VIs(a, o);
  }

  /** A dropped carry is put back as the top bit after a right shift. */
  method SetTop(a: array<Byte>)
    requires a.Length == DIGITS && 2 * V(a) < RADIX
    modifies a
    ensures 2 * V(a) == 2 * old(V(a)) + RADIX
  {
    ghost var s := a[..DIGITS - 1];
    ghost var t := a[DIGITS - 1];
    assert a[0..DIGITS] == s + [t];
    NumSnoc(s, t);
    PowDigits();
    NumPowStep(DIGITS - 1);
    TopClear(Num(s), t, Pow(DIGITS - 1));
    OrCommutes(t, 128);
    OrDisjoint(1, 7, t);
    TwoSeven();
    a[DIGITS - 1] := Or(a[DIGITS - 1], 0x80);
    assert a[0..DIGITS] == s + [t + 128];
    NumSnoc(s, t + 128);
    Distribute(t, 128, Pow(DIGITS - 1));
  }

  lemma TopClear(low: nat, t: nat, p: nat)
    requires p > 0 && 2 * (low + t * p) < 256 * p
    ensures t < 128
  {
    if t >= 128 {
      MulLe(128, t, p);
    }
  }

  /** A cleared number becomes 1. */
  method SetOne(u: array<Byte>)
    requires u.Length == DIGITS && V(u) == 0 && forall k :: 0 <= k < DIGITS ==> u[k] == 0
    modifies u
    ensures V(u) == 1
  {
    u[0] := 1;
    VIs(u);
    assert u[0..DIGITS] == [1] + u[1..DIGITS];
    NumCons(1, u[1..DIGITS]);
    NumZeros(u[1..DIGITS]);
  }

  lemma SumReduced(a: nat, b: nat, m: nat)
    requires a < m && b < m
    ensures FAdd(a, b, m) == if a + b < m then a + b else a + b - m
    ensures FSub(a, b, m) == if a >= b then a - b else a - b + m
  {
    if a + b < m {
      QuotientIs(a + b, m, 0, a + b);
    } else {
      QuotientIs(a + b, m, 1, a + b - m);
    }
    if a >= b {
      QuotientIs(a - b, m, 0, a - b);
    } else {
      QuotientIs(a - b, m, -1, a - b + m);
    }
  }

  /** result = (left + right) % mod for left and right below mod.  When the sum is larger, one
      subtraction of mod still leaves a number of DIGITS digits congruent to it if the sum is below
      RADIX + mod: this is all ecdsa_sign has for a hash that is not below the order. */
  method ModAdd(result: array<Byte>, left: array<Byte>, right: array<Byte>, mod: array<Byte>)
    requires result.Length == left.Length == right.Length == mod.Length == DIGITS && result != mod
    requires V(mod) > 0
    modifies result
    ensures var sum := old(V(left)) + old(V(right));
            sum < RADIX + V(mod) ==> V(result) == if sum < V(mod) then sum else sum - V(mod)
    ensures old(V(left)) < V(mod) && old(V(right)) < V(mod)
            ==> V(result) == FAdd(old(V(left)), old(V(right)), V(mod))
  {
    hide V, FAdd, FSub;
    ghost var a, b := V(left), V(right);
    if a < V(mod) && b < V(mod) {
      SumReduced(a, b, V(mod));
    }
    var carry := Add(result, left, right);
    var c := Cmp(result, mod);
    if carry != 0 || c >= 0 {
      var _ := Sub(result, result, mod);
    }
  }

  /** result = (left - right) % mod for left and right below mod. */
  method ModSub(result: array<Byte>, left: array<Byte>, right: array<Byte>, mod: array<Byte>)
    requires result.Length == left.Length == right.Length == mod.Length == DIGITS && result != mod
    requires V(mod) > 0
    modifies result
    ensures old(V(left)) < V(mod) && old(V(right)) < V(mod)
            ==> V(result) == FSub(old(V(left)), old(V(right)), V(mod))
  {
    hide V, FAdd, FSub;
    ghost var a, b := V(left), V(right);
    if a < V(mod) && b < V(mod) {
      SumReduced(a, b, V(mod));
    }
    var borrow := Sub(result, left, right);
    if borrow != 0 {
      var _ := Add(result, result, mod);
    }
  }
}
