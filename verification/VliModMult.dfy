/** vli_modMult: a 512-bit product reduced by shifting and subtracting the modulus. */
module VliModMult {
  import opened Arith
  import opened Modular
  import opened Digits
  import opened Bits
  import opened Vli
  import opened Carry
  import opened VliSum
  import opened VliProduct

  /** m shifted left by n bits. */
  ghost function Scaled(m: nat, n: nat): nat { m * Two(n) }

  lemma ScaledHalf(m: nat, n: nat)
    requires n > 0
    ensures Scaled(m, n) == 2 * Scaled(m, n - 1)
  {
    Associate(m, 2, Two(n - 1));
  }

  lemma ScaledZero(m: nat)
    ensures Scaled(m, 0) == m
  {}

  /** A modulus with its top bit set, shifted to the length of x, is more than half of x. */
  lemma ScaledCovers(m: nat, n: nat, x: nat)
    requires RADIX <= 2 * m && x < Two(8 * DIGITS + n)
    ensures x < 2 * Scaled(m, n)
  {
    TwoAdd(8 * DIGITS, n);
    TwoPow(DIGITS);
    PowDigits();
    MulLe(RADIX, 2 * m, Two(n));
    Associate(2, m, Two(n));
  }

  lemma CongLess(x: nat, y: int, m: nat, n: nat)
    requires m > 0 && Cong(x, y, m)
    ensures Cong(x - Scaled(m, n), y, m)
  {
    hide Cong, Two;
    var t: int := Two(n);
    assert (-t) * m == -(m * t);
    CongFrom(x - m * t, x, -t, m);
    CongTrans(x - m * Two(n), x, y, m);
  }

  lemma Halves(a: array<Byte>)
    requires a.Length == 2 * DIGITS
    ensures Wide(a) == V(a, 0) + RADIX * V(a, DIGITS)
  {
    var s := a[..];
    assert a[0..DIGITS] == s[..DIGITS] && a[DIGITS..DIGITS + DIGITS] == s[DIGITS..];
    assert s == s[..DIGITS] + s[DIGITS..];
    NumAppend(s[..DIGITS], s[DIGITS..]);
    PowDigits();
  }

  /** Half of a two-part number whose high part is shifted down through the low one. */
  lemma HalveParts(low: nat, high: nat, b: nat, low': nat, high': nat)
    requires b == high % 2 && high' == high / 2
    requires 2 * low' == 2 * (low / 2) + b * RADIX
    ensures low' + RADIX * high' == (low + RADIX * high) / 2
  {}

  /** a = a >> 1 over both halves, the low bit of the upper half passed down. */
  method HalveWide(a: array<Byte>)
    requires a.Length == 2 * DIGITS
    modifies a
    ensures Wide(a) == old(Wide(a)) / 2
  {
    hide V, Wide, And, Num;
    Halves(a);
    ghost var low, high := V(a, 0), V(a, DIGITS);
    LowBit(a);
    var carry := And(a[DIGITS], 0x01) * 128 % 256;
    RshiftHalf(a, DIGITS);
    RshiftHalf(a, 0);
    OrTop(a, carry);
    Halves(a);
    HalveParts(low, high, carry / 128, V(a, 0), V(a, DIGITS));
  }

  /** vli_rshift1 on one half of a wide number, which leaves the other half alone. */
  method RshiftHalf(a: array<Byte>, o: nat)
    requires a.Length == 2 * DIGITS && (o == 0 || o == DIGITS)
    modifies a
    ensures V(a, o) == old(V(a, o)) / 2
    ensures V(a, DIGITS - o) == old(V(a, DIGITS - o))
  {
    Rshift1(a, o);
    assert a[DIGITS - o..DIGITS - o + DIGITS] == old(a[DIGITS - o..DIGITS - o + DIGITS]);
  }

  lemma LowBit(a: array<Byte>)
    requires a.Length == 2 * DIGITS
    ensures And(a[DIGITS], 1) == V(a, DIGITS) % 2
  {
    hide *;
    DigitsIs();
    VIs(a, DIGITS);
    SmallTwos();
    var s := a[DIGITS..DIGITS + DIGITS];
    AndPower(s[0], 0);
    DigitBit(s, 0);
    BitIs(V(a, DIGITS), 0);
    BitIs(s[0], 0);
  }

  /** The top digit of a halved number has room for the carried bit. */
  lemma TopJoined(s: seq<Byte>, t: Byte, carry: nat)
    requires |s| == DIGITS - 1 && 2 * Num(s + [t]) < RADIX && (carry == 0 || carry == 128)
    ensures Or(t, carry) == t + carry < 256
    ensures 2 * Num(s + [t + carry]) == 2 * Num(s + [t]) + carry / 128 * RADIX
  {
    hide Num, Pow, Or;
    NumSnoc(s, t);
    PowDigits();
    NumPowStep(DIGITS - 1);
    TopClear(Num(s), t, Pow(DIGITS - 1));
    OrCommutes(t, carry);
    TwoSeven();
    OrDisjoint(carry / 128, 7, t);
    NumSnoc(s, t + carry);
    if carry == 128 {
      Distribute(t, 128, Pow(DIGITS - 1));
    }
  }

  /** The bit shifted out of the upper half joins the top digit of the lower half. */
  method OrTop(a: array<Byte>, carry: nat)
    requires a.Length == 2 * DIGITS && 2 * V(a, 0) < RADIX && (carry == 0 || carry == 128)
    modifies a
    ensures 2 * V(a, 0) == 2 * old(V(a, 0)) + carry / 128 * RADIX
    ensures V(a, DIGITS) == old(V(a, DIGITS))
  {
    ghost var s, t, h := a[..DIGITS - 1], a[DIGITS - 1], a[DIGITS..2 * DIGITS];
    hide Num, Or;
    VIs(a, 0);
    VIs(a, DIGITS);
    assert a[0..DIGITS] == s + [t];
    TopJoined(s, t, carry);
    a[DIGITS - 1] := Or(a[DIGITS - 1], carry);
    assert a[0..DIGITS] == s + [t + carry] && a[DIGITS..2 * DIGITS] == h;
    VIs(a, 0);
    VIs(a, DIGITS);
  }

  /** Lower and upper half together decide the order. */
  lemma OrderOfParts(a: nat, b: nat, c: nat, d: nat)
    requires a < RADIX && c < RADIX
    ensures a + RADIX * b <= c + RADIX * d <==> b < d || (b == d && a <= c)
  {}

  /** if multiple <= product then product -= multiple, half by half. */
  method SubtractIfLess(product: array<Byte>, multiple: array<Byte>, one: array<Byte>)
    requires product.Length == multiple.Length == 2 * DIGITS && one.Length == DIGITS
    requires product != multiple && product != one && V(one) == 1
    modifies product
    ensures Wide(product)
            == if Wide(multiple) <= old(Wide(product)) then old(Wide(product)) - Wide(multiple) else old(Wide(product))
  {
    hide V, Wide;
    Halves(product);
    Halves(multiple);
    OrderOfParts(V(multiple, 0), V(multiple, DIGITS), V(product, 0), V(product, DIGITS));
    var cmp := Cmp(multiple, product, DIGITS, DIGITS);
    var cmpLow := Cmp(multiple, product);
    if cmp < 0 || (cmp == 0 && cmpLow <= 0) {
      SubtractWide(product, multiple, one);
    }
  }

  method SubtractWide(product: array<Byte>, multiple: array<Byte>, one: array<Byte>)
    requires product.Length == multiple.Length == 2 * DIGITS && one.Length == DIGITS
    requires product != multiple && product != one && V(one) == 1
    requires Wide(multiple) <= Wide(product)
    modifies product
    ensures Wide(product) == old(Wide(product)) - Wide(multiple)
  {
    hide V, Wide;
    Halves(product);
    Halves(multiple);
    ghost var low, high := V(product, 0), V(product, DIGITS);
    ghost var l, h := V(multiple, 0), V(multiple, DIGITS);
    var borrow := SubHalf(product, product, multiple, 0, 0, 0);
    assert V(product, 0) == low - l + borrow * RADIX && V(product, DIGITS) == high;
    var b := 0;
    if borrow != 0 {
      b := SubHalf(product, product, one, DIGITS, DIGITS, 0);
    }
    ghost var mid := V(product, DIGITS);
    assert mid == high - borrow + b * RADIX && V(multiple, DIGITS) == h && V(multiple, 0) == l;
    var c := SubHalf(product, product, multiple, DIGITS, DIGITS, DIGITS);
    Halves(product);
    PartsDifference(low, high, l, h, borrow, b, c, V(product, 0), mid, V(product, DIGITS));
  }

  lemma PartsDifference(low: nat, high: nat, l: nat, h: nat, borrow: nat, b: nat, c: nat, low': nat, mid: nat, high': nat)
    requires low < RADIX && low' < RADIX && l < RADIX && mid < RADIX && high' < RADIX && borrow <= 1 && b <= 1 && c <= 1
    requires l + RADIX * h <= low + RADIX * high
    requires low' == low - l + borrow * RADIX
    requires mid == high - borrow + b * RADIX && high' == mid - h + c * RADIX
    requires borrow == 0 ==> b == 0
    ensures low' + RADIX * high' == low + RADIX * high - (l + RADIX * h)
  {
    assert borrow == 0 || borrow == 1;
    assert b + c == 0;
  }

  /** vli_sub on one half of a wide number, which leaves the other half alone. */
  method SubHalf(result: array<Byte>, left: array<Byte>, right: array<Byte>, d: nat, lo: nat, ro: nat) returns (borrow: Byte)
    requires result == left && result.Length == 2 * DIGITS && d == lo && (d == 0 || d == DIGITS)
    requires ro + DIGITS <= right.Length && right != result
    modifies result
    ensures V(result, d) == old(V(left, lo)) - V(right, ro) + borrow * RADIX && borrow <= 1
    ensures V(result, DIGITS - d) == old(V(result, DIGITS - d))
  {
    borrow := Sub(result, left, right, d, lo, ro);
    assert result[DIGITS - d..DIGITS - d + DIGITS] == old(result[DIGITS - d..DIGITS - d + DIGITS]);
  }

  /** The digits written for p_mod << (8 * ds + bs). */
  lemma ShiftedDigits(s: seq<Byte>, ds: nat, w: seq<Byte>, c: Byte, m: nat, bs: nat)
    requires ds < DIGITS && |w| == DIGITS && |s| == 2 * DIGITS
    requires forall k :: 0 <= k < ds ==> s[k] == 0
    requires s[ds..ds + DIGITS] == w && s[ds + DIGITS] == c
    requires forall k :: ds + DIGITS < k < 2 * DIGITS ==> s[k] == 0
    requires Num(w) + c * RADIX == m * Two(bs)
    ensures Num(s) == Scaled(m, 8 * ds + bs)
  {
    hide Num, Pow, Two;
    var z, t := s[..ds], s[ds + DIGITS + 1..];
    assert s == (z + (w + [c])) + t;
    NumZeros(z);
    NumZeros(t);
    NumAppend(z, w + [c]);
    NumAppend(z + (w + [c]), t);
    NumSnoc(w, c);
    PowDigits();
    TwoPow(ds);
    TwoAdd(8 * ds, bs);
    Associate(Pow(ds), m, Two(bs));
  }

  lemma UnshiftedDigits(s: seq<Byte>, ds: nat, w: seq<Byte>)
    requires ds <= DIGITS && |w| == DIGITS && |s| == 2 * DIGITS
    requires forall k :: 0 <= k < ds ==> s[k] == 0
    requires s[ds..ds + DIGITS] == w
    requires forall k :: ds + DIGITS <= k < 2 * DIGITS ==> s[k] == 0
    ensures Num(s) == Scaled(Num(w), 8 * ds)
  {
    hide Num, Pow, Two;
    var z, t := s[..ds], s[ds + DIGITS..];
    assert s == (z + w) + t;
    NumZeros(z);
    NumZeros(t);
    NumAppend(z, w);
    NumAppend(z + w, t);
    TwoPow(ds);
  }

  /** multiple = mod << shift, for a shift of at most 8 * DIGITS bits. */
  method ShiftModulus(multiple: array<Byte>, mod: array<Byte>, shift: nat)
    requires multiple.Length == 2 * DIGITS && mod.Length == DIGITS && multiple != mod
    requires shift <= 8 * DIGITS
    modifies multiple
    ensures Wide(multiple) == Scaled(V(mod), shift)
  {
    hide V, Wide, Num, Scaled, Two;
    Clear(multiple);
    Clear(multiple, DIGITS);
    assert forall k :: 0 <= k < 2 * DIGITS ==> multiple[k] == 0;
    var ds, bs := shift / 8, shift % 8;
    VIs(mod);
    WideIs(multiple);
    if bs != 0 {
      var carry := Lshift(multiple, mod, bs, ds, 0);
      TwoSmall(bs);
      ghost var w := multiple[ds..ds + DIGITS];
      VIs(multiple, ds);
      multiple[ds + DIGITS] := carry;
      WideIs(multiple);
      assert multiple[..][ds..ds + DIGITS] == w;
      ShiftedDigits(multiple[..], ds, w, carry, V(mod), bs);
    } else {
      Set(multiple, mod, ds, 0);
      WideIs(multiple);
      UnshiftedDigits(multiple[..], ds, mod[0..DIGITS]);
    }
  }

  lemma TwoSmall(n: nat)
    requires n < 8
    ensures Two(n) <= 128
  {
    TwoAdd(n, 7 - n);
    TwoSeven();
    MulLe(1, Two(7 - n), Two(n));
  }

  /** The number of bits of a product. */
  method WideBits(product: array<Byte>) returns (n: nat)
    requires product.Length == 2 * DIGITS
    ensures n <= 16 * DIGITS
    ensures Wide(product) < Two(n)
  {
    hide V, Wide, Two;
    Halves(product);
    n := NumBits(product, DIGITS);
    if n != 0 {
      WideBound(V(product, 0), V(product, DIGITS), n);
      n := n + 8 * DIGITS;
    } else {
      n := NumBits(product);
    }
  }

  lemma WideBound(low: nat, high: nat, n: nat)
    requires low < RADIX && high < Two(n)
    ensures low + RADIX * high < Two(n + 8 * DIGITS)
  {
    TwoAdd(n, 8 * DIGITS);
    TwoPow(DIGITS);
    PowDigits();
    MulLe(high + 1, Two(n), RADIX);
  }

  /** The invariant of the loop: the multiple is mod << (bits - 8 * DIGITS), or mod >> 1 at the end,
      and the product is below twice the multiple. */
  ghost predicate Reducing(product: nat, multiple: nat, bits: int, m: nat, target: int) {
    && m > 0 && 8 * DIGITS - 1 <= bits
    && Cong(product, target, m)
    && (bits >= 8 * DIGITS ==> multiple == Scaled(m, bits - 8 * DIGITS) && product < 2 * multiple)
    && (bits == 8 * DIGITS - 1 ==> multiple == m / 2 && product < m)
  }

  lemma ReducingStart(product: nat, bits: nat, m: nat)
    requires RADIX <= 2 * m && 8 * DIGITS <= bits && product < Two(bits)
    ensures Reducing(product, Scaled(m, bits - 8 * DIGITS), bits, m, product)
  {
    hide Scaled, Two, Cong;
    CongRefl(product, m);
    ScaledCovers(m, bits - 8 * DIGITS, product);
  }

  lemma ReducingStep(product: nat, multiple: nat, bits: nat, m: nat, target: int)
    requires Reducing(product, multiple, bits, m, target) && bits >= 8 * DIGITS
    ensures var next := if multiple <= product then product - multiple else product;
            Reducing(next, multiple / 2, bits - 1, m, target)
  {
    hide Scaled, Two, Cong;
    CongLess(product, target, m, bits - 8 * DIGITS);
    if bits > 8 * DIGITS {
      ScaledHalf(m, bits - 8 * DIGITS);
    } else {
      ScaledZero(m);
    }
  }

  lemma ReducingDone(product: nat, multiple: nat, bits: nat, m: nat, target: int)
    requires Reducing(product, multiple, bits, m, target) && bits <= 8 * DIGITS && m < RADIX
    requires multiple % RADIX < m
    ensures product < m && Cong(product, target, m)
  {
    ScaledZero(m);
  }

  lemma RemainderIs(r: nat, target: int, m: nat)
    requires r < m && Cong(r, target, m)
    ensures r == target % m
  {
    CongMod(target, m);
    CongTrans(r, target, target % m, m);
    CongUnique(r, target % m, m);
  }

  lemma LowHalf(low: nat, high: nat)
    requires low < RADIX
    ensures (low + RADIX * high) % RADIX == low
  {}

  lemma ReducingContinues(product: nat, multiple: nat, bits: nat, m: nat, target: int)
    requires Reducing(product, multiple, bits, m, target) && m < RADIX
    requires bits > 8 * DIGITS || multiple % RADIX >= m
    ensures bits >= 8 * DIGITS
  {}

  lemma TwoTop()
    ensures Two(8 * DIGITS) == RADIX && 2 * Two(8 * DIGITS - 1) == RADIX
  {
    hide Pow;
    TwoPow(DIGITS);
    PowDigits();
    TwoStep(8 * DIGITS - 1);
  }

  /** A modulus with its top bit set has 8 * DIGITS bits. */
  lemma BitsOfModulus(m: nat, n: nat)
    requires RADIX <= 2 * m && m < Two(n) && n <= 8 * DIGITS
    ensures n == 8 * DIGITS
  {
    hide Two;
    TwoTop();
    if n < 8 * DIGITS {
      TwoUp(n, 8 * DIGITS - 1);
    }
  }

  lemma SmallProduct(x: nat, bits: nat, m: nat)
    requires RADIX <= 2 * m && x < Two(bits) && bits < 8 * DIGITS
    ensures x < m
  {
    hide Two;
    TwoTop();
    TwoUp(bits, 8 * DIGITS - 1);
  }

  lemma SmallHigh(low: nat, high: nat, m: nat)
    requires low + RADIX * high < m < RADIX
    ensures high == 0
  {}

  /** The loop of vli_modMult. */
  method ReduceLoop(product: array<Byte>, multiple: array<Byte>, one: array<Byte>, mod: array<Byte>, bits0: nat,
      ghost target: int)
    requires product.Length == multiple.Length == 2 * DIGITS && one.Length == mod.Length == DIGITS
    requires product != multiple && product != one && product != mod && multiple != one && multiple != mod
    requires V(one) == 1
    requires Reducing(Wide(product), Wide(multiple), bits0, V(mod), target)
    modifies product, multiple
    ensures Wide(product) < V(mod) && Cong(Wide(product), target, V(mod))
  {
    hide V, Wide, Reducing, Cong;
    var bits: int := bits0;
    Halves(multiple);
    LowHalf(V(multiple, 0), V(multiple, DIGITS));
    var cmp := Cmp(multiple, mod);
    while bits > 8 * DIGITS || cmp >= 0
      invariant bits >= 0 && Reducing(Wide(product), Wide(multiple), bits, V(mod), target)
      invariant Wide(multiple) % RADIX == V(multiple, 0)
      invariant cmp >= 0 <==> V(multiple, 0) >= V(mod)
      decreases bits
    {
      ReducingContinues(Wide(product), Wide(multiple), bits, V(mod), target);
      ReducingStep(Wide(product), Wide(multiple), bits, V(mod), target);
      SubtractIfLess(product, multiple, one);
      HalveWide(multiple);
      bits := bits - 1;
      Halves(multiple);
      LowHalf(V(multiple, 0), V(multiple, DIGITS));
      cmp := Cmp(multiple, mod);
    }
    ReducingDone(Wide(product), Wide(multiple), bits, V(mod), target);
  }

  /** result = left * right mod `mod`, for any mod with its top bit set. */
  method ModMult(result: array<Byte>, left: array<Byte>, right: array<Byte>, mod: array<Byte>)
    requires result.Length == left.Length == right.Length == mod.Length == DIGITS && result != mod
    requires RADIX <= 2 * V(mod)
    modifies result
    ensures V(result) == old(V(left) * V(right)) % V(mod)
  {
    hide V, Wide, Scaled, Two, Reducing, Cong;
    ghost var m, target := V(mod), V(left) * V(right);
    var product, multiple := new Byte[64], new Byte[64];
    Mult(product, left, right);
    var bits := WideBits(product);
    var modBits := NumBits(mod);
    BitsOfModulus(m, modBits);
    if bits < modBits {
      SmallProduct(Wide(product), bits, m);
      QuotientIs(Wide(product), m, 0, Wide(product));
      SetLow(result, product, m);
      return;
    }
    ShiftModulus(multiple, mod, bits - modBits);
    ReducingStart(Wide(product), bits, m);
    Clear(result);
    SetOne(result);
    ReduceLoop(product, multiple, result, mod, bits, target);
    RemainderIs(Wide(product), target, m);
    SetLow(result, product, m);
  }

  /** vli_set from a wide number that is small enough to fit. */
  method SetLow(result: array<Byte>, product: array<Byte>, ghost m: nat)
    requires result.Length == DIGITS && product.Length == 2 * DIGITS && result != product
    requires Wide(product) < m < RADIX
    modifies result
    ensures V(result) == Wide(product)
  {
    hide V, Wide;
    Halves(product);
    SmallHigh(V(product, 0), V(product, DIGITS), m);
    Set(result, product);
  }
}
