/** The products of crypt_bignum.cpp: schoolbook multiplication by in-place single-digit additions. */
module BignumMul {
  import opened Arith
  import opened Digits
  import opened Buffers
  import opened Bignum

  /** The buffer after adding x at digit o, as the number it holds. */
  lemma PlacedSum(low: nat, high: nat, high': nat, x: nat, p: nat)
    requires high' == high + x
    ensures low + p * high' == low + p * high + x * p
  {}

  lemma PlacedBound(low: nat, high: nat, x: nat, p: nat, q: nat)
    requires low + p * high + x * p < p * q
    ensures high + x < q
  {
    if q <= high + x {
      MulLe(q, high + x, p);
      Distribute(high, x, p);
    }
  }

  /** Adds a digit at place o of a product buffer: the carry stays inside the n digits. */
  method AddAt(value: array<Byte>, x: Byte, o: nat, n: nat)
    requires o < n < value.Length && Num(value[..n]) + x * Pow(o) < Pow(n)
    modifies value
    ensures Num(value[..n]) == old(Num(value[..n])) + x * Pow(o)
    ensures forall k :: n <= k < value.Length ==> value[k] == old(value[k])
  {
    hide Num, Pow, TrimLen, Trimmed;
    ghost var low, high := value[..o], value[o..n];
    assert value[..n] == low + high;
    NumAppend(low, high);
    PowAdd(o, n - o);
    PlacedBound(Num(low), Num(high), x, Pow(o), Pow(n - o));
    assert o + Span(n - o) == n;
    var _ := AddByte(value, value, x, n - o, o, o);
    assert value[..o] == low;
    assert value[..n] == low + value[o..n];
    NumAppend(low, value[o..n]);
    PlacedSum(Num(low), Num(high), Num(value[o..n]), x, Pow(o));
  }

  /** Row i of the product after j digits, with carry k still to be added. */
  ghost predicate RowSoFar(v: int, k: int, s: seq<Byte>, t: seq<Byte>, i: nat, j: nat) {
    && i < |t| && j <= |s|
    && v + k * Pow(i + j) == Num(s) * Num(t[..i]) + t[i] * (Num(s[..j]) * Pow(i))
  }

  lemma ProductBound(s: seq<Byte>, t: seq<Byte>)
    ensures Num(s) * Num(t) < Pow(|s| + |t|)
  {
    hide Num, Pow;
    NumBound(s);
    NumBound(t);
    PowAdd(|s|, |t|);
    MulBelow(Num(s), Num(t), Pow(|s|), Pow(|t|));
  }

  lemma MulBelow(a: nat, b: nat, p: nat, q: nat)
    requires a < p && b < q
    ensures a * b < p * q
  {
    MulLe(a, p, b);
    MulLe(b + 1, q, p);
    assert (b + 1) * p == p * b + p;
  }

  /** No row ever exceeds the rows read so far. */
  lemma RowBelow(s: seq<Byte>, t: seq<Byte>, i: nat, j: nat)
    requires i < |t| && j <= |s| && |s| > 0
    ensures Num(s) * Num(t[..i]) + t[i] * (Num(s[..j]) * Pow(i)) < Pow(|s| + |t|)
  {
    hide Num, Pow;
    PrefixLe(s, j);
    NumPrefix(t, i);
    PrefixLe(t, i + 1);
    ProductBound(s, t);
    RowTerms(Num(s), Num(t[..i]), t[i], Num(s[..j]), Pow(i), Num(t));
  }

  lemma RowTerms(a: nat, b: nat, d: nat, e: nat, p: nat, c: nat)
    requires e <= a && b + d * p <= c
    ensures a * b + d * (e * p) <= a * c
  {
    MulLe(e, a, d * p);
    assert d * (e * p) == e * (d * p);
    Distribute(b, d * p, a);
    MulLe(b + d * p, c, a);
  }

  lemma PrefixLe(s: seq<Byte>, j: nat)
    requires j <= |s|
    ensures Num(s[..j]) <= Num(s)
  {
    hide Num, Pow;
    assert s == s[..j] + s[j..];
    NumAppend(s[..j], s[j..]);
  }

  lemma RowStep(v: int, k: int, v': int, d: int, k': int, s: seq<Byte>, t: seq<Byte>, i: nat, j: nat)
    requires RowSoFar(v, k, s, t, i, j) && j < |s| && d + 256 * k' == (t[i] as int) * s[j] + k
    requires v' == v + d * Pow(i + j)
    ensures RowSoFar(v', k', s, t, i, j + 1)
  {
    hide Num, Pow;
    NumPrefix(s, j);
    NumPowStep(i + j);
    PowAdd(j, i);
    StepTerms(t[i], s[j], Num(s[..j]), Pow(j), Pow(i), Pow(i + j), d, k, k');
  }

  lemma StepTerms(b: int, a: int, e: int, q: int, p: int, r: int, d: int, k: int, k': int)
    requires r == q * p && d + 256 * k' == b * a + k
    ensures d * r + k' * (256 * r) == b * ((e + a * q) * p) - b * (e * p) + k * r
  {
    assert (e + a * q) * p == e * p + a * r by {
      Distribute(e, a * q, p);
      Associate(a, q, p);
    }
    Distribute(e * p, a * r, b);
    Associate(b, a, r);
    assert k' * (256 * r) == 256 * k' * r;
    Distribute(d, 256 * k', r);
    Distribute(b * a, k, r);
  }

  lemma RowStart(v: int, s: seq<Byte>, t: seq<Byte>, i: nat)
    requires i < |t| && v == Num(s) * Num(t[..i])
    ensures RowSoFar(v, 0, s, t, i, 0)
  {
    hide Pow;
    assert s[..0] == [];
  }

  lemma RowDone(v: int, k: int, s: seq<Byte>, t: seq<Byte>, i: nat)
    requires RowSoFar(v, k, s, t, i, |s|)
    ensures v + k * Pow(i + |s|) == Num(s) * Num(t[..i + 1])
  {
    hide Num, Pow;
    assert s[..|s|] == s;
    NumPrefix(t, i);
    Associate(t[i], Num(s), Pow(i));
    Distribute(Num(t[..i]), t[i] * Pow(i), Num(s));
  }

  lemma RowRoom(v: nat, k: nat, d: nat, k': nat, s: seq<Byte>, t: seq<Byte>, i: nat, j: nat)
    requires i < |t| && RowSoFar(v, k, s, t, i, j) && j < |s| && d + 256 * k' == (t[i] as int) * s[j] + k
    ensures v + d * Pow(i + j) < Pow(|s| + |t|)
  {
    hide Num, Pow, RowSoFar;
    RowStep(v, k, v + d * Pow(i + j), d, k', s, t, i, j);
    RowBelow(s, t, i, j + 1);
    RowIs(v + d * Pow(i + j), k', s, t, i, j + 1);
  }

  lemma RowIs(v: int, k: nat, s: seq<Byte>, t: seq<Byte>, i: nat, j: nat)
    requires RowSoFar(v, k, s, t, i, j)
    ensures v <= Num(s) * Num(t[..i]) + t[i] * (Num(s[..j]) * Pow(i))
  {
    hide Num, Pow;
    MulLe(0, k, Pow(i + j));
  }

  /** The product of two bytes and a carry fits in 16 bits, and its high byte is the next carry. */
  lemma DigitProduct(b: Byte, a: Byte, k: Byte)
    ensures 0 <= (b as int) * a + k < 0x1_0000
  {
    MulLe(b, 255, a);
  }

  /** One digit of a row: the low byte of the product is added, the high byte is carried. */
  method MulDigit(value: array<Byte>, a: Byte, d: Byte, carry: Byte, i: nat, j: nat, n: nat, ghost s: seq<Byte>,
      ghost t: seq<Byte>) returns (k: Byte)
    requires n == |s| + |t| < value.Length && i < |t| && j < |s| && t[i] == d && s[j] == a
    requires RowSoFar(Num(value[..n]), carry, s, t, i, j)
    modifies value
    ensures RowSoFar(Num(value[..n]), k, s, t, i, j + 1)
  {
    hide Num, Pow, RowSoFar;
    DigitProduct(d, a, carry);
    var temp := (d as int) * a + carry;
    RowRoom(Num(value[..n]), carry, temp % 256, temp / 256, s, t, i, j);
    RowStep(Num(value[..n]), carry, Num(value[..n]) + temp % 256 * Pow(i + j), temp % 256, temp / 256, s, t, i, j);
    AddAt(value, temp % 256, i + j, n);
    k := temp / 256;
  }

  /** Adds b[i] times a at digit i. */
  method MulRow(value: array<Byte>, a: array<Byte>, la: nat, lb: nat, d: Byte, i: nat, ghost s: seq<Byte>, ghost t: seq<Byte>)
    requires value != a && 1 <= la <= a.Length && s == a[0..la] && i < |t| == lb && t[i] == d && value.Length > la + lb
    requires Num(value[..la + lb]) == Num(s) * Num(t[..i])
    modifies value
    ensures Num(value[..la + lb]) == Num(s) * Num(t[..i + 1])
  {
    hide Num, Pow, RowSoFar;
    var n := la + lb;
    var k: Byte := 0;
    RowStart(Num(value[..n]), s, t, i);
    for j := 0 to la
      invariant RowSoFar(Num(value[..n]), k, s, t, i, j)
    {
      assert a[j] == s[j];
      k := MulDigit(value, a[j], d, k, i, j, n, s, t);
    }
    RowDone(Num(value[..n]), k, s, t, i);
    PrefixLe(t, i + 1);
    ProductBound(s, t);
    MulLe(Num(t[..i + 1]), Num(t), Num(s));
    AddAt(value, k, i + la, n);
  }

  /** result = a * b over all lengths; result may be a or b. */
  method Mul(result: array<Byte>, a: array<Byte>, b: array<Byte>, lengthA: nat, lengthB: nat) returns (length: nat)
    requires Span(lengthA) <= a.Length && Span(lengthB) <= b.Length
    requires Span(lengthA) + Span(lengthB) <= result.Length
    modifies result
    ensures 1 <= length <= Span(lengthA) + Span(lengthB) && Trimmed(result[0..length])
    ensures Val(result, length) == old(Val(a, lengthA)) * old(Val(b, lengthB))
    ensures var n := old(TrimLen(a[0..Span(lengthA)]) + TrimLen(b[0..Span(lengthB)]));
            Num(result[0..n]) == Val(result, length) && forall k :: n <= k < result.Length ==> result[k] == old(result[k])
  {
    hide Num, Pow, TrimLen, Trimmed, Val;
    ghost var x, y := Val(a, lengthA), Val(b, lengthB);
    var la := Len(a, lengthA);
    var lb := Len(b, lengthB);
    assert Num(a[0..la]) == x && Num(b[0..lb]) == y;
    length := MulDigits(result, a, b, la, lb);
    ValIs(result, length);
  }

  /** result = a * b for given numbers of digits. */
  method MulDigits(result: array<Byte>, a: array<Byte>, b: array<Byte>, la: nat, lb: nat) returns (length: nat)
    requires 1 <= la <= a.Length && 1 <= lb <= b.Length && la + lb <= result.Length
    modifies result
    ensures 1 <= length <= la + lb && Trimmed(result[0..length])
    ensures Num(result[0..length]) == Num(result[0..la + lb]) == old(Num(a[0..la])) * old(Num(b[0..lb]))
    ensures forall k :: la + lb <= k < result.Length ==> result[k] == old(result[k])
  {
    hide Num, Pow, TrimLen, Trimmed, Val;
    var value := Product(a, b, la, lb);
    CopyBytes(result, 0, value, 0, la + lb);
    assert result[0..la + lb] == value[0..la + lb];
    ValIs(result, la + lb);
    length := Len(result, la + lb);
  }

  /** The product in a fresh buffer with one digit to spare. */
  method Product(a: array<Byte>, b: array<Byte>, la: nat, lb: nat) returns (value: array<Byte>)
    requires 1 <= la <= a.Length && 1 <= lb <= b.Length
    ensures fresh(value) && value.Length == la + lb + 1
    ensures Num(value[0..la + lb]) == Num(a[0..la]) * Num(b[0..lb])
  {
    hide Num, Pow;
    ghost var s, t := a[0..la], b[0..lb];
    value := new Byte[la + lb + 1](_ => 0);
    NumZeros(value[..la + lb]);
    assert t[..0] == [];
    NumZeros(t[..0]);
    for i := 0 to lb
      invariant Num(value[..la + lb]) == Num(s) * Num(t[..i])
    {
      MulRow(value, a, la, lb, b[i], i, s, t);
    }
    assert t[..lb] == t;
    assert value[0..la + lb] == value[..la + lb];
  }

  /** result = a * b for a single digit b, at digit o of the result; result may be a. */
  method MulByte(result: array<Byte>, a: array<Byte>, b: Byte, lengthA: nat, o: nat := 0) returns (length: nat, ghost la: nat)
    requires Span(lengthA) <= a.Length && o + Span(lengthA) + 1 <= result.Length
    modifies result
    ensures 1 <= length <= Span(lengthA) + 1 && Trimmed(result[o..o + length])
    ensures Val(result, length, o) == old(Val(a, lengthA)) * b
    ensures la == old(TrimLen(a[0..Span(lengthA)])) && Num(result[o..o + la + 1]) == old(Val(a, lengthA)) * b
    ensures forall k :: 0 <= k < result.Length && !(o <= k < o + la + 1) ==> result[k] == old(result[k])
  {
    hide Num, Pow, TrimLen, Trimmed, Val;
    ghost var x := Val(a, lengthA);
    var n := Len(a, lengthA);
    la := n;
    assert Num(a[0..n]) == x;
    var value := ByteProduct(a, b, n);
    CopyBytes(result, o, value, 0, n + 1);
    assert result[o..o + n + 1] == value[0..n + 1];
    ValIs(result, n + 1, o);
    length := LenAt(result, n + 1, o);
    ValIs(result, length, o);
  }

  /** The product with a single digit, in a fresh buffer with one digit to spare. */
  method ByteProduct(a: array<Byte>, b: Byte, n: nat) returns (value: array<Byte>)
    requires 1 <= n <= a.Length
    ensures fresh(value) && value.Length == n + 2 && Num(value[0..n + 1]) == Num(a[0..n]) * b
  {
    hide Num, Pow;
    value := new Byte[n + 2](_ => 0);
    NumZeros(value[..n + 1]);
    assert [b][..0] == [];
    NumZeros([b][..0]);
    MulRow(value, a, n, 1, b, 0, a[0..n], [b]);
    assert [b][..1] == [b];
    DigitNum(b);
    assert value[..n + 1] == value[0..n + 1];
  }
}
