/** Column-wise products of ecc.c: vli_mult and vli_square with their 24-bit accumulator. */
module VliProduct {
  import opened Arith
  import opened Digits
  import opened Bits
  import opened Vli
  import opened Carry
  import opened VliSum

  /** A digit, or 0 outside the number. */
  function At(s: seq<Byte>, j: int): Byte { if 0 <= j < |s| then s[j] else 0 }

  /** The first i terms of column k of the product of l and r. */
  ghost function Column(l: seq<Byte>, r: seq<Byte>, k: int, i: nat): nat {
    if i == 0 then 0 else Column(l, r, k, i - 1) + (At(l, i - 1) as int) * At(r, k - (i - 1))
  }

  /** The first n columns, each at its weight. */
  ghost function Columns(l: seq<Byte>, r: seq<Byte>, n: nat): nat {
    if n == 0 then 0 else Columns(l, r, n - 1) + Column(l, r, n - 1, n) * Pow(n - 1)
  }

  /** The first n digits of r moved up by m places. */
  ghost function Moved(r: seq<Byte>, m: nat, n: nat): nat {
    if n == 0 then 0 else Moved(r, m, n - 1) + At(r, n - 1 - m) * Pow(n - 1)
  }

  lemma {:induction false} ColumnSnoc(l: seq<Byte>, x: Byte, r: seq<Byte>, k: int, i: nat)
    ensures Column(l + [x], r, k, i) == Column(l, r, k, i) + if i > |l| then (x as int) * At(r, k - |l|) else 0
  {
    if i > 0 {
      ColumnSnoc(l, x, r, k, i - 1);
      assert At(l + [x], i - 1) == if i - 1 == |l| then x else At(l, i - 1);
    }
  }

  lemma {:induction false} ColumnsSnoc(l: seq<Byte>, x: Byte, r: seq<Byte>, n: nat)
    ensures Columns(l + [x], r, n) == Columns(l, r, n) + x * Moved(r, |l|, n)
  {
    hide Column, Pow, Moved, Columns, At;
    if n > 0 {
      ColumnsSnoc(l, x, r, n - 1);
      ColumnSnoc(l, x, r, n - 1, n);
      AtOutside(r, n - 1 - |l|);
      ColumnsUnfold(l, r, n);
      ColumnsUnfold(l + [x], r, n);
      MovedUnfold(r, |l|, n);
      SnocTerms(Column(l, r, n - 1, n), x, At(r, n - 1 - |l|), Pow(n - 1), Moved(r, |l|, n - 1));
    } else {
      NoColumns(l, r);
      NoColumns(l + [x], r);
      assert x * 0 == 0;
    }
  }

  lemma NoColumns(l: seq<Byte>, r: seq<Byte>)
    ensures Columns(l, r, 0) == 0 && forall m :: Moved(r, m, 0) == 0
  {}

  lemma AtOutside(r: seq<Byte>, k: int)
    ensures k < 0 ==> At(r, k) == 0
  {}

  lemma ColumnsUnfold(l: seq<Byte>, r: seq<Byte>, n: nat)
    requires n > 0
    ensures Columns(l, r, n) == Columns(l, r, n - 1) + Column(l, r, n - 1, n) * Pow(n - 1)
  {}

  lemma MovedUnfold(r: seq<Byte>, m: nat, n: nat)
    requires n > 0
    ensures Moved(r, m, n) == Moved(r, m, n - 1) + At(r, n - 1 - m) * Pow(n - 1)
  {}

  lemma SnocTerms(c: int, x: int, a: int, p: int, m: int)
    ensures (c + x * a) * p + x * m == c * p + x * (m + a * p)
  {
    Distribute(c, x * a, p);
    Distribute(m, a * p, x);
    Associate(x, a, p);
  }

  lemma {:induction false} MovedIs(r: seq<Byte>, m: nat, n: nat)
    ensures n <= m ==> Moved(r, m, n) == 0
    ensures m <= n <= m + |r| ==> Moved(r, m, n) == Pow(m) * Num(r[..n - m])
    ensures n >= m + |r| ==> Moved(r, m, n) == Pow(m) * Num(r)
  {
    if n == 0 {
      assert r[..0] == [] && Pow(m) * 0 == 0;
    } else {
      MovedIs(r, m, n - 1);
      hide Pow, Moved, Num;
      MovedUnfold(r, m, n);
      if n <= m {
        NumPrefixEmpty(r);
      } else if n <= m + |r| {
        if n - 1 == m {
          NumPrefixEmpty(r);
        }
        NumPrefix(r, n - 1 - m);
        PowAdd(m, n - 1 - m);
        DistributeDigit(Pow(m), Num(r[..n - 1 - m]), r[n - 1 - m], Pow(n - 1 - m));
        assert r[..|r|] == r;
      } else {
        assert r[..|r|] == r;
      }
    }
  }

  lemma NumPrefixEmpty(r: seq<Byte>)
    ensures Num(r[..0]) == 0
  {}

  /** The columns add up to the product. */
  lemma {:induction false} ColumnsAreProduct(l: seq<Byte>, r: seq<Byte>, n: nat)
    requires |l| + |r| <= n + 1
    ensures Columns(l, r, n) == Num(l) * Num(r)
  {
    if |l| == 0 {
      assert l == [];
      ColumnsEmpty(r, n);
    } else {
      var l', x := l[..|l| - 1], l[|l| - 1];
      assert l == l' + [x];
      ColumnsAreProduct(l', r, n);
      hide *;
      ColumnsSnoc(l', x, r, n);
      MovedIs(r, |l'|, n);
      assert r[..|r|] == r;
      NumSnoc(l', x);
      Distribute(Num(l'), x * Pow(|l'|), Num(r));
      Associate(x, Pow(|l'|), Num(r));
    }
  }

  lemma {:induction false} ColumnsEmpty(r: seq<Byte>, n: nat)
    ensures Columns([], r, n) == 0
  {
    if n > 0 {
      ColumnsEmpty(r, n - 1);
      ColumnEmpty(r, n - 1, n);
    }
  }

  lemma {:induction false} ColumnEmpty(r: seq<Byte>, k: int, i: nat)
    ensures Column([], r, k, i) == 0
  {
    if i > 0 {
      ColumnEmpty(r, k, i - 1);
    }
  }

  /** Terms whose second index is past the end of r are zero. */
  lemma {:induction false} ColumnStart(l: seq<Byte>, r: seq<Byte>, k: int, i: nat)
    requires i == 0 || k - (i - 1) >= |r|
    ensures Column(l, r, k, i) == 0
  {
    if i > 0 {
      ColumnStart(l, r, k, i - 1);
    }
  }

  /** Terms whose first index is past the end of l are zero. */
  lemma {:induction false} ColumnEnd(l: seq<Byte>, r: seq<Byte>, k: int, i: nat, j: nat)
    requires i <= j && i >= |l|
    ensures Column(l, r, k, j) == Column(l, r, k, i)
  {
    if i < j {
      ColumnEnd(l, r, k, i, j - 1);
    }
  }

  /** The terms of a square's column pair up around its middle. */
  lemma {:induction false} ColumnSymmetric(l: seq<Byte>, k: nat, i: nat)
    requires i <= k + 1
    ensures Column(l, l, k, k + 1) == Column(l, l, k, k + 1 - i) + Column(l, l, k, i)
  {
    hide Column;
    ColumnMore(l, l, k, i);
    ColumnMore(l, l, k, k + 1 - i);
    if i > 0 {
      ColumnSymmetric(l, k, i - 1);
      ColumnMore(l, l, k, i - 1);
      TermCommutes(l, k + 1 - i, i - 1);
    }
  }

  lemma ColumnMore(l: seq<Byte>, r: seq<Byte>, k: int, i: nat)
    ensures Column(l, r, k, 0) == 0
    ensures Column(l, r, k, i + 1) == Column(l, r, k, i) + (At(l, i) as int) * At(r, k - i)
  {}

  lemma TermCommutes(l: seq<Byte>, i: int, j: int)
    ensures (At(l, i) as int) * At(l, j) == (At(l, j) as int) * At(l, i)
  {}

  /** The accumulator: r01 and r2 hold one 24-bit number. */
  ghost function Acc(r01: int, r2: int): int { r01 + 0x1_0000 * r2 }

  /** A wrapped sum that is below its summand has lost exactly one carry. */
  lemma Accumulate(r01: nat, product: nat)
    requires r01 < 0x1_0000 && product < 0x1_0000
    ensures var t := (r01 + product) % 0x1_0000;
            t + (if t < product then 0x1_0000 else 0) == r01 + product
  {}

  lemma ByteProduct(a: Byte, b: Byte)
    ensures 0 <= (a as int) * b <= 65025
  {
    MulLe(a, 255, b);
  }

  /** The accumulator moves down one digit. */
  lemma MoveDown(r01: nat, r2: nat)
    requires r01 < 0x1_0000 && r2 < 256
    ensures 256 * Or(r2 * 256, r01 / 256) + r01 % 256 == Acc(r01, r2)
    ensures Or(r2 * 256, r01 / 256) < 0x1_0000
    ensures Or(r01 / 256, r2 * 256) == Or(r2 * 256, r01 / 256)
  {
    SmallTwos();
    OrCommutes(r01 / 256, r2 * 256);
    OrDisjoint(r2, 8, r01 / 256);
  }

  /** The invariant of both products between columns. */
  ghost predicate ProductSoFar(w: seq<Byte>, c: int, l: seq<Byte>, r: seq<Byte>, k: nat) {
    |w| == k && Num(w) + c * Pow(k) == Columns(l, r, k)
  }

  lemma ProductStart(l: seq<Byte>, r: seq<Byte>)
    ensures ProductSoFar([], 0, l, r, 0)
  {}

  lemma ProductStep(w: seq<Byte>, c: int, l: seq<Byte>, r: seq<Byte>, k: nat, d: Byte, c': int)
    requires ProductSoFar(w, c, l, r, k)
    requires 256 * c' + d == c + Column(l, r, k, k + 1)
    ensures ProductSoFar(w + [d], c', l, r, k + 1)
  {
    hide Num, Pow, Column, Columns;
    ColumnsUnfold(l, r, k + 1);
    NumSnoc(w, d);
    NumPowStep(k);
    CarryTerms(d, c', Column(l, r, k, k + 1), 0, c, Pow(k));
  }

  lemma ProductDone(w: seq<Byte>, c: nat, l: seq<Byte>, r: seq<Byte>)
    requires |l| == |r| == DIGITS && ProductSoFar(w, c, l, r, 2 * DIGITS - 1)
    ensures c < 256 && Num(w + [c]) == Num(l) * Num(r)
  {
    hide Num, Pow, Column, Columns;
    ColumnsAreProduct(l, r, 2 * DIGITS - 1);
    NumBound(l);
    NumBound(r);
    PowAdd(DIGITS, DIGITS);
    NumPowStep(2 * DIGITS - 1);
    ProductBound(Num(l), Num(r), Pow(DIGITS));
    CarryBound(Num(w), c, Pow(2 * DIGITS - 1));
    NumSnoc(w, c);
  }

  lemma ProductBound(a: nat, b: nat, p: nat)
    requires a < p && b < p
    ensures a * b < p * p
  {
    MulLe(a, p, b);
    MulLe(b + 1, p, p);
    Distribute(b, 1, p);
  }

  lemma CarryBound(w: nat, c: nat, p: nat)
    requires p > 0 && w + c * p < 256 * p
    ensures c < 256
  {
    if c >= 256 {
      MulLe(256, c, p);
    }
  }

  /** The value of the 2 * DIGITS digits of a product. */
  ghost function Wide(a: array<Byte>): nat
    reads a
  {
    Num(a[..])
  }

  lemma WideIs(a: array<Byte>)
    ensures Wide(a) == Num(a[..])
  {}

  /** result = left * right. */
  method Mult(result: array<Byte>, left: array<Byte>, right: array<Byte>)
    requires left.Length == right.Length == DIGITS && result.Length == 2 * DIGITS
    modifies result
    ensures Wide(result) == V(left) * V(right)
  {
    hide *;
    DigitsIs();
    ghost var l, r := left[0..DIGITS], right[0..DIGITS];
    VIs(left);
    VIs(right);
    var r01, r2 := 0, 0;
    ghost var w: seq<Byte> := [];
    ProductStart(l, r);
    for k := 0 to 2 * DIGITS - 1
      invariant 0 <= r01 < 0x1_0000 && r2 == 0 && |w| == k
      invariant forall j :: 0 <= j < k ==> result[j] == w[j]
      invariant ProductSoFar(w, r01, l, r, k)
    {
      ghost var c := r01;
      r01, r2 := MultColumn(left, right, k, r01);
      MoveDown(r01, r2);
      result[k] := r01 % 256;
      ProductStep(w, c, l, r, k, result[k], Or(r01 / 256, r2 * 256));
      w := w + [result[k]];
      r01 := Or(r01 / 256, r2 * 256);
      r2 := 0;
    }
    ProductDone(w, r01, l, r);
    result[2 * DIGITS - 1] := r01 % 256;
    WideIs(result);
    assert result[..] == w + [r01];
  }

  /** The inner loop of vli_mult: column k added to the carry r01. */
  method MultColumn(left: array<Byte>, right: array<Byte>, k: nat, carry: nat) returns (r01: nat, r2: nat)
    requires left.Length == right.Length == DIGITS && k < 2 * DIGITS - 1 && carry < 0x1_0000
    ensures r01 < 0x1_0000 && r2 < 256
    ensures Acc(r01, r2) == carry + Column(left[0..DIGITS], right[0..DIGITS], k, k + 1)
  {
    hide *;
    DigitsIs();
    ghost var l, r := left[0..DIGITS], right[0..DIGITS];
    r01, r2 := carry, 0;
    var i := if k < DIGITS then 0 else k + 1 - DIGITS;
    ColumnStart(l, r, k, i);
    AccIs(r01, r2);
    while i <= k && i < DIGITS
      invariant i <= k + 1 && i <= DIGITS && k - i < DIGITS
      invariant r01 < 0x1_0000 && r2 <= i
      invariant Acc(r01, r2) == carry + Column(l, r, k, i)
    {
      ByteProduct(left[i], right[k - i]);
      var product := Times(left[i], right[k - i]);
      ColumnStep(l, r, k, i);
      AccIs(r01, r2);
      Accumulate(r01, product);
      r01 := (r01 + product) % 0x1_0000;
      r2 := r2 + if r01 < product then 1 else 0;
      AccIs(r01, r2);
      i := i + 1;
    }
    if i <= k {
      ColumnEnd(l, r, k, i, k + 1);
    }
  }

  /** The 16-bit product of two digits. */
  function Times(a: Byte, b: Byte): int { (a as int) * b }

  lemma AccIs(r01: int, r2: int)
    ensures Acc(r01, r2) == r01 + 0x1_0000 * r2
  {}

  lemma ColumnStep(l: seq<Byte>, r: seq<Byte>, k: nat, i: nat)
    requires i < |l| && 0 <= k - i < |r|
    ensures 0 <= Times(l[i], r[k - i]) <= 65025
    ensures Column(l, r, k, i + 1) == Column(l, r, k, i) + Times(l[i], r[k - i])
  {
    ByteProduct(l[i], r[k - i]);
  }

  /** What the first i rounds of vli_square add to column k: two terms a round, one at the middle. */
  ghost function HalfColumn(s: seq<Byte>, k: nat, i: nat): nat
  {
    if 2 * i <= k + 1 || i == 0 then 2 * Column(s, s, k, i)
    else 2 * Column(s, s, k, i - 1) + (At(s, i - 1) as int) * At(s, k - (i - 1))
  }

  lemma HalfColumnStep(s: seq<Byte>, k: nat, i: nat)
    requires i < |s| && i <= k - i < |s|
    ensures 0 <= Times(s[i], s[k - i]) <= 65025
    ensures HalfColumn(s, k, i + 1)
            == HalfColumn(s, k, i) + if i < k - i then 2 * Times(s[i], s[k - i]) else Times(s[i], s[k - i])
  {
    ByteProduct(s[i], s[k - i]);
  }

  lemma HalfColumnStart(s: seq<Byte>, k: nat, i: nat)
    requires i == 0 || (k - (i - 1) >= |s| && 2 * i <= k + 1)
    ensures HalfColumn(s, k, i) == 0
  {
    ColumnStart(s, s, k, i);
  }

  lemma HalfColumnDone(s: seq<Byte>, k: nat, i: nat)
    requires k < 2 * i <= k + 2
    ensures HalfColumn(s, k, i) == Column(s, s, k, k + 1)
  {
    ColumnSymmetric(s, k, k + 1 - i);
    assert k + 1 - (k + 1 - i) == i;
  }

  /** A doubled product loses its top bit and the sum its carry; both are counted. */
  lemma AccumulateTwice(r01: nat, product: nat)
    requires r01 < 0x1_0000 && product < 0x1_0000
    ensures var p := product * 2 % 0x1_0000;
            var t := (r01 + p) % 0x1_0000;
            t + 0x1_0000 * (product / 0x8000 + if t < p then 1 else 0) == r01 + 2 * product
    ensures product / 0x8000 <= 1
  {
    Accumulate(r01, product * 2 % 0x1_0000);
  }

  /** The inner loop of vli_square. */
  method SquareColumn(left: array<Byte>, k: nat, carry: nat) returns (r01: nat, r2: nat)
    requires left.Length == DIGITS && k < 2 * DIGITS - 1 && carry < 0x1_0000
    ensures r01 < 0x1_0000 && r2 < 256
    ensures Acc(r01, r2) == carry + Column(left[0..DIGITS], left[0..DIGITS], k, k + 1)
  {
    hide *;
    DigitsIs();
    ghost var l := left[0..DIGITS];
    r01, r2 := carry, 0;
    var i := if k < DIGITS then 0 else k + 1 - DIGITS;
    HalfColumnStart(l, k, i);
    AccIs(r01, r2);
    while i <= k && i <= k - i
      invariant 2 * i <= k + 2 && k - i < DIGITS
      invariant r01 < 0x1_0000 && r2 <= 2 * i
      invariant Acc(r01, r2) == carry + HalfColumn(l, k, i)
    {
      HalfColumnStep(l, k, i);
      var product := Times(left[i], left[k - i]);
      AccIs(r01, r2);
      if i < k - i {
        AccumulateTwice(r01, product);
        r2 := r2 + product / 0x8000;
        product := product * 2 % 0x1_0000;
      } else {
        Accumulate(r01, product);
      }
      r01 := (r01 + product) % 0x1_0000;
      r2 := r2 + if r01 < product then 1 else 0;
      AccIs(r01, r2);
      i := i + 1;
    }
    HalfColumnDone(l, k, i);
  }

  /** result = left * left. */
  method Square(result: array<Byte>, left: array<Byte>)
    requires left.Length == DIGITS && result.Length == 2 * DIGITS
    modifies result
    ensures Wide(result) == V(left) * V(left)
  {
    hide *;
    DigitsIs();
    ghost var l := left[0..DIGITS];
    VIs(left);
    var r01, r2 := 0, 0;
    ghost var w: seq<Byte> := [];
    ProductStart(l, l);
    for k := 0 to 2 * DIGITS - 1
      invariant 0 <= r01 < 0x1_0000 && r2 == 0 && |w| == k
      invariant forall j :: 0 <= j < k ==> result[j] == w[j]
      invariant ProductSoFar(w, r01, l, l, k)
    {
      ghost var c := r01;
      r01, r2 := SquareColumn(left, k, r01);
      MoveDown(r01, r2);
      result[k] := r01 % 256;
      ProductStep(w, c, l, l, k, result[k], Or(r01 / 256, r2 * 256));
      w := w + [result[k]];
      r01 := Or(r01 / 256, r2 * 256);
      r2 := 0;
    }
    ProductDone(w, r01, l, l);
    result[2 * DIGITS - 1] := r01 % 256;
    WideIs(result);
    assert result[..] == w + [r01];
  }
}
