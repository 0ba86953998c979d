/** Variable-length numbers of crypt_bignum.cpp: length, order, sum and difference. */
module Bignum {
  import opened Arith
  import opened Digits
  import opened Bits
  import opened Carry

  /** The digits a length stands for: a length of 0 is read as 1. */
  function Span(n: nat): nat { if n == 0 then 1 else n }

  /** The number at a + o: only its first n digits are meaningful. */
  ghost function Val(a: array<Byte>, n: nat, o: nat := 0): nat
    requires o + Span(n) <= a.Length
    reads a
  {
    Num(a[o..o + Span(n)])
  }

  lemma ValIs(a: array<Byte>, n: nat, o: nat := 0)
    requires n > 0 && o + n <= a.Length
    ensures Val(a, n, o) == Num(a[o..o + n])
  {}

  lemma ValWhole(a: array<Byte>, n: nat, o: nat)
    requires o + Span(n) <= a.Length
    ensures Val(a, n, o) == Num(a[o..o + Span(n)])
  {}

  lemma ValOf(a: array<Byte>, n: nat)
    requires Span(n) <= a.Length
    ensures Val(a, n) == Num(a[0..Span(n)])
  {}

  lemma SubSlice(s: seq<Byte>, o: nat, n: nat, m: nat)
    requires m <= n && o + n <= |s|
    ensures s[o..o + n][..m] == s[o..o + m]
  {}

  /** The number of digits without leading zeros, but at least one. */
  function TrimLen(s: seq<Byte>): (n: nat)
    requires |s| > 0
    ensures 1 <= n <= |s| && (n == 1 || s[n - 1] != 0)
  {
    if |s| == 1 || s[|s| - 1] != 0 then |s| else TrimLen(s[..|s| - 1])
  }

  /** The number of digits without leading zeros. */
  ghost function LengthOf(a: array<Byte>, n: nat): nat
    requires Span(n) <= a.Length
    reads a
  {
    TrimLen(a[0..Span(n)])
  }

  lemma FullLength(s: seq<Byte>)
    requires |s| > 0 && s[|s| - 1] != 0
    ensures TrimLen(s) == |s|
  {}

  /** No leading zero. */
  ghost predicate Trimmed(s: seq<Byte>) {
    |s| == 1 || (|s| > 1 && s[|s| - 1] != 0)
  }

  lemma {:induction false} TrimLenValue(s: seq<Byte>)
    requires |s| > 0
    ensures Num(s[..TrimLen(s)]) == Num(s) && Trimmed(s[..TrimLen(s)])
  {
    var t := s[..|s| - 1];
    if |s| == 1 || s[|s| - 1] != 0 {
      assert s[..|s|] == s;
    } else {
      TrimLenValue(t);
      assert s[..TrimLen(t)] == t[..TrimLen(t)];
      NumSnoc(t, 0);
      assert s == t + [0];
    }
  }

  lemma {:induction false} PowMonotone(m: nat, n: nat)
    requires m <= n
    ensures Pow(m) <= Pow(n)
  {
    if m < n {
      PowMonotone(m, n - 1);
    }
  }

  /** A nonzero leading digit bounds the number from below. */
  lemma LeadingBound(s: seq<Byte>)
    requires |s| > 0
    ensures s[|s| - 1] * Pow(|s| - 1) <= Num(s) < (s[|s| - 1] + 1) * Pow(|s| - 1)
    ensures s[|s| - 1] != 0 ==> Pow(|s| - 1) <= Num(s)
  {
    var n := |s| - 1;
    NumBound(s[..n]);
    Distribute(s[n], 1, Pow(n));
    if s[n] != 0 {
      MulLe(1, s[n], Pow(n));
    }
  }

  /** A longer trimmed number is larger. */
  lemma ShorterLess(s: seq<Byte>, t: seq<Byte>)
    requires |s| < |t| && Trimmed(t) && |s| > 0
    ensures Num(s) < Num(t)
  {
    hide Num, Pow;
    NumBound(s);
    LeadingBound(t);
    PowMonotone(|s|, |t| - 1);
  }

  /** Equal trimmed numbers have the same digits. */
  lemma TrimmedUnique(s: seq<Byte>, t: seq<Byte>)
    requires Trimmed(s) && Trimmed(t) && Num(s) == Num(t)
    ensures s == t
  {
    hide Num;
    if |s| < |t| {
      ShorterLess(s, t);
    } else if |t| < |s| {
      ShorterLess(t, s);
    } else {
      NumInjective(s, t);
    }
  }

  lemma TrimStep(s: seq<Byte>, n: nat)
    requires 0 < n <= |s| && TrimLen(s) == TrimLen(s[..n])
    ensures n == 1 || s[n - 1] != 0 ==> TrimLen(s) == n
    ensures n > 1 && s[n - 1] == 0 ==> TrimLen(s) == TrimLen(s[..n - 1])
  {
    hide TrimLen;
    assert s[..n][..n - 1] == s[..n - 1];
    TrimLast(s[..n]);
  }

  lemma TrimLast(s: seq<Byte>)
    requires |s| > 0
    ensures TrimLen(s) == if |s| == 1 || s[|s| - 1] != 0 then |s| else TrimLen(s[..|s| - 1])
  {}

  method LenAt(a: array<Byte>, n: nat, o: nat) returns (length: nat)
    requires o + Span(n) <= a.Length
    ensures length == TrimLen(a[o..o + Span(n)])
    ensures Num(a[o..o + length]) == Val(a, n, o) == Val(a, length, o) && Trimmed(a[o..o + length])
  {
    hide Num, TrimLen, Trimmed, Val;
    ghost var s := a[o..o + Span(n)];
    TrimLenValue(s);
    assert Val(a, n, o) == Num(s) by { ValWhole(a, n, o); }
    if n == 0 {
      length := 1;
    } else {
      length := n;
      assert s[..n] == s;
      while length != 0 && a[o + length - 1] == 0
        invariant length <= n
        invariant length > 0 ==> TrimLen(s) == TrimLen(s[..length])
        invariant length == 0 ==> TrimLen(s) == 1
      {
        assert s[length - 1] == a[o + length - 1];
        TrimStep(s, length);
        length := length - 1;
      }
      if length == 0 {
        length := 1;
      } else {
        assert s[length - 1] == a[o + length - 1];
        TrimStep(s, length);
      }
    }
    SubSlice(a[..], o, Span(n), length);
    assert s[..length] == a[o..o + length];
    ValIs(a, length, o);
  }

  /** _len: the number of digits without leading zeros. */
  method Len(a: array<Byte>, n: nat) returns (length: nat)
    requires Span(n) <= a.Length
    ensures 1 <= length <= Span(n) && length == LengthOf(a, n) == TrimLen(a[0..Span(n)])
    ensures Num(a[0..length]) == Val(a, n) == Val(a, length) && Trimmed(a[0..length])
  {
    hide Num, TrimLen, Trimmed, Val;
    length := LenAt(a, n, 0);
    assert a[0..0 + Span(n)] == a[0..Span(n)] && a[0..0 + length] == a[0..length];
  }

  /** The sign of a - b. */
  method Cmp(a: array<Byte>, b: array<Byte>, lengthA: nat, lengthB: nat) returns (r: int)
    requires Span(lengthA) <= a.Length && Span(lengthB) <= b.Length
    ensures r == if Val(a, lengthA) < Val(b, lengthB) then -1 else if Val(a, lengthA) > Val(b, lengthB) then 1 else 0
  {
    hide Num, Pow, TrimLen;
    var la := Len(a, lengthA);
    var lb := Len(b, lengthB);
    ghost var s, t := a[0..la], b[0..lb];
    if la < lb {
      ShorterLess(s, t);
      return -1;
    }
    if la > lb {
      ShorterLess(t, s);
      return 1;
    }
    var i := la - 1;
    while i >= 0
      invariant -1 <= i < la
      invariant forall k :: i < k < la ==> s[k] == t[k]
    {
      assert a[i] == s[i] && b[i] == t[i];
      if a[i] < b[i] {
        NumOrder(s, t, i);
        return -1;
      }
      if a[i] > b[i] {
        NumOrder(t, s, i);
        return 1;
      }
      i := i - 1;
    }
    assert s == t;
    return 0;
  }

  /** The sign of a - b for a single digit b. */
  method CmpByte(a: array<Byte>, b: Byte, lengthA: nat) returns (r: int)
    requires Span(lengthA) <= a.Length
    ensures r == if Val(a, lengthA) < b then -1 else if Val(a, lengthA) > b then 1 else 0
  {
    hide Num, Pow, TrimLen;
    var la := Len(a, lengthA);
    ghost var s := a[0..la];
    DigitNum(b);
    if la > 1 {
      ShorterLess([b], s);
      return 1;
    }
    DigitNum(a[0]);
    assert s == [a[0]];
    if a[0] < b {
      return -1;
    }
    if a[0] > b {
      return 1;
    }
    return 0;
  }

  lemma DigitNum(d: Byte)
    ensures Num([d]) == d
  {
    assert [d][..0] == [];
    assert Pow(0) == 1;
  }

  /** The digits of s followed by zeros up to n digits. */
  ghost function Padded(s: seq<Byte>, n: nat): (t: seq<Byte>)
    requires |s| <= n
    ensures |t| == n && forall k :: 0 <= k < n ==> t[k] == if k < |s| then s[k] else 0
  {
    s + seq(n - |s|, _ => 0)
  }

  lemma PaddedValue(s: seq<Byte>, n: nat)
    requires |s| <= n
    ensures Num(Padded(s, n)) == Num(s)
  {
    hide Num, Pow;
    var z: seq<Byte> := seq(n - |s|, _ => 0);
    NumAppend(s, z);
    NumZeros(z);
  }

  /** The sum of all digits, when the loop is done. */
  lemma WholeSum(w: seq<Byte>, c: int, s: seq<Byte>, t: seq<Byte>, n: nat)
    requires |s| <= n && |t| <= n && SumSoFar(w, c, Padded(s, n), Padded(t, n), n)
    ensures Num(w) + c * Pow(n) == Num(s) + Num(t)
  {
    hide Num, Pow, Padded;
    PaddedValue(s, n);
    PaddedValue(t, n);
    assert Padded(s, n)[..n] == Padded(s, n) && Padded(t, n)[..n] == Padded(t, n);
  }

  function Max(m: nat, n: nat): nat { if m < n then n else m }

  /** The loop of _add over trimmed numbers; result may be a or b. */
  method AddDigits(result: array<Byte>, a: array<Byte>, b: array<Byte>, la: nat, lb: nat) returns (j: Byte)
    requires 1 <= la <= a.Length && 1 <= lb <= b.Length && Max(la, lb) <= result.Length
    modifies result
    ensures j <= 1 && Num(result[0..Max(la, lb)]) + j * Pow(Max(la, lb)) == old(Num(a[0..la])) + old(Num(b[0..lb]))
  {
    hide Num, Pow, SumSoFar, Padded;
    var flag := la >= lb;
    var short, long := if flag then lb else la, if flag then la else lb;
    ghost var s, t := a[0..la], b[0..lb];
    ghost var x, y := Padded(s, long), Padded(t, long);
    ghost var w: seq<Byte> := [];
    j := 0;
    SumStart(x, y);
    for i := 0 to long
      invariant j <= 1 && |w| == i
      invariant forall k :: i <= k < la ==> a[k] == s[k]
      invariant forall k :: i <= k < lb ==> b[k] == t[k]
      invariant forall k :: 0 <= k < i ==> result[k] == w[k]
      invariant SumSoFar(w, j, x, y, i)
    {
      ghost var c := j;
      var temp: nat := if flag then a[i] else b[i];
      if i < short {
        temp := temp + if flag then b[i] else a[i];
      }
      temp := temp + j;
      assert temp == (x[i] as int) + y[i] + c;
      result[i] := temp % 256;
      j := temp / 256;
      AddStep(w, c, x, y, i, temp % 256, j);
      w := w + [temp % 256];
    }
    WholeSum(w, j, s, t, long);
    assert result[0..long] == w;
  }

  /** result = a + b for a result with room for the sum; result may be a or b. */
  method Add(result: array<Byte>, a: array<Byte>, b: array<Byte>, lengthA: nat, lengthB: nat) returns (length: nat)
    requires Span(lengthA) <= a.Length && Span(lengthB) <= b.Length
    requires result.Length > 0 && Val(a, lengthA) + Val(b, lengthB) < Pow(result.Length)
    modifies result
    ensures 1 <= length <= result.Length && length <= Max(Span(lengthA), Span(lengthB)) + 1
    ensures Val(result, length) == old(Val(a, lengthA)) + old(Val(b, lengthB)) && Trimmed(result[0..length])
  {
    hide Num, Pow, TrimLen, Trimmed, Val;
    ghost var x, y := Val(a, lengthA), Val(b, lengthB);
    var la := Len(a, lengthA);
    var lb := Len(b, lengthB);
    assert Num(a[0..la]) == x && Num(b[0..lb]) == y;
    TrimmedFits(a[0..la], result.Length);
    TrimmedFits(b[0..lb], result.Length);
    var j := AddDigits(result, a, b, la, lb);
    CarryRoom(Num(result[0..Max(la, lb)]), j, Max(la, lb), result.Length);
    length := StoreCarry(result, Max(la, lb), j);
    ValIs(result, length);
  }

  /** A trimmed number below 256^n has at most n digits. */
  lemma TrimmedFits(s: seq<Byte>, n: nat)
    requires Trimmed(s) && n > 0 && Num(s) < Pow(n)
    ensures |s| <= n
  {
    hide Num, Pow;
    if |s| > n {
      LeadingBound(s);
      PowMonotone(n, |s| - 1);
    }
  }

  /** There is room for the carry of a sum that fits. */
  lemma CarryRoom(w: nat, j: nat, n: nat, room: nat)
    requires w + j * Pow(n) < Pow(room) && n <= room && j <= 1
    ensures n + j <= room
  {}

  /** Appends the carry, if there is one, and trims. */
  method StoreCarry(result: array<Byte>, n: nat, j: Byte, o: nat := 0) returns (length: nat)
    requires n > 0 && j <= 1 && o + n + j <= result.Length
    modifies result
    ensures 1 <= length <= n + j && o + length <= result.Length
    ensures Val(result, length, o) == old(Num(result[o..o + n])) + j * Pow(n) && Trimmed(result[o..o + length])
    ensures Num(result[o..o + n + j]) == old(Num(result[o..o + n])) + j * Pow(n)
    ensures forall k :: 0 <= k < result.Length && !(j != 0 && k == o + n) ==> result[k] == old(result[k])
  {
    hide Num, Pow, TrimLen, Trimmed;
    ghost var w := result[o..o + n];
    length := n;
    if j != 0 {
      result[o + n] := 1;
      length := length + 1;
      NumSnoc(w, 1);
      assert result[o..o + length] == w + [1];
    }
    length := LenAt(result, length, o);
  }

  /** The loop of _add with a single digit. */
  method AddByteDigits(result: array<Byte>, a: array<Byte>, b: Byte, n: nat, ro: nat, o: nat) returns (j: Byte)
    requires 1 <= n && o + n <= a.Length && ro + n <= result.Length && (result == a ==> ro == o)
    modifies result
    ensures j <= 1 && Num(result[ro..ro + n]) + j * Pow(n) == old(Num(a[o..o + n])) + b
    ensures forall k :: 0 <= k < result.Length && !(ro <= k < ro + n) ==> result[k] == old(result[k])
  {
    hide Num, Pow, SumSoFar, Padded;
    ghost var x := a[o..o + n];
    ghost var y := Padded([b], n);
    ghost var w: seq<Byte> := [];
    j := 0;
    SumStart(x, y);
    for i := 0 to n
      invariant j <= 1 && |w| == i
      invariant forall k :: i <= k < n ==> a[o + k] == x[k]
      invariant forall k :: 0 <= k < i ==> result[ro + k] == w[k]
      invariant forall k :: 0 <= k < result.Length && !(ro <= k < ro + i) ==> result[k] == old(result[k])
      invariant SumSoFar(w, j, x, y, i)
    {
      ghost var c := j;
      var temp: nat := a[o + i];
      if i < 1 {
        temp := temp + b;
      }
      temp := temp + j;
      assert temp == (x[i] as int) + y[i] + c;
      result[ro + i] := temp % 256;
      j := temp / 256;
      AddStep(w, c, x, y, i, temp % 256, j);
      w := w + [temp % 256];
    }
    DigitNum(b);
    PaddedSelf(x);
    WholeSum(w, j, x, [b], n);
    assert result[ro..ro + n] == w;
  }

  lemma PaddedSelf(s: seq<Byte>)
    ensures Padded(s, |s|) == s
  {}

  /** result = a + b for a single digit b; in place, the digits above the carry stay zero. */
  method AddByte(result: array<Byte>, a: array<Byte>, b: Byte, lengthA: nat, ro: nat := 0, o: nat := 0) returns (length: nat)
    requires o + Span(lengthA) <= a.Length && ro + Span(lengthA) <= result.Length && (result == a ==> ro == o)
    requires Val(a, lengthA, o) + b < Pow(Span(lengthA)) || ro + Span(lengthA) < result.Length
    modifies result
    ensures 1 <= length <= Span(lengthA) + 1 && ro + length <= result.Length
    ensures Val(result, length, ro) == old(Val(a, lengthA, o)) + b && Trimmed(result[ro..ro + length])
    ensures result == a && Val(result, length, ro) < Pow(Span(lengthA))
            ==> Num(result[ro..ro + Span(lengthA)]) == Val(result, length, ro)
    ensures forall k :: 0 <= k < result.Length && !(ro <= k <= ro + Span(lengthA)) ==> result[k] == old(result[k])
    ensures Val(result, length, ro) < Pow(Span(lengthA)) && ro + Span(lengthA) < result.Length
            ==> result[ro + Span(lengthA)] == old(result[ro + Span(lengthA)])
  {
    hide Num, Pow, TrimLen, Trimmed;
    ghost var z := Span(lengthA);
    ghost var before := result[..];
    var n := LenAt(a, lengthA, o);
    var j := AddByteDigits(result, a, b, n, ro, o);
    CarryFits(Num(result[ro..ro + n]), j, n);
    length := StoreCarry(result, n, j, ro);
    if result == a && n + j <= z {
      InPlace(before, result[..], ro, z, n, n + j);
    }
  }

  /** Digits above a trimmed number are zeros, so replacing it up to digit m replaces the whole slice. */
  lemma InPlace(before: seq<Byte>, after: seq<Byte>, o: nat, z: nat, n: nat, m: nat)
    requires n <= m <= z && o + z <= |before| == |after| && Num(before[o..o + n]) == Num(before[o..o + z])
    requires forall k :: o + m <= k < |before| ==> after[k] == before[k]
    ensures Num(after[o..o + z]) == Num(after[o..o + m])
  {
    hide Num, Pow;
    var x, y := before[o..o + z], after[o..o + z];
    SubSlice(before, o, z, n);
    SubSlice(after, o, z, m);
    assert y[m..] == x[m..];
    assert y == y[..m] + y[m..];
    ZerosAbove(x, n, m, y[..m], y);
  }

  lemma CarryFits(w: nat, j: nat, n: nat)
    ensures j > 0 ==> w + j * Pow(n) >= Pow(n)
  {
    if j > 0 {
      MulLe(1, j, Pow(n));
    }
  }

  /** Digits above a trimmed number are zeros, so replacing it up to digit m replaces the whole. */
  lemma ZerosAbove(x: seq<Byte>, n: nat, m: nat, w: seq<Byte>, y: seq<Byte>)
    requires n <= m == |w| <= |x| && Num(x[..n]) == Num(x) && y == w + x[m..]
    ensures Num(y) == Num(w)
  {
    hide Num, Pow;
    assert x == x[..n] + x[n..] && x[n..] == x[n..m] + x[m..];
    NumAppend(x[..n], x[n..]);
    NumAppend(x[n..m], x[m..]);
    NumAppend(w, x[m..]);
    ZeroFactors(Pow(n), Num(x[n..]));
    ZeroFactors(Pow(m - n), Num(x[m..]));
  }

  lemma ZeroFactors(p: nat, v: nat)
    requires p > 0
    ensures p * v == 0 <==> v == 0
  {}

  /** The bitwise complement of a digit string. */
  ghost function Complement(s: seq<Byte>): (t: seq<Byte>)
    ensures |t| == |s| && forall k :: 0 <= k < |s| ==> t[k] == 255 - s[k]
  {
    seq(|s|, k requires 0 <= k < |s| => 255 - s[k])
  }

  lemma {:induction false} ComplementValue(s: seq<Byte>)
    ensures Num(Complement(s)) == Pow(|s|) - 1 - Num(s)
  {
    hide Num, Pow;
    if |s| == 0 {
      EmptyNum();
      assert Complement(s) == [];
    } else {
      var t, d := s[..|s| - 1], s[|s| - 1];
      ComplementValue(t);
      assert s == t + [d];
      assert Complement(s) == Complement(t) + [255 - d];
      NumSnoc(t, d);
      NumSnoc(Complement(t), 255 - d);
      NumPowStep(|t|);
      Distribute(255 - d, d, Pow(|t|));
    }
  }

  lemma EmptyNum()
    ensures Num([]) == 0 && Pow(0) == 1
  {}

  lemma WholeDifference(w: seq<Byte>, c: int, s: seq<Byte>, t: seq<Byte>, n: nat)
    requires |s| <= n && |t| <= n && DifferenceSoFar(w, c, Padded(s, n), Padded(t, n), n)
    ensures Num(w) + Num(t) == Num(s) + c * Pow(n)
  {
    hide Num, Pow, Padded;
    PaddedValue(s, n);
    PaddedValue(t, n);
    assert Padded(s, n)[..n] == Padded(s, n) && Padded(t, n)[..n] == Padded(t, n);
  }

  /** One digit of a difference in 16-bit arithmetic. */
  lemma Borrow(x: Byte, y: Byte, c: Byte, temp: nat)
    requires c <= 1 && temp == ((x as int) - y - c) % 0x1_0000
    ensures DigitOf((x as int) - y, 1, 0 - c, temp % 256, 0 - temp / 256 % 2)
  {}

  /** The digit and the borrow that a 16-bit difference leaves. */
  method DifferenceDigit(temp: int, borrow: Byte, ghost x: Byte, ghost y: Byte) returns (digit: Byte, next: Byte)
    requires temp == (x as int) - y && borrow <= 1
    ensures next <= 1 && DigitOf((x as int) - y, 1, 0 - borrow, digit, 0 - next)
  {
    var t := (temp - borrow) % 0x1_0000;
    digit := t % 256;
    next := t / 256 % 2;
    Borrow(x, y, borrow, t);
  }

  /** The loop of _sub over trimmed numbers; result may be a or b. */
  method SubDigits(result: array<Byte>, a: array<Byte>, b: array<Byte>, la: nat, lb: nat)
      returns (borrow: Byte, ghost w: seq<Byte>)
    requires 1 <= la <= a.Length && 1 <= lb <= b.Length && Max(la, lb) <= result.Length
    modifies result
    ensures |w| == Max(la, lb) && result[0..Max(la, lb)] == if la >= lb then w else Complement(w)
    ensures borrow <= 1 && Num(w) + old(Num(b[0..lb])) == old(Num(a[0..la])) + borrow * Pow(Max(la, lb))
    ensures forall k :: Max(la, lb) <= k < result.Length ==> result[k] == old(result[k])
  {
    hide Num, Pow, DifferenceSoFar, Padded, DigitOf;
    var flag := la >= lb;
    var short, long := if flag then lb else la, if flag then la else lb;
    ghost var s, t := a[0..la], b[0..lb];
    ghost var x, y := Padded(s, long), Padded(t, long);
    w := [];
    borrow := 0;
    DifferenceStart(x, y);
    for i := 0 to long
      invariant borrow <= 1 && |w| == i
      invariant forall k :: i <= k < la ==> a[k] == s[k]
      invariant forall k :: i <= k < lb ==> b[k] == t[k]
      invariant forall k :: 0 <= k < i ==> result[k] == if flag then w[k] else 255 - w[k]
      invariant forall k :: long <= k < result.Length ==> result[k] == old(result[k])
      invariant DifferenceSoFar(w, borrow, x, y, i)
    {
      ghost var c := borrow;
      var temp: int;
      if flag {
        temp := a[i];
        if i < short {
          temp := temp - b[i];
        }
      } else {
        temp := -(b[i] as int);
        if i < short {
          temp := temp + a[i];
        }
      }
      assert temp == (x[i] as int) - y[i];
      var digit;
      digit, borrow := DifferenceDigit(temp, borrow, x[i], y[i]);
      result[i] := if flag then digit else 255 - digit;
      SubStep(w, c, x, y, i, digit, borrow);
      w := w + [digit];
    }
    WholeDifference(w, borrow, s, t, long);
  }

  /** What _sub computes: a wrapped difference, except that a shorter a gives the absolute difference. */
  ghost function Difference(a: int, b: int, la: nat, lb: nat): int {
    if a >= b then a - b else if la < lb then b - a else a - b + Pow(la)
  }

  /** The borrow of a difference is set exactly if it is negative. */
  lemma BorrowIs(w: nat, a: nat, b: nat, borrow: nat, p: nat)
    requires w < p && a < p && b < p && borrow <= 1 && w + b == a + borrow * p
    ensures borrow == if a < b then 1 else 0
  {}

  /** Completes the two's complement of a difference. */
  method Negate(result: array<Byte>, n: nat, ghost w: seq<Byte>)
    requires 1 <= n <= result.Length && |w| == n && result[0..n] == Complement(w) && Num(w) > 0
    modifies result
    ensures Num(result[0..n]) == Pow(n) - Num(w)
    ensures forall k :: n <= k < result.Length ==> result[k] == old(result[k])
  {
    hide Num, Pow, TrimLen, Trimmed, Complement;
    ComplementValue(w);
    assert Span(n) == n;
    var _ := AddByte(result, result, 1, n);
  }

  /** The borrow and the value of the digit loop. */
  lemma DifferenceIs(s: seq<Byte>, t: seq<Byte>, w: seq<Byte>, borrow: Byte, n: nat)
    requires 1 <= |s| && 1 <= |t| && n == Max(|s|, |t|) == |w| && borrow <= 1 && Num(w) + Num(t) == Num(s) + borrow * Pow(n)
    requires Trimmed(s) && Trimmed(t)
    ensures borrow == if Num(s) < Num(t) then 1 else 0
    ensures |s| >= |t| ==> Num(w) == Difference(Num(s), Num(t), |s|, |t|)
    ensures |s| < |t| ==> Num(w) > 0 && Pow(n) - Num(w) == Difference(Num(s), Num(t), |s|, |t|)
  {
    hide Num, Pow, Trimmed;
    PowMonotone(|s|, n);
    PowMonotone(|t|, n);
    NumBound(s);
    NumBound(t);
    NumBound(w);
    BorrowIs(Num(w), Num(s), Num(t), borrow, Pow(n));
    if |s| < |t| {
      ShorterLess(s, t);
    }
  }

  /** The difference of trimmed numbers, before it is trimmed. */
  method SubTrimmed(result: array<Byte>, a: array<Byte>, b: array<Byte>, la: nat, lb: nat) returns (borrow: Byte)
    requires 1 <= la <= a.Length && 1 <= lb <= b.Length && Max(la, lb) <= result.Length
    requires Trimmed(a[0..la]) && Trimmed(b[0..lb])
    modifies result
    ensures borrow == if old(Num(a[0..la])) < old(Num(b[0..lb])) then 1 else 0
    ensures Num(result[0..Max(la, lb)]) == Difference(old(Num(a[0..la])), old(Num(b[0..lb])), la, lb)
    ensures forall k :: Max(la, lb) <= k < result.Length ==> result[k] == old(result[k])
  {
    hide Num, Pow, TrimLen, Trimmed, Complement, Difference;
    ghost var s, t := a[0..la], b[0..lb];
    ghost var w;
    borrow, w := SubDigits(result, a, b, la, lb);
    var n := Max(la, lb);
    DifferenceIs(s, t, w, borrow, n);
    if la < lb {
      Negate(result, n, w);
    }
  }

  /** result = a - b with its borrow; result may be a or b. */
  method Sub(result: array<Byte>, a: array<Byte>, b: array<Byte>, lengthA: nat, lengthB: nat)
      returns (length: nat, borrow: Byte)
    requires Span(lengthA) <= a.Length && Span(lengthB) <= b.Length
    requires Max(Span(lengthA), Span(lengthB)) <= result.Length
    modifies result
    ensures 1 <= length <= Max(Span(lengthA), Span(lengthB)) && Trimmed(result[0..length])
    ensures borrow == if old(Val(a, lengthA)) < old(Val(b, lengthB)) then 1 else 0
    ensures Val(result, length) == old(Difference(Val(a, lengthA), Val(b, lengthB), TrimLen(a[0..Span(lengthA)]),
            TrimLen(b[0..Span(lengthB)])))
    ensures var n := old(Max(TrimLen(a[0..Span(lengthA)]), TrimLen(b[0..Span(lengthB)])));
            Num(result[0..n]) == Val(result, length) && forall k :: n <= k < result.Length ==> result[k] == old(result[k])
  {
    hide Num, Pow, TrimLen, Trimmed, Difference, Val;
    var la := Len(a, lengthA);
    var lb := Len(b, lengthB);
    borrow := SubTrimmed(result, a, b, la, lb);
    var n := Max(la, lb);
    ValIs(result, n);
    length := Len(result, n);
  }

  /** The loop of _sub with a single digit. */
  method SubByteDigits(result: array<Byte>, a: array<Byte>, b: Byte, n: nat) returns (borrow: Byte)
    requires 1 <= n <= a.Length && n <= result.Length
    modifies result
    ensures borrow <= 1 && Num(result[0..n]) + b == old(Num(a[0..n])) + borrow * Pow(n)
    ensures forall k :: n <= k < result.Length ==> result[k] == old(result[k])
  {
    hide Num, Pow, DifferenceSoFar, Padded, DigitOf;
    ghost var x := a[0..n];
    ghost var y := Padded([b], n);
    ghost var w: seq<Byte> := [];
    borrow := 0;
    DifferenceStart(x, y);
    for i := 0 to n
      invariant borrow <= 1 && |w| == i
      invariant forall k :: i <= k < n ==> a[k] == x[k]
      invariant forall k :: 0 <= k < i ==> result[k] == w[k]
      invariant forall k :: n <= k < result.Length ==> result[k] == old(result[k])
      invariant DifferenceSoFar(w, borrow, x, y, i)
    {
      ghost var c := borrow;
      var temp: int := a[i];
      if i < 1 {
        temp := temp - b;
      }
      var digit;
      digit, borrow := DifferenceDigit(temp, borrow, x[i], y[i]);
      result[i] := digit;
      SubStep(w, c, x, y, i, digit, borrow);
      w := w + [digit];
    }
    ByteDifference(w, borrow, x, b, n);
    assert result[0..n] == w;
  }

  lemma ByteDifference(w: seq<Byte>, c: int, x: seq<Byte>, b: Byte, n: nat)
    requires n == |x| > 0 && DifferenceSoFar(w, c, x, Padded([b], n), n)
    ensures Num(w) + b == Num(x) + c * Pow(n)
  {
    hide Num, Pow, DifferenceSoFar, Padded;
    DigitNum(b);
    PaddedSelf(x);
    WholeDifference(w, c, x, [b], n);
  }

  /** result = a - b with its borrow, for a single digit b; result may be a. */
  method SubByte(result: array<Byte>, a: array<Byte>, b: Byte, lengthA: nat) returns (length: nat, borrow: Byte)
    requires Span(lengthA) <= a.Length && Span(lengthA) <= result.Length
    modifies result
    ensures 1 <= length <= Span(lengthA) && Trimmed(result[0..length])
    ensures borrow == if old(Val(a, lengthA)) < b then 1 else 0
    ensures Val(result, length) == old(Val(a, lengthA)) - b + borrow * 256
    ensures Num(result[0..old(TrimLen(a[0..Span(lengthA)]))]) == Val(result, length)
    ensures forall k :: old(TrimLen(a[0..Span(lengthA)])) <= k < result.Length ==> result[k] == old(result[k])
  {
    hide Num, Pow, TrimLen, Trimmed;
    var n := Len(a, lengthA);
    ghost var s := a[0..n];
    borrow := SubByteDigits(result, a, b, n);
    ByteBorrow(s, result[0..n], b, borrow);
    length := Len(result, n);
  }

  /** Only a single digit can be below a digit. */
  lemma ByteBorrow(s: seq<Byte>, w: seq<Byte>, b: Byte, borrow: Byte)
    requires |s| == |w| > 0 && Trimmed(s) && borrow <= 1 && Num(w) + b == Num(s) + borrow * Pow(|s|)
    ensures borrow == (if Num(s) < b then 1 else 0) && Num(w) == Num(s) - b + borrow * 256
  {
    hide Num, Pow, Trimmed;
    NumBound(w);
    NumBound(s);
    DigitNum(b);
    PowMonotone(1, |s|);
    PowOne();
    BorrowIs(Num(w), Num(s), b, borrow, Pow(|s|));
    if |s| > 1 {
      ShorterLess([b], s);
    }
  }

  lemma PowOne()
    ensures Pow(1) == 256
  {
    assert Pow(0) == 1;
  }
}
