/** Greatest common divisors and modular arithmetic of crypt_bignum.cpp. */
module BignumExp {
  import opened Arith
  import opened Modular
  import opened Digits
  import opened Bits
  import opened Field
  import opened Fermat
  import opened Buffers
  import opened Bignum
  import opened BignumMul
  import opened BignumMod

  lemma DivisorsStep(x: nat, y: nat, a: nat, b: nat)
    requires SameDivisors(x, y, a, b) && y > 0
    ensures SameDivisors(y, x % y, a, b)
  {
    forall d: nat | d > 0
      ensures Divides(d, y) && Divides(d, x % y) <==> Divides(d, a) && Divides(d, b)
    {
      RemainderDivisor(d, x, y);
    }
  }

  lemma DivisorsDone(x: nat, a: nat, b: nat)
    requires SameDivisors(x, 0, a, b) && x > 0
    ensures IsGcd(x, a, b)
  {
    forall d: nat | d > 0 ensures Divides(d, x) <==> Divides(d, a) && Divides(d, b) {
      assert Divides(d, 0);
    }
  }

  lemma DivisorsStart(a: nat, b: nat)
    ensures SameDivisors(a, b, a, b) && SameDivisors(b, a, a, b)
  {}

  lemma LongerIfLarger(s: seq<Byte>, t: seq<Byte>)
    requires |s| > 0 && |t| > 0 && Trimmed(t) && Num(s) >= Num(t)
    ensures |s| >= |t|
  {
    if |s| < |t| {
      ShorterLess(s, t);
    }
  }

  /** g is the greatest common divisor of a and b, taken as 0 when both are 0. */
  ghost predicate GcdResult(g: nat, a: nat, b: nat) {
    if a == 0 && b == 0 then g == 0 else IsGcd(g, a, b)
  }

  lemma GcdSymmetric(g: nat, a: nat, b: nat)
    requires GcdResult(g, a, b)
    ensures GcdResult(g, b, a)
  {}

  lemma EuclidDone(x: nat, a: nat, b: nat)
    requires a >= b && SameDivisors(x, 0, a, b) && (a > 0 ==> x > 0) && (a == 0 ==> x == 0)
    ensures GcdResult(x, a, b)
  {
    hide SameDivisors, IsGcd;
    if a > 0 {
      DivisorsDone(x, a, b);
    }
  }

  /** One round of _gcd: (a, b) becomes (b, a mod b). */
  method EuclidStep(temp: array<Byte>, tempA: array<Byte>, tempB: array<Byte>, lengthA: nat, lengthB: nat)
      returns (n: nat, m: nat)
    requires temp != tempA && temp != tempB && tempA != tempB
    requires 1 <= lengthA <= tempA.Length && 1 <= lengthB <= tempB.Length == temp.Length <= tempA.Length
    requires Num(tempB[0..lengthB]) > 0
    modifies temp, tempA, tempB
    ensures 1 <= n <= lengthB && 1 <= m <= lengthB && Trimmed(tempA[0..n])
    ensures Num(tempA[0..n]) == old(Num(tempB[0..lengthB]))
    ensures Num(tempB[0..m]) == old(Num(tempA[0..lengthA])) % old(Num(tempB[0..lengthB]))
  {
    hide Num, TrimLen, Trimmed;
    var length := Mod(temp, tempA, tempB, lengthA, lengthB);
    n := Len(tempB, lengthB);
    CopyBytes(tempA, 0, tempB, 0, n);
    assert tempA[0..n] == tempB[0..n];
    CopyBytes(tempB, 0, temp, 0, length);
    m := length;
  }

  /** The loop of _gcd. */
  method Euclid(tempA: array<Byte>, tempB: array<Byte>, la: nat, lb: nat) returns (n: nat)
    requires tempA != tempB && 1 <= lb <= la <= tempA.Length && lb == tempB.Length
    requires Num(tempA[0..la]) >= Num(tempB[0..lb]) && Trimmed(tempA[0..la])
    modifies tempA, tempB
    ensures 1 <= n <= la && Trimmed(tempA[0..n]) && GcdResult(Num(tempA[0..n]), old(Num(tempA[0..la])), old(Num(tempB[0..lb])))
  {
    hide Num, TrimLen, Trimmed, SameDivisors, GcdResult;
    ghost var a, b := Num(tempA[0..la]), Num(tempB[0..lb]);
    var temp := new Byte[lb];
    var m;
    n, m := la, lb;
    DivisorsStart(a, b);
    var c := CmpByte(tempB, 0, m);
    while c != 0
      invariant 1 <= n <= la && 1 <= m <= lb && Trimmed(tempA[0..n])
      invariant SameDivisors(Num(tempA[0..n]), Num(tempB[0..m]), a, b)
      invariant c == 0 <==> Num(tempB[0..m]) == 0
      invariant a > 0 ==> Num(tempA[0..n]) > 0
      invariant a == 0 ==> Num(tempA[0..n]) == 0 && c == 0
      decreases Num(tempB[0..m])
    {
      DivisorsStep(Num(tempA[0..n]), Num(tempB[0..m]), a, b);
      n, m := EuclidStep(temp, tempA, tempB, n, m);
      c := CmpByte(tempB, 0, m);
    }
    EuclidDone(Num(tempA[0..n]), a, b);
  }

  /** Euclid's algorithm on copies of trimmed numbers, the larger one first. */
  method GcdOfCopies(a: array<Byte>, b: array<Byte>, la: nat, lb: nat) returns (g: array<Byte>, length: nat)
    requires 1 <= la <= a.Length && 1 <= lb <= b.Length && Trimmed(a[0..la]) && Trimmed(b[0..lb])
    ensures fresh(g) && 1 <= length <= Max(la, lb) && length <= g.Length
    ensures Trimmed(g[0..length]) && GcdResult(Num(g[0..length]), Num(a[0..la]), Num(b[0..lb]))
  {
    hide Num, TrimLen, Trimmed, GcdResult;
    var tempA := new Byte[la];
    var tempB := new Byte[lb];
    CopyBytes(tempA, 0, a, 0, la);
    CopyBytes(tempB, 0, b, 0, lb);
    assert tempA[0..la] == a[0..la] && tempB[0..lb] == b[0..lb];
    var c := Cmp(a, b, la, lb);
    if c == -1 {
      LongerIfLarger(b[0..lb], a[0..la]);
      length := Euclid(tempB, tempA, lb, la);
      GcdSymmetric(Num(tempB[0..length]), Num(b[0..lb]), Num(a[0..la]));
      g := tempB;
    } else {
      LongerIfLarger(a[0..la], b[0..lb]);
      length := Euclid(tempA, tempB, la, lb);
      g := tempA;
    }
  }

  /** result = gcd(a, b), and 0 when both are 0, in any buffer that holds it; result may be a or b. */
  method Gcd(result: array<Byte>, a: array<Byte>, b: array<Byte>, lengthA: nat, lengthB: nat) returns (length: nat)
    requires Span(lengthA) <= a.Length && Span(lengthB) <= b.Length && result.Length > 0
    requires forall g: nat :: GcdResult(g, Val(a, lengthA), Val(b, lengthB)) ==> g < Pow(result.Length)
    modifies result
    ensures 1 <= length <= result.Length && Trimmed(result[0..length])
    ensures GcdResult(Val(result, length), old(Val(a, lengthA)), old(Val(b, lengthB)))
  {
    hide Num, Pow, TrimLen, Trimmed, GcdResult;
    var la := Len(a, lengthA);
    var lb := Len(b, lengthB);
    var g;
    g, length := GcdOfCopies(a, b, la, lb);
    TrimmedFits(g[0..length], result.Length);
    CopyBytes(result, 0, g, 0, length);
    length := Len(result, length);
  }

  /** The shorter of the operands' lengths is room enough exactly if neither operand is 0 with the other one longer. */
  lemma GcdRoom(g: nat, a: nat, b: nat, la: nat, lb: nat)
    requires GcdResult(g, a, b) && a < Pow(la) && b < Pow(lb)
    ensures g < Pow(if la <= lb then la else lb) <==> (a == 0 ==> b < Pow(la)) && (b == 0 ==> a < Pow(lb))
  {
    hide Pow, Divides;
    PowMonotone(if la <= lb then la else lb, if la <= lb then lb else la);
    if a == 0 && b == 0 {
    } else if b == 0 {
      GcdOfZero(g, a);
    } else if a == 0 {
      GcdSymmetric(g, a, b);
      GcdOfZero(g, b);
    } else {
      GcdDivides(g, a, b);
      DivisorLe(g, a);
      DivisorLe(g, b);
    }
  }

  lemma GcdDivides(g: nat, a: nat, b: nat)
    requires IsGcd(g, a, b)
    ensures Divides(g, a) && Divides(g, b)
  {
    hide Divides;
    DividesSelf(g);
  }

  lemma DivisorLe(d: nat, n: nat)
    requires d > 0 && n > 0 && Divides(d, n)
    ensures d <= n
  {
    if n < d {
      QuotientIs(n, d, 0, n);
    }
  }

  lemma GcdOfZero(g: nat, a: nat)
    requires a > 0 && IsGcd(g, a, 0)
    ensures g == a
  {
    hide Divides;
    GcdDivides(g, a, 0);
    DivisorLe(g, a);
    DividesSelf(a);
    DividesZero(a);
    DivisorLe(a, g);
  }

  lemma DividesZero(d: nat)
    requires d > 0
    ensures Divides(d, 0)
  {
    DividesMultiple(0, d);
  }

  /** gcd(256, 0) does not fit the one digit of 0. */
  lemma GcdRoomFails()
    ensures GcdResult(256, 256, 0) && 256 < Pow(2) && 0 < Pow(1) && 256 >= Pow(1)
  {
    hide Pow, Divides;
    PowOne();
    NumPowStep(1);
    forall d: nat | d > 0 ensures Divides(d, 0) {
      DividesZero(d);
    }
  }

  /** The difference modulo p of two naturals, from the remainder of the opposite difference. */
  lemma NegatedRemainder(a: nat, b: nat, p: nat)
    requires p > 0 && a < b
    ensures (a - b) % p == if (b - a) % p == 0 then 0 else p - (b - a) % p
  {
    var q, r := (b - a) / p, (b - a) % p;
    assert a - b == -(q * p) - r;
    assert (-q - 1) * p == -(q * p) - p;
    if r == 0 {
      QuotientIs(a - b, p, -q, 0);
    } else {
      QuotientIs(a - b, p, -q - 1, p - r);
    }
  }

  /** m without its low n digits. */
  ghost function Above(m: nat, n: nat): (r: nat)
    ensures r == m / Pow(n) * Pow(n)
  {
    QuotientNonnegative(m, Pow(n));
    MulLe(0, m / Pow(n), Pow(n));
    m / Pow(n) * Pow(n)
  }

  /** The modulus as it is read after v has been written over the first n digits of its buffer. */
  ghost function Clobbered(v: nat, n: nat, m: nat, lp: nat): nat {
    if n >= lp then v % Pow(lp) else v + Above(m, n)
  }

  /** What _mod makes of v when its modulus is m, 0 included. */
  ghost function Remainder(v: int, m: nat): nat { if m == 0 then 0 else v % m }

  lemma RemainderZero(v: int)
    ensures Remainder(v, 0) == 0
  {}

  /** The low digits of a number, and what is left of a buffer above digits that are written over. */
  lemma LowDigits(s: seq<Byte>, n: nat)
    requires n <= |s|
    ensures Num(s[..n]) == Num(s) % Pow(n) && Num(s[n..]) == Num(s) / Pow(n)
  {
    hide Num, Pow;
    assert s == s[..n] + s[n..];
    NumAppend(s[..n], s[n..]);
    NumBound(s[..n]);
    QuotientIs(Num(s), Pow(n), Num(s[n..]), Num(s[..n]));
  }

  /** before is the buffer that held the modulus, after what it holds once n digits are written. */
  lemma ClobberedIs(before: seq<Byte>, after: seq<Byte>, n: nat, lp: nat)
    requires |before| == |after| && lp <= |before| && n <= |before|
    requires forall k :: n <= k < |before| ==> after[k] == before[k]
    ensures Num(after[..lp]) == Clobbered(Num(after[..n]), n, Num(before[..lp]), lp)
  {
    hide Num, Pow;
    if n >= lp {
      LowDigits(after[..n], lp);
      assert after[..n][..lp] == after[..lp];
    } else {
      LowDigits(before[..lp], n);
      assert after[..lp] == after[..n] + before[..lp][n..];
      NumAppend(after[..n], before[..lp][n..]);
    }
  }

  /** A multiple of 256^n, n > 0, has a zero first digit. */
  lemma FirstDigitZero(s: seq<Byte>, v: nat, n: nat, lp: nat)
    requires |s| > 0 && lp > 0 && n <= |s| && Num(s[..n]) == v && n >= lp && v % Pow(lp) == 0
    ensures Num(s[0..1]) == 0
  {
    hide Num, Pow;
    LowDigits(s[..n], lp);
    assert s[..n][..lp] == s[..lp] && s[..lp][..1] == s[0..1];
    LowDigits(s[..lp], 1);
    PowOne();
  }

  /** A modulus with lp digits is longer than what is written over n < lp of them. */
  lemma ClobberedLonger(v: nat, n: nat, m: nat, lp: nat)
    requires n < lp && v < Pow(n) && Pow(lp - 1) <= m
    ensures v < Clobbered(v, n, m, lp) && v < m && Above(m, n) > 0
  {
    hide Pow;
    PowMonotone(n, lp - 1);
    QuotientPositive(m, Pow(n));
    MulLe(1, m / Pow(n), Pow(n));
  }

  /** v mod m, when v was written into n digits of result first and result may be the buffer of m. */
  method ModInto(result: array<Byte>, p: array<Byte>, length: nat, n: nat, lp: nat, ghost before: seq<Byte>) returns (r: nat)
    requires 1 <= length <= n <= result.Length && Num(result[0..n]) == Num(result[0..length])
    requires 1 <= lp <= p.Length && lp <= result.Length && Trimmed(result[0..length]) && |before| == p.Length
    requires forall k :: (result == p ==> n <= k) && 0 <= k < p.Length ==> p[k] == before[k]
    modifies result
    ensures var v := old(Num(result[0..n]));
            var m := if result == p then Clobbered(v, n, Num(before[..lp]), lp) else Num(before[..lp]);
            && (m == 0 ==> r == 0 && result[..] == old(result[..]))
            && (m > 0 ==> 1 <= r <= lp && Trimmed(result[0..r]) && Num(result[0..r]) == Remainder(v, m))
            && (result == p && m == 0 ==> Num(result[0..1]) == 0)
            && (result == p && n < lp && Trimmed(before[..lp]) ==> Num(p[0..lp]) == m)
            && (result == p && m > 0 ==> Leftover(Num(p[0..lp]), Remainder(v, m), r, m, lp))
  {
    hide Num, Pow, TrimLen, Trimmed, Clobbered, LeftAbove, Leftover;
    ghost var v := Num(result[0..n]);
    assert result[0..n] == result[..n] && p[0..lp] == p[..lp];
    if result == p {
      ClobberedIs(before, p[..], n, lp);
      assert p[..][..n] == p[..n] && p[..][..lp] == p[..lp];
    } else {
      assert p[..lp] == before[..lp];
    }
    if result == p && n < lp && Trimmed(before[..lp]) {
      TopDigit(before[..lp]);
      FullLength(p[0..lp]);
    }
    ghost var mid := p[..];
    assert mid[..lp] == p[0..lp];
    r := Mod(result, result, p, length, lp);
    if result == p && r == 0 {
      ClobberedZero(v, n, Num(before[..lp]), lp, result[..]);
    }
    if result == p && r > 0 {
      LeftoverIs(mid, result[..], r, lp);
      assert result[..][..r] == result[0..r] && result[..][..lp] == result[0..lp];
    }
  }

  /** The number left in the buffer of the modulus m once a remainder of n digits is written over it: with the digits of m
      above it, or without. */
  ghost predicate Leftover(x: nat, rem: nat, n: nat, m: nat, lp: nat) {
    x == rem || x == Clobbered(rem, n, m, lp)
  }

  lemma LeftoverIs(before: seq<Byte>, after: seq<Byte>, n: nat, lp: nat)
    requires |before| == |after| && 1 <= lp <= |before| && 1 <= n <= TrimLen(before[..lp])
    requires LeftAbove(before, after, n, TrimLen(before[..lp]))
    ensures Leftover(Num(after[..lp]), Num(after[..n]), n, Num(before[..lp]), lp)
  {
    hide Num, Pow, TrimLen, Clobbered;
    var b := TrimLen(before[..lp]);
    if forall k :: n <= k < |after| ==> after[k] == before[k] {
      ClobberedIs(before, after, n, lp);
    } else {
      assert after[0..b] == after[..b] && after[0..n] == after[..n];
      TrimLenValue(before[..lp]);
      SameAbove(before[..lp], after[..lp], b);
      assert after[..lp][..b] == after[..b];
    }
  }

  /** Digits above the length of a number are zeros. */
  lemma SameAbove(s: seq<Byte>, t: seq<Byte>, n: nat)
    requires |s| == |t| && n <= |s| && Num(s[..n]) == Num(s) && forall k :: n <= k < |s| ==> t[k] == s[k]
    ensures Num(t) == Num(t[..n])
  {
    hide Num, Pow;
    assert s == s[..n] + s[n..] && t == t[..n] + t[n..] && t[n..] == s[n..];
    NumAppend(s[..n], s[n..]);
    NumAppend(t[..n], t[n..]);
  }

  lemma ClobberedZero(v: nat, n: nat, m: nat, lp: nat, s: seq<Byte>)
    requires 1 <= lp && n <= |s| && |s| > 0 && Num(s[..n]) == v && Clobbered(v, n, m, lp) == 0 && n > 0
    ensures Num(s[0..1]) == 0
  {
    hide Num, Pow;
    if n >= lp {
      FirstDigitZero(s, v, n, lp);
    } else {
      assert v == 0;
      LowDigits(s[..n], 1);
      assert s[..n][..1] == s[0..1];
      QuotientIs(0, Pow(1), 0, 0);
    }
  }

  /** result = (a - b) mod p for a not below b; if result is p, modulo what is left of p. */
  method SubMod(result: array<Byte>, a: array<Byte>, b: array<Byte>, p: array<Byte>, la: nat, lb: nat, lp: nat)
      returns (length: nat)
    requires 1 <= la <= a.Length && 1 <= lb <= b.Length && 1 <= lp <= p.Length
    requires Trimmed(a[0..la]) && Trimmed(b[0..lb])
    requires la <= result.Length && lb <= result.Length && lp <= result.Length && Num(a[0..la]) >= Num(b[0..lb])
    modifies result
    ensures var v, m := old(Num(a[0..la])) - old(Num(b[0..lb])), old(Num(p[0..lp]));
            var x := if result == p then Clobbered(v, la, m, lp) else m;
            && (x == 0 ==> length == 0)
            && (x > 0 ==> 1 <= length <= lp && Trimmed(result[0..length]) && Num(result[0..length]) == Remainder(v, x))
            && (result == p ==> length <= lp && Val(result, length) == Remainder(v, x))
            && (result == p && la < lp && old(Trimmed(p[0..lp])) ==> Num(p[0..lp]) == x)
            && (result == p && x > 0 ==> Leftover(Num(p[0..lp]), Remainder(v, x), length, x, lp))
  {
    hide Num, Pow, TrimLen, Trimmed, Clobbered, Leftover;
    ghost var before := p[..];
    ghost var v := Num(a[0..la]) - Num(b[0..lb]);
    TrimmedLen(a[0..la]);
    TrimmedLen(b[0..lb]);
    LongerIfLarger(a[0..la], b[0..lb]);
    assert before[..lp] == p[0..lp];
    var n, borrow := Sub(result, a, b, la, lb);
    assert Num(result[0..la]) == Num(result[0..n]) == v;
    length := ModInto(result, p, n, la, lp, before);
  }

  /** A nonzero remainder is subtracted from p, which may be the same buffer. */
  method NegateMod(result: array<Byte>, p: array<Byte>, n: nat, lp: nat) returns (length: nat)
    requires n <= lp && 1 <= lp <= p.Length && lp <= result.Length
    modifies result
    ensures length <= lp
    ensures n == 0 && old(Num(result[0..1])) == 0 ==> length == 0 && Num(result[0..1]) == 0
    ensures n > 0 && old(Num(result[0..n])) == 0 ==> length == n && Num(result[0..n]) == 0
    ensures n > 0 && old(Num(result[0..n])) <= old(Num(p[0..lp])) && old(Trimmed(result[0..n]))
            ==> 1 <= length <= lp && Trimmed(result[0..length])
    ensures n > 0 && old(Num(result[0..n])) <= old(Num(p[0..lp]))
            ==> Num(result[0..length])
                == if old(Num(result[0..n])) == 0 then 0 else old(Num(p[0..lp])) - old(Num(result[0..n]))
  {
    hide Num, Pow, TrimLen, Trimmed;
    length := n;
    var c := CmpByte(result, 0, n);
    if c != 0 {
      var borrow;
      length, borrow := Sub(result, p, result, lp, n);
    }
  }

  lemma TopDigit(s: seq<Byte>)
    requires Trimmed(s) && |s| > 1
    ensures s[|s| - 1] != 0
  {}

  /** What _modsub computes when its result is the buffer of p, for a negative difference no longer than p. */
  ghost function SharedDifference(a: nat, b: nat, la: nat, lb: nat, m: nat, lp: nat): nat {
    if a >= b then Remainder(a - b, Clobbered(a - b, la, m, lp))
    else if lb < lp then Above(m, lb)
    else 0
  }

  /** What it then computes for a difference -d whose operand is longer than p: 0, or what the digits of d mod l leave of l,
      where l is the part of d that fits the buffer of p. */
  ghost predicate LongDifference(v: nat, d: nat, lp: nat) {
    var l := Remainder(d, Pow(lp));
    v == 0 || (l > 0 && exists n :: 1 <= n <= lp && HasDigits(Remainder(d, l), n) && v == Above(l, n))
  }

  ghost predicate HasDigits(x: nat, n: nat) {
    x < Pow(n) && (n <= 1 || Pow(n - 1) <= x)
  }

  lemma TrimmedDigits(s: seq<Byte>)
    requires Trimmed(s)
    ensures HasDigits(Num(s), |s|)
  {
    hide Num, Pow;
    NumBound(s);
    LeadingBound(s);
  }

  /** A negative difference shorter than p: what is left of p is all that remains. */
  lemma SharedNegative(a: nat, b: nat, lb: nat, m: nat, lp: nat)
    requires a < b < Pow(lb) && lb < lp && b - a < Clobbered(b - a, lb, m, lp)
    ensures (b - a) % Clobbered(b - a, lb, m, lp) == b - a
    ensures Clobbered(b - a, lb, m, lp) - (b - a) == SharedDifference(a, b, lb, lb, m, lp)
    ensures forall la: nat :: SharedDifference(a, b, la, lb, m, lp) == SharedDifference(a, b, lb, lb, m, lp)
  {
    hide Pow;
    var x := Clobbered(b - a, lb, m, lp);
    QuotientIs(b - a, x, 0, b - a);
  }

  /** A negative difference as long as p: the difference modulo itself. */
  lemma SharedWhole(a: nat, b: nat, lb: nat, m: nat)
    requires a < b < Pow(lb)
    ensures Clobbered(b - a, lb, m, lb) == b - a && (b - a) % (b - a) == 0
    ensures forall la: nat :: SharedDifference(a, b, la, lb, m, lb) == 0
  {
    hide Pow;
    QuotientIs(b - a, Pow(lb), 0, b - a);
    QuotientIs(b - a, b - a, 1, 0);
  }

  /** _modsub for trimmed operands with a below b. */
  method NegatedSub(result: array<Byte>, a: array<Byte>, b: array<Byte>, p: array<Byte>, la: nat, lb: nat, lp: nat)
      returns (length: nat)
    requires 1 <= la <= a.Length && 1 <= lb <= b.Length && 1 <= lp <= p.Length
    requires Trimmed(a[0..la]) && Trimmed(b[0..lb]) && Trimmed(p[0..lp])
    requires la <= result.Length && lb <= result.Length && lp <= result.Length && Num(a[0..la]) < Num(b[0..lb])
    modifies result
    ensures var x, y, m := old(Num(a[0..la])), old(Num(b[0..lb])), old(Num(p[0..lp]));
            && length <= lp
            && (result != p && m > 0 ==> length > 0 && Trimmed(result[0..length]))
            && (result != p && m > 0 ==> Num(result[0..length]) == Remainder(x - y, m))
            && (result == p && m > 0 && lb <= lp ==> Val(result, length) == SharedDifference(x, y, la, lb, m, lp))
            && (result == p && lb > lp ==> LongDifference(Val(result, length), y - x, lp))
  {
    hide Num, Pow, TrimLen, Trimmed, Clobbered, SharedDifference, Remainder, Leftover, LongDifference, HasDigits, Val;
    ghost var x, y, m := Num(a[0..la]), Num(b[0..lb]), Num(p[0..lp]);
    NumBound(b[0..lb]);
    NegatedIs(Num(a[0..la]), Num(b[0..lb]), la, lb, p[0..lp]);
    length := SubMod(result, b, a, p, lb, la, lp);
    ValOf(result, length);
    RemainderZero(y - x);
    ghost var n, rest, rem := length, Num(p[0..lp]), Num(result[0..length]);
    if result == p && n > 0 {
      TrimmedDigits(result[0..n]);
      LeftoverBounds(rest, rem, n, Clobbered(y - x, lb, m, lp), lp);
    }
    length := NegateMod(result, p, length, lp);
    ValOf(result, length);
    if result == p && lb > lp {
      LongIs(y - x, m, lb, lp, n, rem, rest, Val(result, length));
    }
  }

  lemma LeftoverBounds(x: nat, rem: nat, n: nat, l: nat, lp: nat)
    requires Leftover(x, rem, n, l, lp) && HasDigits(rem, n) && n <= lp
    ensures rem <= x && (x == rem || x == rem + Above(l, n))
  {
    hide Pow;
    QuotientIs(rem, Pow(n), 0, rem);
  }

  lemma LongIs(d: nat, m: nat, lb: nat, lp: nat, n: nat, rem: nat, x: nat, v: nat)
    requires 1 <= lp < lb
    requires var l := Clobbered(d, lb, m, lp);
             if l == 0 then v == 0
             else 1 <= n <= lp && HasDigits(rem, n) && rem == Remainder(d, l) && (x == rem || x == rem + Above(l, n))
                  && v == if rem == 0 then 0 else x - rem
    ensures LongDifference(v, d, lp)
  {
    hide Pow, HasDigits;
  }

  /** A negative difference modulo p, and modulo what it leaves of the buffer of p. */
  lemma NegatedIs(x: nat, y: nat, la: nat, lb: nat, s: seq<Byte>)
    requires x < y < Pow(lb) && Trimmed(s) && lb > 0
    ensures var d, m, lp := y - x, Num(s), |s|;
            var c := Clobbered(d, lb, m, lp);
            && (m > 0 ==> Remainder(d, m) < m && Remainder(x - y, m) == if Remainder(d, m) == 0 then 0 else m - Remainder(d, m))
            && (lb < lp ==> 0 < d < c && Remainder(d, c) == d && c - d == SharedDifference(x, y, la, lb, m, lp))
            && (lb == lp ==> c == d > 0 && Remainder(d, c) == 0 == SharedDifference(x, y, la, lb, m, lp))
  {
    hide Num, Pow, Trimmed, SharedDifference, Clobbered;
    var m, lp := Num(s), |s|;
    if m > 0 {
      NegatedRemainder(x, y, m);
    }
    if lb < lp {
      TopDigit(s);
      LeadingBound(s);
      ClobberedLonger(y - x, lb, m, lp);
      SharedNegative(x, y, lb, m, lp);
    } else if lb == lp {
      SharedWhole(x, y, lb, m);
    }
  }

  /** _modsub for trimmed operands with a not below b. */
  lemma SharedPositive(a: nat, b: nat, la: nat, lb: nat, m: nat, lp: nat)
    requires a >= b
    ensures SharedDifference(a, b, la, lb, m, lp) == Remainder(a - b, Clobbered(a - b, la, m, lp))
  {}

  /** result = (a - b) mod p for trimmed operands. */
  method ModSubTrimmed(result: array<Byte>, a: array<Byte>, b: array<Byte>, p: array<Byte>, la: nat, lb: nat, lp: nat)
      returns (length: nat)
    requires 1 <= la <= a.Length && 1 <= lb <= b.Length && 1 <= lp <= p.Length
    requires Trimmed(a[0..la]) && Trimmed(b[0..lb]) && Trimmed(p[0..lp])
    requires la <= result.Length && lb <= result.Length && lp <= result.Length
    modifies result
    ensures var x, y, m := old(Num(a[0..la])), old(Num(b[0..lb])), old(Num(p[0..lp]));
            && length <= lp
            && (result != p && m > 0 ==> length > 0 && Trimmed(result[0..length]))
            && (result != p && m > 0 ==> Num(result[0..length]) == Remainder(x - y, m))
            && (result == p && m > 0 && (x >= y || lb <= lp) ==> Val(result, length) == SharedDifference(x, y, la, lb, m, lp))
            && (result == p && x < y && lb > lp ==> LongDifference(Val(result, length), y - x, lp))
  {
    hide Num, Pow, TrimLen, Trimmed, Clobbered, SharedDifference, Remainder, LongDifference;
    ghost var x, y, m := Num(a[0..la]), Num(b[0..lb]), Num(p[0..lp]);
    var c := Cmp(a, b, la, lb);
    if c == -1 {
      length := NegatedSub(result, a, b, p, la, lb, lp);
    } else {
      SharedPositive(x, y, la, lb, m, lp);
      length := SubMod(result, a, b, p, la, lb, lp);
    }
  }

  /** result = (a - b) mod p, if result is not p; the buffers of a and b may be the result's. */
  method ModSub(result: array<Byte>, a: array<Byte>, b: array<Byte>, p: array<Byte>, lengthA: nat, lengthB: nat,
      lengthP: nat) returns (length: nat)
    requires Span(lengthA) <= a.Length && Span(lengthB) <= b.Length && Span(lengthP) <= p.Length
    requires Max(Max(Span(lengthA), Span(lengthB)), Span(lengthP)) <= result.Length
    modifies result
    ensures length <= Span(lengthP)
    ensures result != p && Val(p, lengthP) > 0 ==> length > 0 && Trimmed(result[0..length])
    ensures result != p && Val(p, lengthP) > 0
            ==> Val(result, length) == Remainder(old(Val(a, lengthA)) - old(Val(b, lengthB)), Val(p, lengthP))
    ensures var x, y, m := old(Val(a, lengthA)), old(Val(b, lengthB)), old(Val(p, lengthP));
            var la, lb, lp := old(LengthOf(a, lengthA)), old(LengthOf(b, lengthB)), old(LengthOf(p, lengthP));
            && (result == p && m > 0 && (x >= y || lb <= lp) ==> Val(result, length) == SharedDifference(x, y, la, lb, m, lp))
            && (result == p && x < y && lb > lp ==> LongDifference(Val(result, length), y - x, lp))
  {
    hide Num, Pow, TrimLen, Trimmed, SharedDifference, Val, LengthOf, Remainder, LongDifference;
    assert Span(lengthA) <= result.Length && Span(lengthB) <= result.Length && Span(lengthP) <= result.Length;
    ghost var x, y, m := Val(a, lengthA), Val(b, lengthB), Val(p, lengthP);
    var la := Len(a, lengthA);
    var lb := Len(b, lengthB);
    var lp := Len(p, lengthP);
    assert Num(a[0..la]) == x && Num(b[0..lb]) == y && Num(p[0..lp]) == m;
    length := ModSubTrimmed(result, a, b, p, la, lb, lp);
    assert result != p ==> Val(p, lengthP) == m;
    ValOf(result, length);
  }

  /** With result in the buffer of p and reduced operands, _modsub is right exactly if the operands are equal, or the
      difference is positive and shorter than p, or it is negative, shorter than p and agrees with the low digits of p. */
  lemma SharedDifferenceIff(a: nat, b: nat, la: nat, lb: nat, m: nat, lp: nat)
    requires a < m && b < m && 1 <= la <= lp && 1 <= lb <= lp
    requires a < Pow(la) && b < Pow(lb) && Pow(lp - 1) <= m < Pow(lp)
    ensures SharedDifference(a, b, la, lb, m, lp) == (a - b) % m
            <==> a == b || (a > b && la < lp) || (a < b && lb < lp && b - a == m % Pow(lb))
  {
    hide Pow;
    if a >= b {
      QuotientIs(a - b, m, 0, a - b);
      if la < lp {
        ClobberedLonger(a - b, la, m, lp);
        var x := Clobbered(a - b, la, m, lp);
        QuotientIs(a - b, x, 0, a - b);
      } else {
        QuotientIs(a - b, Pow(lp), 0, a - b);
        if a > b {
          QuotientIs(a - b, a - b, 1, 0);
        }
      }
    } else {
      QuotientIs(a - b, m, -1, m - (b - a));
    }
  }

  /** It is wrong for (5 - 2) mod 7, and for (2 - 5) mod 7. */
  lemma SharedDifferenceFails()
    ensures SharedDifference(5, 2, 1, 1, 7, 1) == 0 != (5 - 2) % 7
    ensures SharedDifference(2, 5, 1, 1, 7, 1) == 0 != (2 - 5) % 7
  {
    PowOne();
  }

  /** result = a * b mod p, or modulo what the product leaves of p if result is p. */
  method ModMul(result: array<Byte>, a: array<Byte>, b: array<Byte>, p: array<Byte>, lengthA: nat, lengthB: nat,
      lengthP: nat) returns (length: nat)
    requires Span(lengthA) <= a.Length && Span(lengthB) <= b.Length && Span(lengthP) <= p.Length
    requires Max(Span(lengthA) + Span(lengthB), Span(lengthP)) <= result.Length
    modifies result
    ensures length <= Span(lengthP)
    ensures result != p && Val(p, lengthP) == 0 ==> length == 0
    ensures result != p && Val(p, lengthP) > 0 ==> length > 0 && Trimmed(result[0..length])
    ensures result != p && Val(p, lengthP) > 0
            ==> Val(result, length) == Remainder(old(Val(a, lengthA)) * old(Val(b, lengthB)), Val(p, lengthP))
    ensures var v, m := old(Val(a, lengthA)) * old(Val(b, lengthB)), old(Val(p, lengthP));
            var n, lp := old(LengthOf(a, lengthA)) + old(LengthOf(b, lengthB)), old(LengthOf(p, lengthP));
            result == p ==> v >= 0 && Val(result, length) == Remainder(v, Clobbered(v, n, m, lp))
  {
    hide Num, Pow, TrimLen, Trimmed, Clobbered, Val, Remainder, LengthOf;
    ghost var x, y, m := Val(a, lengthA), Val(b, lengthB), Val(p, lengthP);
    MulLe(0, x, y);
    var la := Len(a, lengthA);
    var lb := Len(b, lengthB);
    var lp := Len(p, lengthP);
    assert Num(a[0..la]) == x && Num(b[0..lb]) == y && Num(p[0..lp]) == m;
    length := ModMulTrimmed(result, a, b, p, la, lb, lp);
    assert result != p ==> Val(p, lengthP) == m;
    ValOf(result, length);
  }

  /** _modmul for trimmed operands. */
  method ModMulTrimmed(result: array<Byte>, a: array<Byte>, b: array<Byte>, p: array<Byte>, la: nat, lb: nat, lp: nat)
      returns (length: nat)
    requires 1 <= la <= a.Length && 1 <= lb <= b.Length && 1 <= lp <= p.Length && Trimmed(a[0..la]) && Trimmed(b[0..lb])
    requires la + lb <= result.Length && lp <= result.Length
    modifies result
    ensures var v, m := old(Num(a[0..la])) * old(Num(b[0..lb])), old(Num(p[0..lp]));
            var x := if result == p then Clobbered(v, la + lb, m, lp) else m;
            && length <= lp && (x == 0 ==> length == 0)
            && (x > 0 ==> 1 <= length <= lp && Trimmed(result[0..length]) && Num(result[0..length]) == Remainder(v, x))
            && (result == p ==> Val(result, length) == Remainder(v, x))
  {
    hide Num, Pow, TrimLen, Trimmed, Clobbered, Remainder;
    ghost var before, m := p[..], Num(p[0..lp]);
    assert before[..lp] == p[0..lp];
    assert Num(before[..lp]) == m;
    MulLe(0, Num(a[0..la]), Num(b[0..lb]));
    ghost var v: nat := Num(a[0..la]) * Num(b[0..lb]);
    length := MulTrimmed(result, a, b, la, lb);
    length := ModInto(result, p, length, la + lb, lp, before);
    RemainderZero(v);
    ValOf(result, length);
  }

  /** _mul for trimmed operands. */
  method MulTrimmed(result: array<Byte>, a: array<Byte>, b: array<Byte>, la: nat, lb: nat) returns (length: nat)
    requires 1 <= la <= a.Length && 1 <= lb <= b.Length && Trimmed(a[0..la]) && Trimmed(b[0..lb]) && la + lb <= result.Length
    modifies result
    ensures 1 <= length <= la + lb && Trimmed(result[0..length])
    ensures Num(result[0..length]) == Num(result[0..la + lb]) == old(Num(a[0..la])) * old(Num(b[0..lb]))
    ensures forall k :: la + lb <= k < result.Length ==> result[k] == old(result[k])
  {
    hide Num, Pow, TrimLen, Trimmed, Val;
    TrimmedLen(a[0..la]);
    TrimmedLen(b[0..lb]);
    ValIs(a, la);
    ValIs(b, lb);
    length := Mul(result, a, b, la, lb);
    ValIs(result, length);
  }

  /** With result in the buffer of p, _modmul is right if the operands together are shorter than p; if the product has
      the length of p, exactly if p divides it; and if it is longer, exactly if its low digits are 0 and p divides it, or
      they exceed v mod p and divide v less v mod p. */
  lemma SharedProductIff(v: nat, n: nat, m: nat, lp: nat)
    requires 0 < n && v < Pow(n) && 0 < lp && 0 < m && Pow(lp - 1) <= m < Pow(lp)
    ensures n < lp ==> Remainder(v, Clobbered(v, n, m, lp)) == v % m
    ensures n >= lp && v < Pow(lp) ==> (Remainder(v, Clobbered(v, n, m, lp)) == v % m <==> Divides(m, v))
    ensures n >= lp ==> var low := v % Pow(lp);
                        Remainder(v, Clobbered(v, n, m, lp)) == v % m
                        <==> if low == 0 then Divides(m, v) else v % m < low && Divides(low, v - v % m)
  {
    hide Pow;
    if n >= lp && v % Pow(lp) != 0 {
      SameRemainderIff(v, v % Pow(lp), v % m);
    }
    if n < lp {
      ClobberedLonger(v, n, m, lp);
      var x := Clobbered(v, n, m, lp);
      QuotientIs(v, x, 0, v);
      QuotientIs(v, m, 0, v);
    } else if v < Pow(lp) {
      QuotientIs(v, Pow(lp), 0, v);
      if v > 0 {
        QuotientIs(v, v, 1, 0);
      } else {
        QuotientIs(0, m, 0, 0);
      }
    }
  }

  lemma SameRemainderIff(v: nat, d: nat, r: nat)
    requires d > 0
    ensures v % d == r <==> r < d && Divides(d, v - r)
  {
    if v % d == r {
      DividesMultiple(v / d, d);
      assert v - r == v / d * d;
    } else if r < d && Divides(d, v - r) {
      var k := DivisionOf(v - r, d);
      QuotientIs(v, d, k, r);
    }
  }

  /** It is wrong for 2 * 2 mod 7. */
  lemma SharedProductFails()
    ensures Remainder(4, Clobbered(4, 2, 7, 1)) == 0 != 4 % 7
  {
    PowOne();
  }

  /** Testing the bits of one byte from the top. */
  lemma BitIsSet(d: Byte, j: nat)
    requires j < 8 && d < Two(j + 1)
    ensures And(d, Two(j)) != 0 <==> Two(j) <= d
  {
    hide Two, And, Bit;
    AndPower(d, j);
    LeadingBit(d, j + 1);
  }

  /** The number of bits, and 1 for 0. */
  method BitLen(a: array<Byte>, lengthA: nat) returns (result: nat)
    requires lengthA <= a.Length
    ensures Num(a[0..lengthA]) == 0 ==> result == 1
    ensures Num(a[0..lengthA]) > 0 ==> 1 <= result <= 8 * lengthA && Two(result - 1) <= Num(a[0..lengthA]) < Two(result)
  {
    hide Num, Pow, Two, And;
    ghost var s := a[0..lengthA];
    result := lengthA * 8;
    var i := lengthA - 1;
    assert s[..lengthA] == s;
    while i >= 0
      invariant -1 <= i < lengthA && result == 8 * (i + 1) && Num(s[..i + 1]) == Num(s)
    {
      NumPrefix(s, i);
      ByteBound(s[i]);
      var j := 7;
      while j >= 0
        invariant -1 <= j < 8 && result == 8 * i + j + 1 && s[i] < Two(j + 1)
      {
        BitIsSet(s[i], j);
        assert a[i] == s[i];
        if And(a[i], Two(j)) != 0 {
          NumBound(s[..i]);
          BitsOfTop(Num(s[..i]), s[i], i, j + 1);
          PositiveTop(Num(s[..i]), s[i], i);
          return;
        }
        result := result - 1;
        j := j - 1;
      }
      ZeroTop(s[i], i);
      i := i - 1;
    }
    assert s[..0] == [];
    NumZeros([]);
    if result == 0 {
      result := 1;
    }
  }

  lemma ByteBound(d: Byte)
    ensures d < Two(8)
  {
    SmallTwos();
  }

  lemma ZeroTop(d: Byte, i: nat)
    requires d < Two(0)
    ensures d == 0 && d * Pow(i) == 0
  {}

  lemma PositiveTop(low: nat, d: Byte, i: nat)
    requires Two(8 * i) > 0
    ensures d > 0 ==> low + d * Pow(i) > 0
  {
    if d > 0 {
      MulLe(1, d, Pow(i));
    }
  }

  lemma SquareStep(v: nat, a: nat, m: nat, p: nat)
    requires p > 0 && v == Exp(a, m) % p
    ensures v * v % p == Exp(a, 2 * m) % p
  {
    hide Cong, Exp;
    ExpAdd(a, m, m);
    CongMod(Exp(a, m), p);
    CongMul(v, Exp(a, m), v, Exp(a, m), p);
    assert m + m == 2 * m;
    CongIffMod(v * v, Exp(a, 2 * m), p);
  }

  lemma MultiplyStep(v: nat, a: nat, m: nat, p: nat)
    requires p > 0 && v == Exp(a, m) % p
    ensures a * v % p == Exp(a, m + 1) % p
  {
    hide Cong, Exp;
    ExpStep(a, m + 1);
    CongMod(Exp(a, m), p);
    CongRefl(a, p);
    CongMul(a, a, v, Exp(a, m), p);
    CongIffMod(a * v, Exp(a, m + 1), p);
  }

  /** result = a mod p, moved to the power of the bits of b from i up, one bit at a time; a modulus of 0 leaves nothing. */
  method Square(value: array<Byte>, temp: array<Byte>, p: array<Byte>, len: nat, lp: nat, ghost a: nat, ghost m: nat)
      returns (length: nat)
    requires value != temp && value != p && temp != p && len <= lp && 1 <= lp <= p.Length && value.Length == lp
             && 2 * lp <= temp.Length
    requires Num(p[0..lp]) > 0 ==> len > 0 && Num(value[0..len]) == Exp(a, m) % Num(p[0..lp])
    modifies value, temp
    ensures Num(p[0..lp]) == 0 ==> length == 0
    ensures Num(p[0..lp]) > 0 ==> 1 <= length <= lp && Num(value[0..length]) == Exp(a, 2 * m) % Num(p[0..lp])
  {
    hide Num, Exp, Trimmed;
    if Num(p[0..lp]) > 0 {
      SquareStep(Num(value[0..len]), a, m, Num(p[0..lp]));
    }
    length := ModMul(temp, value, value, p, len, len, lp);
    CopyBytes(value, 0, temp, 0, length);
  }

  method Multiply(value: array<Byte>, temp: array<Byte>, a: array<Byte>, p: array<Byte>, len: nat, la: nat, lp: nat,
      ghost m: nat) returns (length: nat)
    requires value != temp && value != p && temp != p && value != a && temp != a && len <= lp && 1 <= lp <= p.Length
             && value.Length == lp
    requires 1 <= la <= a.Length && la + lp <= temp.Length
    requires Num(p[0..lp]) > 0 ==> len > 0 && Num(value[0..len]) == Exp(Num(a[0..la]), m) % Num(p[0..lp])
    modifies value, temp
    ensures Num(p[0..lp]) == 0 ==> length == 0
    ensures Num(p[0..lp]) > 0 ==> 1 <= length <= lp && Num(value[0..length]) == Exp(Num(a[0..la]), m + 1) % Num(p[0..lp])
  {
    hide Num, Exp, Trimmed;
    if Num(p[0..lp]) > 0 {
      MultiplyStep(Num(value[0..len]), Num(a[0..la]), m, Num(p[0..lp]));
    }
    length := ModMul(temp, a, value, p, la, len, lp);
    CopyBytes(value, 0, temp, 0, length);
  }

  /** The exponent _modexp works with: an exponent of 0 counts as 1. */
  function Exponent(b: nat): nat { if b == 0 then 1 else b }

  /** The exponent that the bits of b above bit i stand for. */
  ghost function Leading(b: nat, i: int): nat
    requires i >= -1
  {
    if b == 0 then 1 else Prefix(b, i + 1)
  }

  lemma LeadingStart(b: nat, bits: nat)
    requires b == 0 ==> bits == 1
    requires b > 0 ==> bits > 0 && Two(bits - 1) <= b < Two(bits)
    ensures bits > 0 && Leading(b, (bits as int) - 2) == 1
    ensures Leading(b, -1) == Exponent(b)
  {
    hide Two, Prefix;
    if b > 0 {
      PrefixStart(b, bits);
      PrefixWhole(b);
    }
  }

  lemma LeadingStep(b: nat, i: nat)
    requires b > 0
    ensures Leading(b, (i as int) - 1) == 2 * Leading(b, i) + Bit(b, i)
  {
    hide Two, Prefix, Bit;
    PrefixStep(b, i);
  }

  /** One round of _modexp for bit i: square, and multiply if the bit is set. */
  method PowerRound(value: array<Byte>, temp: array<Byte>, a: array<Byte>, b: array<Byte>, p: array<Byte>, n: nat,
      i: nat, la: nat, lb: nat, lp: nat, ghost m: nat) returns (len: nat)
    requires value != temp && value != p && temp != p && value != a && temp != a && value != b && temp != b
    requires n <= lp && 1 <= lp <= p.Length && value.Length == lp && 2 * lp <= temp.Length
    requires 1 <= la <= a.Length && i < 8 * lb && lb <= b.Length && la + lp <= temp.Length
    requires Num(p[0..lp]) > 0 ==> n > 0 && Num(value[0..n]) == Exp(Num(a[0..la]), m) % Num(p[0..lp])
    modifies value, temp
    ensures Num(p[0..lp]) == 0 ==> len == 0
    ensures Num(p[0..lp]) > 0
            ==> 1 <= len <= lp && Num(value[0..len]) == Exp(Num(a[0..la]), 2 * m + Bit(Num(b[0..lb]), i)) % Num(p[0..lp])
  {
    hide Num, Exp, Trimmed, Bit;
    DigitBit(b[0..lb], i);
    len := Square(value, temp, p, n, lp, Num(a[0..la]), m);
    if Bit(b[i / 8], i % 8) == 1 {
      len := Multiply(value, temp, a, p, len, la, lp, 2 * m);
    }
  }

  /** The loop of _modexp: value is a to the leading bits of b; modulo 0 the length is 0 after the first round. */
  method PowerLoop(value: array<Byte>, temp: array<Byte>, a: array<Byte>, b: array<Byte>, p: array<Byte>, n: nat,
      la: nat, lb: nat, lp: nat) returns (len: nat)
    requires value != temp && value != p && temp != p && value != a && temp != a && value != b && temp != b
    requires n <= lp && 1 <= lp <= p.Length && value.Length == lp && 2 * lp <= temp.Length
    requires 1 <= la <= a.Length && 1 <= lb <= b.Length && la + lp <= temp.Length
    requires Num(p[0..lp]) > 0 ==> n > 0 && Num(value[0..n]) == Num(a[0..la]) % Num(p[0..lp])
    modifies value, temp
    ensures Num(p[0..lp]) == 0 ==> if Num(b[0..lb]) <= 1 then len == n && value[..] == old(value[..]) else len == 0
    ensures Num(p[0..lp]) > 0
            ==> 1 <= len <= lp && Num(value[0..len]) == Exp(Num(a[0..la]), Exponent(Num(b[0..lb]))) % Num(p[0..lp])
  {
    hide Num, Pow, Exp, Trimmed, Two, Bit, Leading, Exponent;
    ghost var x, e, m := Num(a[0..la]), Num(b[0..lb]), Num(p[0..lp]);
    len := n;
    ExpOne(x);
    var bits := BitLen(b, lb);
    OneBit(e, bits);
    var i: int := (bits as int) - 2;
    LeadingStart(e, bits);
    while i >= 0
      invariant -1 <= i < 8 * lb && len <= lp && (e == 0 ==> i == -1) && (i < (bits as int) - 2 ==> bits > 1)
      invariant Num(a[0..la]) == x && Num(b[0..lb]) == e && Num(p[0..lp]) == m
      invariant m > 0 ==> len > 0 && Num(value[0..len]) == Exp(x, Leading(e, i)) % m
      invariant m == 0 ==> if i == (bits as int) - 2 then len == n && value[..] == old(value[..]) else len == 0
    {
      LeadingStep(e, i);
      len := PowerRound(value, temp, a, b, p, len, i, la, lb, lp, Leading(e, i));
      i := i - 1;
    }
  }

  /** An exponent of one bit. */
  lemma OneBit(e: nat, bits: nat)
    requires e == 0 ==> bits == 1
    requires e > 0 ==> bits > 0 && Two(bits - 1) <= e < Two(bits)
    ensures bits == 1 <==> e <= 1
  {
    hide Two;
    SmallTwos();
    if bits > 1 {
      TwoUp(1, bits - 1);
    }
  }

  lemma ExpOne(x: int)
    ensures Exp(x, 1) == x
  {
    assert Exp(x, 0) == 1;
  }

  /** result = a^b mod p for b > 0, and a mod p for b = 0.  A modulus of 0 gives 0; and in the buffer of p, which is
      cleared before it is used, any exponent above 1 gives 0. */
  method ModExp(result: array<Byte>, a: array<Byte>, b: array<Byte>, p: array<Byte>, lengthA: nat, lengthB: nat,
      lengthP: nat) returns (length: nat)
    requires Span(lengthA) <= a.Length && Span(lengthB) <= b.Length && Span(lengthP) <= p.Length
             && Span(lengthP) <= result.Length
    requires result != a && result != b
    modifies result
    ensures length <= Span(lengthP)
    ensures result != p && Val(p, lengthP) > 0
            ==> length > 0 && Val(result, length) == Exp(Val(a, lengthA), Exponent(Val(b, lengthB))) % Val(p, lengthP)
    ensures old(Val(p, lengthP)) == 0 ==> length == 0 && Val(result, length) == 0
    ensures result == p && old(Val(p, lengthP)) > 0
            ==> Val(result, length) == if Val(b, lengthB) <= 1 then Val(a, lengthA) % old(Val(p, lengthP)) else 0
  {
    hide Num, Pow, Exp, TrimLen, Trimmed, Exponent, Val;
    var la := Len(a, lengthA);
    var lb := Len(b, lengthB);
    var lp := Len(p, lengthP);
    length := ModExpTrimmed(result, a, b, p, la, lb, lp);
    ValOf(result, length);
  }

  /** _modexp for trimmed operands. */
  method ModExpTrimmed(result: array<Byte>, a: array<Byte>, b: array<Byte>, p: array<Byte>, la: nat, lb: nat, lp: nat)
      returns (length: nat)
    requires 1 <= la <= a.Length && 1 <= lb <= b.Length && 1 <= lp <= p.Length && lp <= result.Length
    requires result != a && result != b
    modifies result
    ensures length <= lp && (length == 0 ==> Num(result[0..1]) == 0)
    ensures var x, e, m := Num(a[0..la]), Num(b[0..lb]), old(Num(p[0..lp]));
            && (m == 0 ==> length == 0)
            && (m > 0 && result != p ==> length > 0 && Num(result[0..length]) == Exp(x, Exponent(e)) % m)
            && (m > 0 && result == p
                ==> if e <= 1 then length > 0 && Num(result[0..length]) == x % m else length == 0)
  {
    hide Num, Pow, Exp, TrimLen, Trimmed, Exponent, Val;
    var value := new Byte[lp];
    length := Remaining(value, a, p, la, lp);
    var temp := new Byte[lp + Max(la, lp)];
    ghost var first := value[..];
    ClearBytes(result, 0, lp);
    Cleared(result[..], lp);
    length := PowerLoop(value, temp, a, b, p, length, la, lb, lp);
    ghost var clear := result[..];
    CopyBytes(result, 0, value, 0, length);
    CopiedIs(clear, result[..], value[..], length, lp);
    assert value[..] == first ==> value[0..length] == first[0..length];
  }

  /** value = a mod p. */
  method Remaining(value: array<Byte>, a: array<Byte>, p: array<Byte>, la: nat, lp: nat) returns (length: nat)
    requires 1 <= la <= a.Length && 1 <= lp <= p.Length && value.Length == lp && value != a && value != p
    modifies value
    ensures length <= lp && (Num(p[0..lp]) == 0 ==> length == 0)
    ensures Num(p[0..lp]) > 0
            ==> length > 0 && Num(value[0..length]) == Num(value[..][0..length]) == Num(a[0..la]) % Num(p[0..lp])
  {
    hide Num, Pow, TrimLen, Trimmed, Val;
    ValIs(a, la);
    ValIs(p, lp);
    length := Mod(value, a, p, la, lp);
    ValOf(value, length);
    assert value[..][0..length] == value[0..length];
  }

  /** A cleared buffer holds 0. */
  lemma Cleared(s: seq<Byte>, lp: nat)
    requires 1 <= lp <= |s| && forall k :: 0 <= k < lp ==> s[k] == 0
    ensures Num(s[0..lp]) == 0 && Num(s[0..1]) == 0
  {
    NumZeros(s[0..lp]);
    NumZeros(s[0..1]);
  }

  /** The result is what was copied, or 0 if nothing was. */
  lemma CopiedIs(clear: seq<Byte>, s: seq<Byte>, value: seq<Byte>, n: nat, lp: nat)
    requires |s| == |clear| && 1 <= lp <= |s| && n <= lp == |value| && Num(clear[0..1]) == 0
    requires s[0..n] == value[0..n] && forall k :: n <= k < |s| ==> s[k] == clear[k]
    ensures if n == 0 then Num(s[0..1]) == 0 else Num(s[0..n]) == Num(value[0..n])
  {
    if n == 0 {
      assert s[0..1] == clear[0..1];
    }
  }

  /** _modexp returns a^b mod p exactly if b is positive or a is 1 modulo p. */
  lemma ModExpExact(a: nat, b: nat, p: nat)
    requires p > 0
    ensures Exp(a, Exponent(b)) % p == Exp(a, b) % p <==> b > 0 || Cong(a, 1, p)
  {
    hide Cong;
    ExpOne(a);
    CongIffMod(a, 1, p);
  }

  /** In the buffer of p, _modexp is right exactly if the exponent is 1, or it is 0 and a is 1 modulo p, or p divides
      the power. */
  lemma SharedPowerIff(a: nat, b: nat, p: nat)
    requires p > 0
    ensures (if b <= 1 then a % p else 0) == Exp(a, b) % p
            <==> if b == 0 then Cong(a, 1, p) else b == 1 || Divides(p, Exp(a, b))
  {
    hide Cong, Exp;
    ModExpExact(a, 0, p);
    ExpOne(a);
  }

  /** It is wrong for 2^2 mod 7. */
  lemma SharedPowerFails()
    ensures Exp(2, 2) % 7 == 4 != 0
  {
    ExpOne(2);
    ExpStep(2, 2);
  }

  /** It is wrong for 2^0 mod 3. */
  lemma ZeroExponentFails()
    ensures Exp(2, Exponent(0)) % 3 == 2 && Exp(2, 0) % 3 == 1
  {
    ExpOne(2);
  }
}
