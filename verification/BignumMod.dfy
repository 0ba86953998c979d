/** Remainders of crypt_bignum.cpp by underestimated one-byte quotients, and Euclid's algorithm on them. */
module BignumMod {
  import opened Arith
  import opened Modular
  import opened Digits
  import opened Buffers
  import opened Bignum
  import opened BignumMul

  /** The quotient by one more than a leading digit. */
  function Ratio(n: nat, lead: Byte): nat { n / ((lead as int) + 1) }

  /** The guessed byte for the leading digits s of the remainder and t of the divisor; flag says how many were read. */
  function Guess(s: seq<Byte>, t: seq<Byte>): (g: (int, nat))
    requires |s| >= |t| > 0 && (s[|s| - 1] > t[|t| - 1] || |s| > |t|)
  {
    var top, lead := s[|s| - 1], t[|t| - 1];
    if top > lead then
      (Ratio(top, lead), 0)
    else
      var two := (top as int) * 256 + s[|s| - 2];
      (if lead == 0xff then two / 256 else Ratio(two, lead), 1)
  }

  lemma QuotientLe(n: nat, d: nat)
    requires d > 0
    ensures n / d * d <= n < (n / d + 1) * d
  {
    Distribute(n / d, 1, d);
  }

  /** A guess from one digit is a byte, and not zero. */
  lemma OneDigitGuess(top: Byte, lead: Byte)
    requires top > lead > 0
    ensures 1 <= top / ((lead as int) + 1) <= 255 && top / ((lead as int) + 1) * (lead + 1) <= top
  {
    var d: int := (lead as int) + 1;
    QuotientPositive(top, d);
    QuotientLe(top, d);
    MulLe(1, d, top / d);
  }

  /** So is a guess from two digits, even before a divisor that starts with 0xff. */
  lemma TwoDigitGuess(top: Byte, next: Byte, lead: Byte, g: nat)
    requires 0 < top <= lead
    requires g == if lead == 0xff then ((top as int) * 256 + next) / 256 else ((top as int) * 256 + next) / ((lead as int) + 1)
    ensures 1 <= g <= 255 && g * ((lead as int) + 1) <= (top as int) * 256 + next
  {
    var d: int := (lead as int) + 1;
    var two: int := (top as int) * 256 + next;
    QuotientPositive(two, d);
    QuotientLe(two, d);
    QuotientBelow(two, d, 256);
  }

  /** guess * b * 256^shift never exceeds the running remainder. */
  lemma GuessBelow(s: seq<Byte>, t: seq<Byte>)
    requires |s| >= |t| > 0 && Trimmed(s) && Trimmed(t) && Num(t) > 0 && (s[|s| - 1] > t[|t| - 1] || |s| > |t|)
    ensures var g := Guess(s, t);
            && 1 <= g.0 <= 255 && |s| - |t| - g.1 >= 0
            && 0 < Num(t) * g.0 * Pow(|s| - |t| - g.1) <= Num(s)
  {
    hide Num, Pow;
    LeadPositive(t);
    LeadingBound(s);
    LeadingBound(t);
    var top, lead := s[|s| - 1], t[|t| - 1];
    var g := Guess(s, t);
    if top > lead {
      OneDigitGuess(top, lead);
      PowAdd(|t| - 1, |s| - |t|);
      GuessTerms(g.0, Num(t), lead + 1, Pow(|t| - 1), Pow(|s| - |t|), top);
    } else {
      LeadPositive(s);
      TwoDigitGuess(top, s[|s| - 2], lead, g.0);
      PowAdd(|t| - 1, |s| - |t| - 1);
      TwoDigits(s);
      GuessTerms(g.0, Num(t), (lead as int) + 1, Pow(|t| - 1), Pow(|s| - |t| - 1), (top as int) * 256 + s[|s| - 2]);
    }
  }

  lemma GuessTerms(g: nat, b: nat, lead: nat, p: nat, q: nat, top: nat)
    requires 0 < b < lead * p && g * lead <= top && g > 0 && q > 0
    ensures 0 < b * g * q <= top * (p * q)
  {
    MulLe(b, lead * p, g);
    Associate(g, lead, p);
    MulLe(g * lead, top, p);
    MulLe(b * g, top * p, q);
    Associate(top, p, q);
    MulLe(1, b, g);
    MulLe(1, b * g, q);
  }

  lemma LeadPositive(t: seq<Byte>)
    requires |t| > 0 && Trimmed(t) && (|t| > 1 || Num(t) > 0)
    ensures t[|t| - 1] > 0
  {
    if |t| == 1 {
      DigitNum(t[0]);
      assert t == [t[0]];
    }
  }

  lemma TwoDigits(s: seq<Byte>)
    requires |s| >= 2
    ensures ((s[|s| - 1] as int) * 256 + s[|s| - 2]) * Pow(|s| - 2) <= Num(s)
  {
    hide Num, Pow;
    var n := |s| - 2;
    NumPrefix(s, n);
    NumPrefix(s, n + 1);
    assert s[..n + 2] == s;
    NumPowStep(n);
    TwoDigitTerms(s[n], s[n + 1], Pow(n));
  }

  lemma TwoDigitTerms(d: int, e: int, p: int)
    ensures (e * 256 + d) * p == d * p + e * (256 * p)
  {}

  /** Numbers with the same length and leading digit differ by less than either. */
  lemma EqualTops(s: seq<Byte>, t: seq<Byte>)
    requires |s| == |t| > 0 && Trimmed(t) && Num(t) > 0 && s[|s| - 1] == t[|t| - 1]
    ensures Num(s) - Num(t) < Num(t)
  {
    hide Num, Pow;
    LeadPositive(t);
    LeadingBound(s);
    LeadingBound(t);
    Distribute(s[|s| - 1], 1, Pow(|s| - 1));
  }

  /** The remainder so far: a less a multiple of b. */
  ghost predicate Reduced(r: int, a: int, b: int) { exists q: int :: r == a - q * b }

  lemma ReducedStep(r: int, a: int, b: int, g: int, p: int)
    requires Reduced(r, a, b)
    ensures Reduced(r - b * g * p, a, b)
  {
    var q :| r == a - q * b;
    Distribute(q, g * p, b);
    assert b * g * p == g * p * b;
    assert r - b * g * p == a - (q + g * p) * b;
  }

  lemma ReducedStart(a: int, b: int)
    ensures Reduced(a, a, b)
  {
    assert a == a - 0 * b;
  }

  lemma ReducedDone(r: int, a: nat, b: nat)
    requires Reduced(r, a, b) && 0 <= r < b
    ensures r == a % b
  {
    var q :| r == a - q * b;
    QuotientIs(a, b, q, r);
  }

  lemma ReducedOnce(r: int, a: nat, b: nat)
    requires Reduced(r, a, b)
    ensures Reduced(r - b, a, b)
  {
    ReducedStep(r, a, b, 1, 1);
  }

  lemma TrimmedLen(s: seq<Byte>)
    requires Trimmed(s)
    ensures TrimLen(s) == |s|
  {}

  /** A product placed at digit o, in a buffer of zeros with one digit to spare. */
  lemma PlacedProduct(v: seq<Byte>, o: nat, m: nat, x: nat)
    requires o + m <= |v| && |v| > 0 && Num(v[o..o + m]) == x && x * Pow(o) < Pow(|v| - 1)
    requires forall k :: 0 <= k < |v| && !(o <= k < o + m) ==> v[k] == 0
    ensures Num(v[..|v| - 1]) == x * Pow(o)
  {
    hide Num, Pow;
    var n := |v| - 1;
    assert v == v[..o] + v[o..];
    assert v[o..] == v[o..o + m] + v[o + m..];
    NumAppend(v[..o], v[o..]);
    NumAppend(v[o..o + m], v[o + m..]);
    NumZeros(v[..o]);
    NumZeros(v[o + m..]);
    assert Pow(m) * 0 == 0;
    assert Num(v) == x * Pow(o);
    NumPrefix(v, n);
    assert v[..n + 1] == v;
    if v[n] > 0 {
      MulLe(1, v[n], Pow(n));
    }
  }

  /** value = b * guess * 256^shift. */
  method Place(value: array<Byte>, b: array<Byte>, n: nat, lb: nat, guess: Byte, o: nat)
    requires value != b && 1 <= lb <= b.Length && Trimmed(b[0..lb]) && n < value.Length && o + lb <= n
    requires Num(b[0..lb]) * guess * Pow(o) < Pow(n)
    modifies value
    ensures Num(value[0..n]) == Num(b[0..lb]) * guess * Pow(o)
  {
    hide Num, Pow, TrimLen, Trimmed;
    ClearBytes(value, 0, n + 1);
    TrimmedLen(b[0..lb]);
    var _, la := MulByte(value, b, guess, lb, o);
    ghost var s := value[..];
    InPrefix(s, n + 1, o, o + lb + 1);
    InPrefix(s, n + 1, 0, n);
    ghost var v := s[..n + 1];
    forall k | 0 <= k < |v| && !(o <= k < o + lb + 1) ensures v[k] == 0 {
      assert v[k] == s[k] == value[k];
    }
    PlacedProduct(v, o, lb + 1, Num(b[0..lb]) * guess);
  }

  lemma InPrefix(s: seq<Byte>, n: nat, o: nat, m: nat)
    requires o <= m <= n <= |s|
    ensures |s[..n]| == n && s[..n][o..m] == s[o..m]
  {}

  /** One round of the division: backup -= b * guess * 256^shift. */
  method SubtractGuess(backup: array<Byte>, value: array<Byte>, b: array<Byte>, n: nat, lb: nat, guess: Byte, o: nat)
      returns (length: nat)
    requires value != b && value != backup && backup != b && 1 <= lb <= b.Length && Trimmed(b[0..lb])
    requires 1 <= n <= backup.Length && n < value.Length && o + lb <= n && Trimmed(backup[0..n])
    requires Num(b[0..lb]) * guess * Pow(o) <= Num(backup[0..n])
    modifies backup, value
    ensures 1 <= length <= n && Trimmed(backup[0..length])
    ensures Num(backup[0..length]) == old(Num(backup[0..n])) - Num(b[0..lb]) * guess * Pow(o)
  {
    hide Num, Pow, TrimLen, Trimmed;
    NumBound(backup[0..n]);
    Place(value, b, n, lb, guess, o);
    var borrow;
    length, borrow := Sub(backup, backup, value, n, n);
  }

  /** The chain of conditions in the loop of _mod: stop, or a guess and the number of extra digits it used. */
  method GuessByte(backup: array<Byte>, b: array<Byte>, n: nat, lb: nat) returns (stop: bool, temp: nat, flag: nat)
    requires 1 <= lb <= n <= backup.Length && lb <= b.Length
    ensures stop <==> n == lb && backup[n - 1] <= b[lb - 1]
    ensures !stop ==> (temp, flag) == Guess(backup[0..n], b[0..lb])
  {
    hide Ratio;
    stop, temp, flag := false, 0, 0;
    if backup[n - 1] > b[lb - 1] {
      temp := Ratio(backup[n - 1], b[lb - 1]);
    } else if n > lb {
      temp := (backup[n - 1] as int) * 256 + backup[n - 2];
      temp := if b[lb - 1] == 0xff then temp / 256 else Ratio(temp, b[lb - 1]);
      flag := 1;
    } else {
      stop := true;
    }
  }

  /** The loop of _mod: it stops at a remainder up to b, or with both leading digits and lengths equal. */
  method Reduce(backup: array<Byte>, b: array<Byte>, la: nat, lb: nat) returns (n: nat)
    requires backup != b && 1 <= lb <= la == backup.Length && lb <= b.Length
    requires Trimmed(backup[0..la]) && Trimmed(b[0..lb]) && Num(b[0..lb]) > 0
    modifies backup
    ensures 1 <= n <= la && Trimmed(backup[0..n]) && Reduced(Num(backup[0..n]), old(Num(backup[0..la])), Num(b[0..lb]))
    ensures Num(backup[0..n]) <= Num(b[0..lb]) || (n == lb && backup[n - 1] == b[lb - 1])
  {
    hide Num, Pow, TrimLen, Trimmed, Reduced, Guess;
    ghost var a, d := Num(backup[0..la]), Num(b[0..lb]);
    n := la;
    var value := new Byte[la + 1];
    ReducedStart(a, d);
    var c := Cmp(backup, b, n, lb);
    while c > 0
      invariant 1 <= n <= la && Trimmed(backup[0..n]) && Reduced(Num(backup[0..n]), a, d)
      invariant c > 0 <==> Num(backup[0..n]) > d
      invariant Trimmed(b[0..lb]) && Num(b[0..lb]) == d
      decreases Num(backup[0..n])
    {
      ghost var s, t := backup[0..n], b[0..lb];
      NotShorter(s, t);
      var stop, temp, flag := GuessByte(backup, b, n, lb);
      if stop {
        SameLead(s, t);
        return;
      }
      GuessBelow(s, t);
      ReducedStep(Num(s), a, d, temp, Pow(n - lb - flag));
      n := SubtractGuess(backup, value, b, n, lb, temp, n - lb - flag);
      c := Cmp(backup, b, n, lb);
    }
  }

  lemma NotShorter(s: seq<Byte>, t: seq<Byte>)
    requires |s| > 0 && |t| > 0 && Trimmed(t) && Num(s) > Num(t)
    ensures |s| >= |t|
  {
    if |s| < |t| {
      ShorterLess(s, t);
    }
  }

  lemma SameLead(s: seq<Byte>, t: seq<Byte>)
    requires |s| == |t| > 0 && Num(s) > Num(t) && s[|s| - 1] <= t[|t| - 1]
    ensures s[|s| - 1] == t[|t| - 1]
  {
    hide Num, Pow;
    LeadingBound(s);
    LeadingBound(t);
    if s[|s| - 1] < t[|t| - 1] {
      MulLe(s[|s| - 1] + 1, t[|t| - 1], Pow(|s| - 1));
    }
  }

  /** What is left above the n digits of a remainder: what was there, or no value up to the length of the divisor. */
  ghost predicate LeftAbove(before: seq<Byte>, after: seq<Byte>, n: nat, lb: nat)
    requires |before| == |after| && n <= lb <= |after|
  {
    || (forall k :: n <= k < |after| ==> after[k] == before[k])
    || (Num(after[0..lb]) == Num(after[0..n]) && forall k :: lb <= k < |after| ==> after[k] == before[k])
  }

  /** At most one subtraction completes the remainder. */
  method LastStep(result: array<Byte>, backup: array<Byte>, b: array<Byte>, n: nat, lb: nat, ghost a: nat) returns (length: nat)
    requires backup != result && 1 <= n <= backup.Length && 1 <= lb <= b.Length && lb <= result.Length
    requires Trimmed(backup[0..n]) && Trimmed(b[0..lb]) && Num(b[0..lb]) > 0 && Reduced(Num(backup[0..n]), a, Num(b[0..lb]))
    requires Num(backup[0..n]) <= Num(b[0..lb]) || (n == lb && backup[n - 1] == b[lb - 1])
    modifies result
    ensures 1 <= length <= lb && Trimmed(result[0..length]) && Num(result[0..length]) == a % old(Num(b[0..lb]))
    ensures LeftAbove(old(result[..]), result[..], length, lb)
  {
    hide Num, Pow, TrimLen, Trimmed, Reduced;
    ghost var s, t := backup[0..n], b[0..lb];
    var c := Cmp(backup, b, n, lb);
    if c == 0 {
      ReducedOnce(Num(s), a, Num(t));
      ReducedDone(0, a, Num(t));
      result[0] := 0;
      length := 1;
      DigitNum(0);
      assert result[0..1] == [0];
      SingleTrimmed(0);
    } else if c < 0 {
      ReducedDone(Num(s), a, Num(t));
      NotShorter(t, s);
      CopyBytes(result, 0, backup, 0, n);
      length := n;
    } else {
      EqualTops(s, t);
      ReducedOnce(Num(s), a, Num(t));
      ReducedDone(Num(s) - Num(t), a, Num(t));
      var borrow;
      TrimmedLen(s);
      TrimmedLen(t);
      length, borrow := Sub(result, backup, b, n, lb);
      assert result[..][0..lb] == result[0..lb] && result[..][0..length] == result[0..length];
    }
  }

  lemma SingleTrimmed(d: Byte)
    ensures Trimmed([d])
  {}

  /** result = a mod b; a divisor of 0 leaves the result alone and returns length 0. */
  method Mod(result: array<Byte>, a: array<Byte>, b: array<Byte>, lengthA: nat, lengthB: nat) returns (length: nat)
    requires Span(lengthA) <= a.Length && Span(lengthB) <= b.Length && Span(lengthB) <= result.Length
    modifies result
    ensures old(Val(b, lengthB)) == 0 ==> length == 0 && result[..] == old(result[..])
    ensures old(Val(b, lengthB)) > 0 ==> 1 <= length <= Span(lengthB) && Trimmed(result[0..length])
    ensures old(Val(b, lengthB)) > 0 ==> Val(result, length) == old(Val(a, lengthA)) % old(Val(b, lengthB))
    ensures result == a && old(TrimLen(a[0..Span(lengthA)])) < old(TrimLen(b[0..Span(lengthB)])) ==> result[..] == old(result[..])
    ensures old(Val(b, lengthB)) > 0 ==> length <= old(TrimLen(b[0..Span(lengthB)])) <= result.Length
                                         && LeftAbove(old(result[..]), result[..], length, old(TrimLen(b[0..Span(lengthB)])))
  {
    hide Num, Pow, TrimLen, Trimmed, Reduced, Val, LeftAbove;
    var la := Len(a, lengthA);
    var lb := Len(b, lengthB);
    var c := CmpByte(b, 0, lb);
    if c == 0 {
      return 0;
    }
    if la < lb {
      ShorterLess(a[0..la], b[0..lb]);
      ModShorter(result, a, la, lb, Num(b[0..lb]));
      ValIs(result, la);
      return la;
    }
    length := ModLonger(result, a, b, la, lb);
    ValIs(result, length);
  }

  /** _mod for an a that is shorter than b. */
  method ModShorter(result: array<Byte>, a: array<Byte>, la: nat, ghost lb: nat, ghost b: nat)
    requires 1 <= la <= a.Length && la <= lb <= result.Length && Trimmed(a[0..la]) && Num(a[0..la]) < b
    modifies result
    ensures Trimmed(result[0..la]) && Num(result[0..la]) == old(Num(a[0..la])) % b
    ensures result == a ==> result[..] == old(result[..])
    ensures LeftAbove(old(result[..]), result[..], la, lb)
  {
    hide Num, Trimmed;
    QuotientIs(Num(a[0..la]), b, 0, Num(a[0..la]));
    CopyBytes(result, 0, a, 0, la);
  }

  /** _mod for a trimmed a that is not shorter than b. */
  method ModLonger(result: array<Byte>, a: array<Byte>, b: array<Byte>, la: nat, lb: nat) returns (length: nat)
    requires 1 <= lb <= la <= a.Length && lb <= b.Length && lb <= result.Length
    requires Trimmed(a[0..la]) && Trimmed(b[0..lb]) && Num(b[0..lb]) > 0
    modifies result
    ensures 1 <= length <= lb && Trimmed(result[0..length])
    ensures Num(result[0..length]) == old(Num(a[0..la])) % old(Num(b[0..lb]))
    ensures LeftAbove(old(result[..]), result[..], length, lb)
  {
    hide Num, Pow, TrimLen, Trimmed, Reduced, LeftAbove;
    var backup := new Byte[la];
    CopyBytes(backup, 0, a, 0, la);
    length := Reduce(backup, b, la, lb);
    length := LastStep(result, backup, b, length, lb, Num(a[0..la]));
  }
}
