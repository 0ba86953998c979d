/** Little-endian base-256 numbers, and the powers and byte operations they are written with. */
module Digits {
  import opened Arith

  type Byte = x: int | 0 <= x < 256

  /** 2 to the n. */
  function Two(n: nat): (r: nat)
    ensures r > 0
  {
    if n == 0 then 1 else 2 * Two(n - 1)
  }

  /** 256 to the n. */
  function Pow(n: nat): (r: nat)
    ensures r > 0
  {
    if n == 0 then 1 else 256 * Pow(n - 1)
  }

  /** The number a digit string stands for, least significant digit first. */
  function Num(s: seq<Byte>): nat {
    if |s| == 0 then 0 else Num(s[..|s| - 1]) + s[|s| - 1] * Pow(|s| - 1)
  }

  lemma {:induction false} NumBound(s: seq<Byte>)
    ensures Num(s) < Pow(|s|)
  {
    if |s| > 0 {
      NumBound(s[..|s| - 1]);
      MulLe(s[|s| - 1], 255, Pow(|s| - 1));
    }
  }

  /** Reading one more digit. */
  lemma NumSnoc(s: seq<Byte>, d: Byte)
    ensures Num(s + [d]) == Num(s) + d * Pow(|s|)
  {
    assert (s + [d])[..|s|] == s;
  }

  /** The prefix form used by every digit loop. */
  lemma NumPrefix(s: seq<Byte>, i: nat)
    requires i < |s|
    ensures Num(s[..i + 1]) == Num(s[..i]) + s[i] * Pow(i)
  {
    assert s[..i + 1] == s[..i] + [s[i]];
    NumSnoc(s[..i], s[i]);
  }

  lemma PowStep(n: nat)
    ensures Pow(0) == 1 && Pow(n + 1) == 256 * Pow(n)
  {}

  lemma {:induction false} PowAdd(m: nat, n: nat)
    ensures Pow(m + n) == Pow(m) * Pow(n)
  {
    hide Pow;
    PowStep(0);
    if m > 0 {
      PowAdd(m - 1, n);
      PowStep(m - 1);
      PowStep(m - 1 + n);
      Associate(256, Pow(m - 1), Pow(n));
    }
  }

  lemma TwoStep(n: nat)
    ensures Two(0) == 1 && Two(n + 1) == 2 * Two(n)
  {}

  /** The powers of two below a byte's. */
  lemma SmallTwos()
    ensures Two(0) == 1 && Two(1) == 2 && Two(2) == 4 && Two(3) == 8 && Two(4) == 16 && Two(5) == 32 && Two(6) == 64
            && Two(7) == 128 && Two(8) == 256
  {
    assert Two(3) == 8;
    assert Two(5) == 32;
    assert Two(7) == 128;
  }

  lemma {:induction false} TwoAdd(m: nat, n: nat)
    ensures Two(m + n) == Two(m) * Two(n)
  {
    hide Two;
    TwoStep(0);
    if m > 0 {
      TwoAdd(m - 1, n);
      TwoStep(m - 1);
      TwoStep(m - 1 + n);
      Associate(2, Two(m - 1), Two(n));
    }
  }

  lemma {:induction false} TwoPow(n: nat)
    ensures Two(8 * n) == Pow(n)
  {
    if n > 0 {
      TwoPow(n - 1);
      TwoAdd(8, 8 * n - 8);
      assert Two(8) == 256 by {
        assert Two(4) == 16;
      }
    }
  }

  /** A number splits at any digit. */
  lemma {:induction false} NumAppend(s: seq<Byte>, t: seq<Byte>)
    ensures Num(s + t) == Num(s) + Pow(|s|) * Num(t)
  {
    if |t| == 0 {
      assert s + t == s;
    } else {
      var t', d := t[..|t| - 1], t[|t| - 1];
      NumAppend(s, t');
      assert s + t == (s + t') + [d];
      NumSnoc(s + t', d);
      PowAdd(|s|, |t'|);
      DistributeDigit(Pow(|s|), Num(t'), d, Pow(|t'|));
    }
  }

  lemma DistributeDigit(p: int, n: int, d: int, q: int)
    ensures p * n + d * (p * q) == p * (n + d * q)
  {}

  /** Numbers of one length are equal only if their digits are. */
  lemma {:induction false} NumInjective(s: seq<Byte>, t: seq<Byte>)
    requires |s| == |t| && Num(s) == Num(t)
    ensures s == t
  {
    if |s| > 0 {
      var n := |s| - 1;
      NumBound(s[..n]);
      NumBound(t[..n]);
      if s[n] < t[n] {
        TopDigitLess(Num(s[..n]), Num(t[..n]), s[n], t[n], Pow(n));
      } else if t[n] < s[n] {
        TopDigitLess(Num(t[..n]), Num(s[..n]), t[n], s[n], Pow(n));
      } else {
        NumInjective(s[..n], t[..n]);
        assert s == s[..n] + [s[n]] && t == t[..n] + [t[n]];
      }
    }
  }

  /** The highest differing digit decides the order. */
  lemma NumOrder(s: seq<Byte>, t: seq<Byte>, i: nat)
    requires |s| == |t| && i < |s| && s[i] < t[i] && s[i + 1..] == t[i + 1..]
    ensures Num(s) < Num(t)
  {
    hide *;
    assert s == s[..i + 1] + s[i + 1..] && t == t[..i + 1] + t[i + 1..];
    NumAppend(s[..i + 1], s[i + 1..]);
    NumAppend(t[..i + 1], t[i + 1..]);
    NumPrefix(s, i);
    NumPrefix(t, i);
    NumBound(s[..i]);
    NumBound(t[..i]);
    TopDigitLess(Num(s[..i]), Num(t[..i]), s[i], t[i], Pow(i));
  }

  lemma {:induction false} NumZeros(s: seq<Byte>)
    ensures Num(s) == 0 <==> forall k :: 0 <= k < |s| ==> s[k] == 0
  {
    if |s| > 0 {
      var t, d := s[..|s| - 1], s[|s| - 1];
      NumZeros(t);
      if d > 0 {
        MulLe(1, d, Pow(|s| - 1));
      }
      assert s == t + [d];
    }
  }

  lemma NumPowStep(i: nat)
    ensures Pow(i + 1) == 256 * Pow(i)
  {}
}
