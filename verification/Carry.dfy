/** Digit loops that carry or borrow: the invariants of the additions and subtractions. */
module Carry {
  import opened Arith
  import opened Digits

  /** d and c' are the digit and the carry of x * t + c. */
  ghost predicate DigitOf(x: int, t: int, c: int, d: int, c': int) { d + 256 * c' == x * t + c }

  lemma AddDigit(l: Byte, r: Byte, c: Byte, sum: Byte, c': Byte)
    requires c <= 1 && sum == ((l as int) + r + c) % 256
    requires c' == if sum == l then c else if sum < l then 1 else 0
    ensures DigitOf((l as int) + r, 1, c, sum, c')
  {}

  lemma SubDigit(l: Byte, r: Byte, b: Byte, diff: Byte, b': Byte)
    requires b <= 1 && diff == ((l as int) - r - b) % 256
    requires b' == if diff == l then b else if diff > l then 1 else 0
    ensures DigitOf((l as int) - r, 1, 0 - b, diff, 0 - b')
  {}

  /** The invariant of vli_add: the digits so far and the carry are the sum of the digits read. */
  ghost predicate SumSoFar(w: seq<Byte>, c: int, l: seq<Byte>, r: seq<Byte>, i: nat) {
    |w| == i <= |l| == |r| && Num(w) + c * Pow(i) == Num(l[..i]) + Num(r[..i])
  }

  lemma AddStep(w: seq<Byte>, c: int, l: seq<Byte>, r: seq<Byte>, i: nat, d: Byte, c': int)
    requires SumSoFar(w, c, l, r, i) && i < |l|
    requires DigitOf((l[i] as int) + r[i], 1, c, d, c')
    ensures SumSoFar(w + [d], c', l, r, i + 1)
  {
    hide Num, Pow;
    NumSnoc(w, d);
    NumPrefix(l, i);
    NumPrefix(r, i);
    NumPowStep(i);
    CarryTerms(d, c', l[i], r[i], c, Pow(i));
  }

  lemma CarryTerms(d: int, c': int, x: int, y: int, c: int, p: int)
    requires d + 256 * c' == x + y + c
    ensures d * p + c' * (256 * p) == x * p + y * p + c * p
  {
    assert c' * (256 * p) == (256 * c') * p;
    Distribute(d, 256 * c', p);
    Distribute(x + y, c, p);
    Distribute(x, y, p);
  }

  lemma SumStart(l: seq<Byte>, r: seq<Byte>)
    requires |l| == |r|
    ensures SumSoFar([], 0, l, r, 0)
  {}

  /** The invariant of vli_sub. */
  ghost predicate DifferenceSoFar(w: seq<Byte>, b: int, l: seq<Byte>, r: seq<Byte>, i: nat) {
    |w| == i <= |l| == |r| && Num(w) + Num(r[..i]) == Num(l[..i]) + b * Pow(i)
  }

  lemma SubStep(w: seq<Byte>, b: int, l: seq<Byte>, r: seq<Byte>, i: nat, d: Byte, b': int)
    requires DifferenceSoFar(w, b, l, r, i) && i < |l|
    requires DigitOf((l[i] as int) - r[i], 1, 0 - b, d, 0 - b')
    ensures DifferenceSoFar(w + [d], b', l, r, i + 1)
  {
    hide Num, Pow;
    NumSnoc(w, d);
    NumPrefix(l, i);
    NumPrefix(r, i);
    NumPowStep(i);
    CarryTerms(l[i], b', d, r[i], b, Pow(i));
  }

  lemma DifferenceStart(l: seq<Byte>, r: seq<Byte>)
    requires |l| == |r|
    ensures DifferenceSoFar([], 0, l, r, 0)
  {}
}
