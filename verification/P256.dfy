/** The secp256r1 branch of vli_mmod_fast, and the products it reduces. */
module P256 {
  import opened Arith
  import opened Digits
  import opened Bits
  import opened Vli
  import opened Carry
  import opened Field
  import opened VliSum
  import opened VliProduct

  /** The field prime 2^256 - 2^224 + 2^192 + 2^96 - 1. */
  const P: nat := 0xffff_ffff_0000_0001_0000_0000_0000_0000_0000_0000_ffff_ffff_ffff_ffff_ffff_ffff

  /** The 32-bit word number j of a digit string. */
  ghost function Word(s: seq<Byte>, j: nat): (w: nat)
    requires 4 * j + 4 <= |s|
    ensures w < 0x1_0000_0000
  {
    (s[4 * j] as int) + 0x100 * (s[4 * j + 1] as int) + 0x1_0000 * (s[4 * j + 2] as int) + 0x100_0000 * (s[4 * j + 3] as int)
  }

  ghost function W(a: array<Byte>, j: nat): (w: nat)
    requires 4 * j + 4 <= a.Length
    reads a
    ensures w < 0x1_0000_0000
  {
    Word(a[..], j)
  }

  ghost function WordsOf(s: seq<Byte>): (ws: seq<nat>)
    requires |s| == DIGITS
    ensures |ws| == 8
  {
    [Word(s, 0), Word(s, 1), Word(s, 2), Word(s, 3), Word(s, 4), Word(s, 5), Word(s, 6), Word(s, 7)]
  }

  ghost function Words(a: array<Byte>): (ws: seq<nat>)
    requires a.Length == DIGITS
    reads a
    ensures |ws| == 8
  {
    WordsOf(a[..])
  }

  /** The number with these eight 32-bit words. */
  ghost function Value(ws: seq<nat>): nat
    requires |ws| == 8
  {
    Sum8(ws[0], ws[1], ws[2], ws[3], ws[4], ws[5], ws[6], ws[7])
  }

  ghost function Sum8(a: nat, b: nat, c: nat, d: nat, e: nat, f: nat, g: nat, h: nat): nat {
    a + 0x1_0000_0000 * b + 0x1_0000_0000_0000_0000 * c
    + 0x1_0000_0000_0000_0000_0000_0000 * d + 0x1_0000_0000_0000_0000_0000_0000_0000_0000 * e
    + 0x1_0000_0000_0000_0000_0000_0000_0000_0000_0000_0000 * f
    + 0x1_0000_0000_0000_0000_0000_0000_0000_0000_0000_0000_0000_0000 * g
    + 0x1_0000_0000_0000_0000_0000_0000_0000_0000_0000_0000_0000_0000_0000_0000 * h
  }

  lemma WordSnoc(s: seq<Byte>, n: nat)
    requires 4 * n + 4 <= |s|
    ensures Num(s[..4 * n + 4]) == Num(s[..4 * n]) + Word(s, n) * Pow(4 * n)
  {
    hide Num, Pow;
    var p := Pow(4 * n);
    NumPrefix(s, 4 * n);
    NumPrefix(s, 4 * n + 1);
    NumPrefix(s, 4 * n + 2);
    NumPrefix(s, 4 * n + 3);
    NumPowStep(4 * n);
    NumPowStep(4 * n + 1);
    NumPowStep(4 * n + 2);
    FourDigits(s[4 * n], s[4 * n + 1], s[4 * n + 2], s[4 * n + 3], p);
  }

  lemma FourDigits(a: int, b: int, c: int, d: int, p: int)
    ensures a * p + b * (256 * p) + c * (256 * (256 * p)) + d * (256 * (256 * (256 * p)))
            == (a + 0x100 * b + 0x1_0000 * c + 0x100_0000 * d) * p
  {}

  lemma NumOfEightWords(s: seq<Byte>)
    requires |s| == DIGITS
    ensures Num(s) == Value(WordsOf(s))
  {
    hide Num, Pow, Word;
    PowersOfWords();
    NumPrefixEmpty(s);
    WordSnoc(s, 0);
    WordSnoc(s, 1);
    WordSnoc(s, 2);
    WordSnoc(s, 3);
    WordSnoc(s, 4);
    WordSnoc(s, 5);
    WordSnoc(s, 6);
    WordSnoc(s, 7);
    assert s[..32] == s;
  }

  lemma PowersOfWords()
    ensures Pow(0) == 1 && Pow(4) == 0x1_0000_0000 && Pow(8) == 0x1_0000_0000_0000_0000
    ensures Pow(12) == 0x1_0000_0000_0000_0000_0000_0000
    ensures Pow(16) == 0x1_0000_0000_0000_0000_0000_0000_0000_0000
    ensures Pow(20) == 0x1_0000_0000_0000_0000_0000_0000_0000_0000_0000_0000
    ensures Pow(24) == 0x1_0000_0000_0000_0000_0000_0000_0000_0000_0000_0000_0000_0000
    ensures Pow(28) == 0x1_0000_0000_0000_0000_0000_0000_0000_0000_0000_0000_0000_0000_0000_0000
  {
    assert Pow(0) == 1 && Pow(1) == 256;
    PowSum(1, 256, 1, 256);
    PowSum(2, 0x1_0000, 2, 0x1_0000);
    PowSum(4, 0x1_0000_0000, 4, 0x1_0000_0000);
    PowSum(8, 0x1_0000_0000_0000_0000, 4, 0x1_0000_0000);
    PowSum(8, 0x1_0000_0000_0000_0000, 8, 0x1_0000_0000_0000_0000);
    PowSum(16, 0x1_0000_0000_0000_0000_0000_0000_0000_0000, 4, 0x1_0000_0000);
    PowSum(16, 0x1_0000_0000_0000_0000_0000_0000_0000_0000, 8, 0x1_0000_0000_0000_0000);
    PowSum(16, 0x1_0000_0000_0000_0000_0000_0000_0000_0000, 12, 0x1_0000_0000_0000_0000_0000_0000);
  }

  lemma PowSum(m: nat, p: nat, n: nat, q: nat)
    requires Pow(m) == p && Pow(n) == q
    ensures Pow(m + n) == p * q
  {
    PowAdd(m, n);
  }

  lemma ValueOfWords(a: array<Byte>)
    requires a.Length == DIGITS
    ensures V(a) == Value(Words(a))
  {
    assert a[0..DIGITS] == a[..];
    NumOfEightWords(a[..]);
  }

  lemma WordsAfter(s: seq<Byte>, t: seq<Byte>, j: nat)
    requires |s| == |t| == DIGITS && j < 8
    requires forall k :: 0 <= k < DIGITS && !(4 * j <= k < 4 * j + 4) ==> t[k] == s[k]
    ensures WordsOf(t) == WordsOf(s)[j := Word(t, j)]
  {
    hide Word;
    WordAfter(s, t, j, 0);
    WordAfter(s, t, j, 1);
    WordAfter(s, t, j, 2);
    WordAfter(s, t, j, 3);
    WordAfter(s, t, j, 4);
    WordAfter(s, t, j, 5);
    WordAfter(s, t, j, 6);
    WordAfter(s, t, j, 7);
  }

  lemma WordAfter(s: seq<Byte>, t: seq<Byte>, j: nat, i: nat)
    requires |s| == |t| == DIGITS && j < 8 && i < 8
    requires forall k :: 0 <= k < DIGITS && !(4 * j <= k < 4 * j + 4) ==> t[k] == s[k]
    ensures i != j ==> Word(t, i) == Word(s, i)
  {}

  lemma WordIs(s: seq<Byte>, j: nat, w: seq<Byte>)
    requires 4 * j + 4 <= |s| && w == s[4 * j..4 * j + 4]
    ensures Word(s, j) == Word(w, 0)
  {
    assert s[4 * j] == w[0] && s[4 * j + 1] == w[1] && s[4 * j + 2] == w[2] && s[4 * j + 3] == w[3];
  }

  lemma ZeroWord()
    ensures Word([0, 0, 0, 0], 0) == 0
  {}

  lemma WordsDefinition(a: array<Byte>, b: array<Byte>, k: nat)
    requires a.Length == DIGITS && 4 * k + 4 <= b.Length
    ensures Words(a) == WordsOf(a[..]) && W(b, k) == Word(b[..], k)
  {}

  /** Word j becomes word k of the product, digit by digit. */
  method CopyWord(dst: array<Byte>, j: nat, src: array<Byte>, k: nat)
    requires dst.Length == DIGITS && j < 8 && 4 * k + 4 <= src.Length && src != dst
    modifies dst
    ensures Words(dst) == old(Words(dst))[j := W(src, k)]
  {
    hide *;
    DigitsIs();
    ghost var s := dst[..];
    WordsDefinition(dst, src, k);
    dst[4 * j] := src[4 * k];
    dst[4 * j + 1] := src[4 * k + 1];
    dst[4 * j + 2] := src[4 * k + 2];
    dst[4 * j + 3] := src[4 * k + 3];
    WordsAfter(s, dst[..], j);
    assert dst[..][4 * j..4 * j + 4] == src[..][4 * k..4 * k + 4];
    WordIs(dst[..], j, dst[..][4 * j..4 * j + 4]);
    WordIs(src[..], k, src[..][4 * k..4 * k + 4]);
    WordsDefinition(dst, src, k);
  }

  /** Word j becomes 0. */
  method ClearWord(dst: array<Byte>, j: nat)
    requires dst.Length == DIGITS && j < 8
    modifies dst
    ensures Words(dst) == old(Words(dst))[j := 0]
  {
    hide *;
    DigitsIs();
    ghost var s := dst[..];
    WordsDefinition(dst, dst, j);
    dst[4 * j] := 0;
    dst[4 * j + 1] := 0;
    dst[4 * j + 2] := 0;
    dst[4 * j + 3] := 0;
    WordsAfter(s, dst[..], j);
    assert dst[..][4 * j..4 * j + 4] == [0, 0, 0, 0];
    WordIs(dst[..], j, [0, 0, 0, 0]);
    ZeroWord();
    WordsDefinition(dst, dst, j);
  }

  /** s1 before it is doubled */
  method LoadS1(tmp: array<Byte>, product: array<Byte>)
    requires tmp.Length == DIGITS && product.Length == 2 * DIGITS
    requires tmp != product
    modifies tmp
    ensures V(tmp) == Value([0, 0, 0, W(product, 11), W(product, 12), W(product, 13), W(product, 14), W(product, 15)])
    ensures forall j :: 0 <= j < 3 ==> Words(tmp)[j] == 0
  {
    hide *;
    DigitsIs();
    ClearWord(tmp, 0);
    ClearWord(tmp, 1);
    ClearWord(tmp, 2);
    CopyWord(tmp, 3, product, 11);
    CopyWord(tmp, 4, product, 12);
    CopyWord(tmp, 5, product, 13);
    CopyWord(tmp, 6, product, 14);
    CopyWord(tmp, 7, product, 15);
    ValueOfWords(tmp);
    assert Words(tmp) == [0, 0, 0, W(product, 11), W(product, 12), W(product, 13), W(product, 14), W(product, 15)];
  }

  /** s2 before it is doubled; the three low words are still zero */
  method LoadS2(tmp: array<Byte>, product: array<Byte>)
    requires tmp.Length == DIGITS && product.Length == 2 * DIGITS
    requires tmp != product
    requires forall j :: 0 <= j < 3 ==> Words(tmp)[j] == 0
    modifies tmp
    ensures V(tmp) == Value([0, 0, 0, W(product, 12), W(product, 13), W(product, 14), W(product, 15), 0])
  {
    hide *;
    DigitsIs();
    CopyWord(tmp, 3, product, 12);
    CopyWord(tmp, 4, product, 13);
    CopyWord(tmp, 5, product, 14);
    CopyWord(tmp, 6, product, 15);
    ClearWord(tmp, 7);
    ValueOfWords(tmp);
    assert Words(tmp) == [0, 0, 0, W(product, 12), W(product, 13), W(product, 14), W(product, 15), 0];
  }

  /** s3 */
  method LoadS3(tmp: array<Byte>, product: array<Byte>)
    requires tmp.Length == DIGITS && product.Length == 2 * DIGITS
    requires tmp != product
    modifies tmp
    ensures V(tmp) == Value([W(product, 8), W(product, 9), W(product, 10), 0, 0, 0, W(product, 14), W(product, 15)])
  {
    hide *;
    DigitsIs();
    CopyWord(tmp, 0, product, 8);
    CopyWord(tmp, 1, product, 9);
    CopyWord(tmp, 2, product, 10);
    ClearWord(tmp, 3);
    ClearWord(tmp, 4);
    ClearWord(tmp, 5);
    CopyWord(tmp, 6, product, 14);
    CopyWord(tmp, 7, product, 15);
    ValueOfWords(tmp);
    assert Words(tmp) == [W(product, 8), W(product, 9), W(product, 10), 0, 0, 0, W(product, 14), W(product, 15)];
  }

  /** s4 */
  method LoadS4(tmp: array<Byte>, product: array<Byte>)
    requires tmp.Length == DIGITS && product.Length == 2 * DIGITS
    requires tmp != product
    modifies tmp
    ensures V(tmp) == Value([W(product, 9), W(product, 10), W(product, 11), W(product, 13), W(product, 14),
            W(product, 15), W(product, 13), W(product, 8)])
  {
    hide *;
    DigitsIs();
    CopyWord(tmp, 0, product, 9);
    CopyWord(tmp, 1, product, 10);
    CopyWord(tmp, 2, product, 11);
    CopyWord(tmp, 3, product, 13);
    CopyWord(tmp, 4, product, 14);
    CopyWord(tmp, 5, product, 15);
    CopyWord(tmp, 6, product, 13);
    CopyWord(tmp, 7, product, 8);
    ValueOfWords(tmp);
    assert Words(tmp) == [W(product, 9), W(product, 10), W(product, 11), W(product, 13), W(product, 14), W(product, 15),
        W(product, 13), W(product, 8)];
  }

  /** d1 */
  method LoadD1(tmp: array<Byte>, product: array<Byte>)
    requires tmp.Length == DIGITS && product.Length == 2 * DIGITS
    requires tmp != product
    modifies tmp
    ensures V(tmp) == Value([W(product, 11), W(product, 12), W(product, 13), 0, 0, 0, W(product, 8), W(product, 10)])
  {
    hide *;
    DigitsIs();
    CopyWord(tmp, 0, product, 11);
    CopyWord(tmp, 1, product, 12);
    CopyWord(tmp, 2, product, 13);
    ClearWord(tmp, 3);
    ClearWord(tmp, 4);
    ClearWord(tmp, 5);
    CopyWord(tmp, 6, product, 8);
    CopyWord(tmp, 7, product, 10);
    ValueOfWords(tmp);
    assert Words(tmp) == [W(product, 11), W(product, 12), W(product, 13), 0, 0, 0, W(product, 8), W(product, 10)];
  }

  /** d2 */
  method LoadD2(tmp: array<Byte>, product: array<Byte>)
    requires tmp.Length == DIGITS && product.Length == 2 * DIGITS
    requires tmp != product
    modifies tmp
    ensures V(tmp) == Value([W(product, 12), W(product, 13), W(product, 14), W(product, 15), 0, 0, W(product, 9), W(product, 11)])
  {
    hide *;
    DigitsIs();
    CopyWord(tmp, 0, product, 12);
    CopyWord(tmp, 1, product, 13);
    CopyWord(tmp, 2, product, 14);
    CopyWord(tmp, 3, product, 15);
    ClearWord(tmp, 4);
    ClearWord(tmp, 5);
    CopyWord(tmp, 6, product, 9);
    CopyWord(tmp, 7, product, 11);
    ValueOfWords(tmp);
    assert Words(tmp) == [W(product, 12), W(product, 13), W(product, 14), W(product, 15), 0, 0, W(product, 9), W(product, 11)];
  }

  /** d3 */
  method LoadD3(tmp: array<Byte>, product: array<Byte>)
    requires tmp.Length == DIGITS && product.Length == 2 * DIGITS
    requires tmp != product
    modifies tmp
    ensures V(tmp) == Value([W(product, 13), W(product, 14), W(product, 15), W(product, 8), W(product, 9),
            W(product, 10), 0, W(product, 12)])
  {
    hide *;
    DigitsIs();
    CopyWord(tmp, 0, product, 13);
    CopyWord(tmp, 1, product, 14);
    CopyWord(tmp, 2, product, 15);
    CopyWord(tmp, 3, product, 8);
    CopyWord(tmp, 4, product, 9);
    CopyWord(tmp, 5, product, 10);
    ClearWord(tmp, 6);
    CopyWord(tmp, 7, product, 12);
    ValueOfWords(tmp);
    assert Words(tmp) == [W(product, 13), W(product, 14), W(product, 15), W(product, 8), W(product, 9), W(product, 10),
        0, W(product, 12)];
  }

  /** d4 */
  method LoadD4(tmp: array<Byte>, product: array<Byte>)
    requires tmp.Length == DIGITS && product.Length == 2 * DIGITS
    requires tmp != product
    modifies tmp
    ensures V(tmp) == Value([W(product, 14), W(product, 15), 0, W(product, 9), W(product, 10), W(product, 11), 0, W(product, 13)])
  {
    hide *;
    DigitsIs();
    CopyWord(tmp, 0, product, 14);
    CopyWord(tmp, 1, product, 15);
    ClearWord(tmp, 2);
    CopyWord(tmp, 3, product, 9);
    CopyWord(tmp, 4, product, 10);
    CopyWord(tmp, 5, product, 11);
    ClearWord(tmp, 6);
    CopyWord(tmp, 7, product, 13);
    ValueOfWords(tmp);
    assert Words(tmp) == [W(product, 14), W(product, 15), 0, W(product, 9), W(product, 10), W(product, 11), 0, W(product, 13)];
  }

  /** The combination of section D.2.3 of FIPS 186-4, before its reduction. */
  ghost function Combination(a: seq<nat>): int
    requires |a| == 16
  {
    Value(a[..8]) + 2 * Value([0, 0, 0, a[11], a[12], a[13], a[14], a[15]]) + 2 * Value([0, 0, 0, a[12], a[13], a[14], a[15], 0])
    + Value([a[8], a[9], a[10], 0, 0, 0, a[14], a[15]]) + Value([a[9], a[10], a[11], a[13], a[14], a[15], a[13], a[8]])
    - Value([a[11], a[12], a[13], 0, 0, 0, a[8], a[10]]) - Value([a[12], a[13], a[14], a[15], 0, 0, a[9], a[11]])
    - Value([a[13], a[14], a[15], a[8], a[9], a[10], 0, a[12]]) - Value([a[14], a[15], 0, a[9], a[10], a[11], 0, a[13]])
  }

  /** The quotient by P that the combination leaves out. */
  ghost function Quotient(a: seq<nat>): int
    requires |a| == 16
  {
    0x1 * a[8]
    + 0x100000001 * a[9]
    + 0x10000000100000000 * a[10]
    + 0x100000000ffffffffffffffff * a[11]
    + 0x100000000fffffffffffffffeffffffff * a[12]
    + 0x100000000fffffffffffffffefffffffeffffffff * a[13]
    + 0x100000000fffffffffffffffefffffffefffffffeffffffff * a[14]
    + 0x100000000fffffffffffffffefffffffefffffffeffffffff00000000 * a[15]
  }

  /** The combination differs from the number by a multiple of P. */
  lemma CombinationIsCongruent(a: seq<nat>)
    requires |a| == 16
    ensures Value(a[..8]) + RADIX * Value(a[8..]) == Combination(a) + P * Quotient(a)
  {
    hide Sum8;
    CombinationOfWords(a[8], a[9], a[10], a[11], a[12], a[13], a[14], a[15]);
  }

  lemma CombinationOfWords(a8: nat, a9: nat, a10: nat, a11: nat, a12: nat, a13: nat, a14: nat, a15: nat)
    ensures RADIX * Sum8(a8, a9, a10, a11, a12, a13, a14, a15)
            == 2 * Sum8(0, 0, 0, a11, a12, a13, a14, a15) + 2 * Sum8(0, 0, 0, a12, a13, a14, a15, 0)
               + Sum8(a8, a9, a10, 0, 0, 0, a14, a15) + Sum8(a9, a10, a11, a13, a14, a15, a13, a8)
               - Sum8(a11, a12, a13, 0, 0, 0, a8, a10) - Sum8(a12, a13, a14, a15, 0, 0, a9, a11)
               - Sum8(a13, a14, a15, a8, a9, a10, 0, a12) - Sum8(a14, a15, 0, a9, a10, a11, 0, a13)
               + P * (0x1 * a8
                    + 0x100000001 * a9
                    + 0x10000000100000000 * a10
                    + 0x100000000ffffffffffffffff * a11
                    + 0x100000000fffffffffffffffeffffffff * a12
                    + 0x100000000fffffffffffffffefffffffeffffffff * a13
                    + 0x100000000fffffffffffffffefffffffefffffffeffffffff * a14
                    + 0x100000000fffffffffffffffefffffffefffffffeffffffff00000000 * a15)
  {}

  lemma WordOfHalves(s: seq<Byte>, j: nat)
    requires |s| == 2 * DIGITS && j < 16
    ensures Word(s, j) == if j < 8 then WordsOf(s[..DIGITS])[j] else WordsOf(s[DIGITS..])[j - 8]
  {}

  lemma NumOfSixteenWords(product: array<Byte>) returns (a: seq<nat>)
    requires product.Length == 2 * DIGITS
    ensures |a| == 16 && (forall j :: 0 <= j < 16 ==> a[j] == W(product, j) < 0x1_0000_0000)
    ensures V(product, 0) == Value(a[..8])
    ensures Wide(product) == Value(a[..8]) + RADIX * Value(a[8..])
  {
    var s := product[..];
    var l, h := s[..DIGITS], s[DIGITS..];
    NumOfEightWords(l);
    NumOfEightWords(h);
    assert s == l + h && product[0..DIGITS] == l;
    NumAppend(l, h);
    PowDigits();
    a := WordsOf(l) + WordsOf(h);
    assert a[..8] == WordsOf(l) && a[8..] == WordsOf(h);
    forall j | 0 <= j < 16 ensures a[j] == W(product, j) {
      WordOfHalves(s, j);
    }
  }

  lemma LowWordsStayZero(s: seq<nat>, t: seq<nat>, c: int)
    requires |s| == |t| == 8 && s[0] == s[1] == s[2] == 0
    requires forall j :: 0 <= j < 8 ==> t[j] < 0x1_0000_0000
    requires Value(t) + c * RADIX == 2 * Value(s)
    ensures t[0] == t[1] == t[2] == 0
  {
    var low := t[0] + 0x1_0000_0000 * t[1] + 0x1_0000_0000_0000_0000 * t[2];
    var high := t[3] + 0x1_0000_0000 * t[4] + 0x1_0000_0000_0000_0000 * t[5]
      + 0x1_0000_0000_0000_0000_0000_0000 * t[6] + 0x1_0000_0000_0000_0000_0000_0000_0000_0000 * t[7];
    var before := s[3] + 0x1_0000_0000 * s[4] + 0x1_0000_0000_0000_0000 * s[5]
      + 0x1_0000_0000_0000_0000_0000_0000 * s[6] + 0x1_0000_0000_0000_0000_0000_0000_0000_0000 * s[7];
    var n := 2 * before - high - 0x1_0000_0000_0000_0000_0000_0000_0000_0000_0000_0000 * c;
    assert low == 0x1_0000_0000_0000_0000_0000_0000 * n;
    assert n == 0;
  }

  lemma WordsSmall(a: array<Byte>)
    requires a.Length == DIGITS
    ensures forall j :: 0 <= j < 8 ==> Words(a)[j] < 0x1_0000_0000
  {}

  lemma DoubleIs(x: int, c: int, v: int, t: int)
    requires x + c * RADIX == v * t && t == 2
    ensures x + c * RADIX == 2 * v
  {}

  /** vli_lshift(tmp, tmp, 1): the low words stay zero if they were. */
  method ShiftOne(tmp: array<Byte>) returns (carry: Byte)
    requires tmp.Length == DIGITS
    modifies tmp
    ensures V(tmp) + carry * RADIX == 2 * old(V(tmp))
    ensures (forall j :: 0 <= j < 3 ==> old(Words(tmp)[j]) == 0) ==> forall j :: 0 <= j < 3 ==> Words(tmp)[j] == 0
  {
    hide V, Wide, W, Words, Value, Combination, Quotient, Two;
    ghost var v, ws := V(tmp), Words(tmp);
    ValueOfWords(tmp);
    SmallTwos();
    carry := Lshift(tmp, tmp, 1);
    DoubleIs(V(tmp), carry, v, Two(1));
    ValueOfWords(tmp);
    WordsSmall(tmp);
    if forall j :: 0 <= j < 3 ==> ws[j] == 0 {
      LowWordsStayZero(ws, Words(tmp), carry);
    }
  }

  /** Adds the four positive terms t + 2 s1 + 2 s2 + s3 + s4. */
  method AddTerms(result: array<Byte>, tmp: array<Byte>, product: array<Byte>, ghost a: seq<nat>) returns (carry: int)
    requires result.Length == tmp.Length == DIGITS && product.Length == 2 * DIGITS
    requires result != tmp && result != product && tmp != product
    requires |a| == 16 && V(product, 0) == Value(a[..8])
    requires forall j :: 0 <= j < 16 ==> a[j] == W(product, j)
    modifies result, tmp
    ensures carry * RADIX + V(result)
            == Value(a[..8]) + 2 * Value([0, 0, 0, a[11], a[12], a[13], a[14], a[15]])
            + 2 * Value([0, 0, 0, a[12], a[13], a[14], a[15], 0]) + Value([a[8], a[9], a[10], 0, 0, 0, a[14], a[15]])
            + Value([a[9], a[10], a[11], a[13], a[14], a[15], a[13], a[8]])
    ensures carry >= 0
  {
    hide V, Wide, W, Words, Value, Combination, Quotient, Two;
    Set(result, product);
    LoadS1(tmp, product);
    carry := ShiftOne(tmp);
    var c := Add(result, result, tmp);
    carry := carry + c;
    LoadS2(tmp, product);
    c := ShiftOne(tmp);
    carry := carry + c;
    c := Add(result, result, tmp);
    carry := carry + c;
    LoadS3(tmp, product);
    c := Add(result, result, tmp);
    carry := carry + c;
    LoadS4(tmp, product);
    c := Add(result, result, tmp);
    carry := carry + c;
  }

  /** Subtracts the four negative terms d1, d2, d3 and d4. */
  method SubtractTerms(result: array<Byte>, tmp: array<Byte>, product: array<Byte>, ghost a: seq<nat>, carry0: int)
    returns (carry: int)
    requires result.Length == tmp.Length == DIGITS && product.Length == 2 * DIGITS
    requires result != tmp && result != product && tmp != product
    requires |a| == 16 && forall j :: 0 <= j < 16 ==> a[j] == W(product, j)
    modifies result, tmp
    ensures carry * RADIX + V(result)
            == carry0 * RADIX + old(V(result))
               - Value([a[11], a[12], a[13], 0, 0, 0, a[8], a[10]]) - Value([a[12], a[13], a[14], a[15], 0, 0, a[9], a[11]])
               - Value([a[13], a[14], a[15], a[8], a[9], a[10], 0, a[12]])
               - Value([a[14], a[15], 0, a[9], a[10], a[11], 0, a[13]])
  {
    hide V, Wide, W, Words, Value, Combination, Quotient, Two;
    carry := carry0;
    LoadD1(tmp, product);
    var b := Sub(result, result, tmp);
    carry := carry - b;
    LoadD2(tmp, product);
    b := Sub(result, result, tmp);
    carry := carry - b;
    LoadD3(tmp, product);
    b := Sub(result, result, tmp);
    carry := carry - b;
    LoadD4(tmp, product);
    b := Sub(result, result, tmp);
    carry := carry - b;
  }

  lemma CombinationIs(a: seq<nat>)
    requires |a| == 16
    ensures Combination(a)
            == Value(a[..8]) + 2 * Value([0, 0, 0, a[11], a[12], a[13], a[14], a[15]])
            + 2 * Value([0, 0, 0, a[12], a[13], a[14], a[15], 0])
               + Value([a[8], a[9], a[10], 0, 0, 0, a[14], a[15]]) + Value([a[9], a[10], a[11], a[13], a[14], a[15], a[13], a[8]])
               - Value([a[11], a[12], a[13], 0, 0, 0, a[8], a[10]]) - Value([a[12], a[13], a[14], a[15], 0, 0, a[9], a[11]])
               - Value([a[13], a[14], a[15], a[8], a[9], a[10], 0, a[12]])
               - Value([a[14], a[15], 0, a[9], a[10], a[11], 0, a[13]])
  {}

  /** The end of vli_mmod_fast: the pair (carry, result) stands for carry * RADIX + result, and
      adding or subtracting P brings that number into [0, P). */
  method ReducePair(result: array<Byte>, p: array<Byte>, carry0: int) returns (ghost q: int)
    requires result.Length == p.Length == DIGITS && result != p && V(p) == P
    modifies result
    ensures V(result) < P
    ensures carry0 * RADIX + old(V(result)) == V(result) + P * q
  {
    hide V, Wide, W, Words, Value, Combination, Quotient, Two;
    var carry := carry0;
    q := 0;
    if carry < 0 {
      while carry < 0
        invariant carry * RADIX + V(result) < P
        invariant carry0 * RADIX + old(V(result)) == carry * RADIX + V(result) + P * q
        decreases P - (carry * RADIX + V(result))
      {
        var c := Add(result, result, p);
        carry := carry + c;
        q := q - 1;
      }
    } else {
      var c := Cmp(p, result);
      while carry != 0 || c != 1
        invariant carry >= 0
        invariant c == if P > V(result) then 1 else if P < V(result) then -1 else 0
        invariant carry0 * RADIX + old(V(result)) == carry * RADIX + V(result) + P * q
        decreases carry * RADIX + V(result)
      {
        var b := Sub(result, result, p);
        carry := carry - b;
        q := q + 1;
        c := Cmp(p, result);
      }
    }
  }

  /** result = product % P for every 512-bit product. */
  method MmodFast(result: array<Byte>, product: array<Byte>, p: array<Byte>)
    requires result.Length == p.Length == DIGITS && product.Length == 2 * DIGITS
    requires result != product && result != p && V(p) == P
    modifies result
    ensures V(result) == Wide(product) % P
  {
    hide V, Wide, W, Words, Value, Combination, Quotient, Two;
    ghost var a := NumOfSixteenWords(product);
    var tmp := new Byte[32];
    var carry := AddTerms(result, tmp, product, a);
    carry := SubtractTerms(result, tmp, product, a, carry);
    CombinationIs(a);
    CombinationIsCongruent(a);
    ghost var q := ReducePair(result, p, carry);
    QuotientIsP(Wide(product), q + Quotient(a), V(result));
  }

  lemma QuotientIsP(n: int, q: int, r: int)
    requires 0 <= r < P && n == P * q + r
    ensures n % P == r
  {}

  /** result = left * right % P. */
  method ModMultFast(result: array<Byte>, left: array<Byte>, right: array<Byte>, p: array<Byte>)
    requires result.Length == left.Length == right.Length == p.Length == DIGITS
    requires result != p && V(p) == P
    modifies result
    ensures V(result) == FMul(old(V(left)), old(V(right)), P)
  {
    hide V, Wide, W, Words, Value, Combination, Quotient, Two;
    var product := new Byte[64];
    Mult(product, left, right);
    MmodFast(result, product, p);
  }

  /** result = left * left % P. */
  method ModSquareFast(result: array<Byte>, left: array<Byte>, p: array<Byte>)
    requires result.Length == left.Length == p.Length == DIGITS
    requires result != p && V(p) == P
    modifies result
    ensures V(result) == FMul(old(V(left)), old(V(left)), P)
  {
    hide V, Wide, W, Words, Value, Combination, Quotient, Two;
    var product := new Byte[64];
    Square(product, left);
    MmodFast(result, product, p);
  }
}
