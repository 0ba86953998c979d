/** SHA-256 as in sections 4.1.2, 5.1.1 and 6.2 of FIPS 180-4, on messages of whole bytes. */
module Sha256Spec {
  import opened Arith
  import opened Digits
  import opened Bits
  import opened Words

  function Plus32(a: int, b: int): Word { (a + b) % 0x1_0000_0000 }

  /** Circular right shift. */
  function Rotr(x: Word, n: nat): Word
    requires 0 < n < 32
  {
    OrWord(Shr(x, n), Shl(x, 32 - n))
  }

  function BigSigma0(x: Word): Word { XorWord(XorWord(Rotr(x, 2), Rotr(x, 13)), Rotr(x, 22)) }

  function BigSigma1(x: Word): Word { XorWord(XorWord(Rotr(x, 6), Rotr(x, 11)), Rotr(x, 25)) }

  function SmallSigma0(x: Word): Word { XorWord(XorWord(Rotr(x, 7), Rotr(x, 18)), Shr(x, 3)) }

  function SmallSigma1(x: Word): Word { XorWord(XorWord(Rotr(x, 17), Rotr(x, 19)), Shr(x, 10)) }

  function Ch(x: Word, y: Word, z: Word): Word { XorWord(AndWord(x, y), AndWord(NotWord(x), z)) }

  function Maj(x: Word, y: Word, z: Word): Word { XorWord(XorWord(AndWord(x, y), AndWord(x, z)), AndWord(y, z)) }

  /** The round constants, in rows of 16. */
  const K_A: seq<Word> := [
    0x428a2f98, 0x71374491, 0xb5c0fbcf, 0xe9b5dba5, 0x3956c25b, 0x59f111f1, 0x923f82a4, 0xab1c5ed5,
    0xd807aa98, 0x12835b01, 0x243185be, 0x550c7dc3, 0x72be5d74, 0x80deb1fe, 0x9bdc06a7, 0xc19bf174]

  const K_B: seq<Word> := [
    0xe49b69c1, 0xefbe4786, 0x0fc19dc6, 0x240ca1cc, 0x2de92c6f, 0x4a7484aa, 0x5cb0a9dc, 0x76f988da,
    0x983e5152, 0xa831c66d, 0xb00327c8, 0xbf597fc7, 0xc6e00bf3, 0xd5a79147, 0x06ca6351, 0x14292967]

  const K_C: seq<Word> := [
    0x27b70a85, 0x2e1b2138, 0x4d2c6dfc, 0x53380d13, 0x650a7354, 0x766a0abb, 0x81c2c92e, 0x92722c85,
    0xa2bfe8a1, 0xa81a664b, 0xc24b8b70, 0xc76c51a3, 0xd192e819, 0xd6990624, 0xf40e3585, 0x106aa070]

  const K_D: seq<Word> := [
    0x19a4c116, 0x1e376c08, 0x2748774c, 0x34b0bcb5, 0x391c0cb3, 0x4ed8aa4a, 0x5b9cca4f, 0x682e6ff3,
    0x748f82ee, 0x78a5636f, 0x84c87814, 0x8cc70208, 0x90befffa, 0xa4506ceb, 0xbef9a3f7, 0xc67178f2]

  const K: seq<Word> := K_A + K_B + K_C + K_D

  const H0: seq<Word> := [0x6a09e667, 0xbb67ae85, 0x3c6ef372, 0xa54ff53a, 0x510e527f, 0x9b05688c, 0x1f83d9ab, 0x5be0cd19]

  function Constant(t: nat): Word
    requires t < |K|
  {
    K[t]
  }

  type Block = s: seq<Byte> | |s| == 64 witness seq(64, _ => 0)

  /** The word with the given bytes, most significant first. */
  function BigWord(a: Byte, b: Byte, c: Byte,
      d: Byte): Word { 0x100_0000 * (a as int) + 0x1_0000 * (b as int) + 0x100 * (c as int) + d }

  /** W_t. */
  function Schedule(m: Block, t: nat): Word {
    if t < 16 then BigWord(m[4 * t], m[4 * t + 1], m[4 * t + 2], m[4 * t + 3])
    else Plus32(Plus32(Plus32(SmallSigma1(Schedule(m, t - 2)), Schedule(m, t - 7)), SmallSigma0(Schedule(m, t - 15))),
        Schedule(m, t - 16))
  }

  datatype Registers = Registers(a: Word, b: Word, c: Word, d: Word, e: Word, f: Word, g: Word, h: Word)

  /** One round of the compression function. */
  function Step(r: Registers, k: Word, w: Word): Registers {
    var t1 := Plus32(Plus32(Plus32(Plus32(r.h, BigSigma1(r.e)), Ch(r.e, r.f, r.g)), k), w);
    var t2 := Plus32(BigSigma0(r.a), Maj(r.a, r.b, r.c));
    Registers(Plus32(t1, t2), r.a, r.b, r.c, Plus32(r.d, t1), r.e, r.f, r.g)
  }

  function Rounds(r: Registers, m: Block, n: nat): Registers
    requires n <= |K|
  {
    if n == 0 then r else Step(Rounds(r, m, n - 1), Constant(n - 1), Schedule(m, n - 1))
  }

  type Chain = s: seq<Word> | |s| == 8 witness seq(8, _ => 0)

  function Start(h: Chain): Registers { Registers(h[0], h[1], h[2], h[3], h[4], h[5], h[6], h[7]) }

  /** The registers added to the chaining value. */
  function FeedForward(h: Chain, r: Registers): Chain {
    [Plus32(h[0], r.a), Plus32(h[1], r.b), Plus32(h[2], r.c), Plus32(h[3], r.d),
     Plus32(h[4], r.e), Plus32(h[5], r.f), Plus32(h[6], r.g), Plus32(h[7], r.h)]
  }

  function Compress(h: Chain, m: Block): Chain {
    FeedForward(h, Rounds(Start(h), m, |K|))
  }

  /** The chaining value after the whole blocks of p. */
  function Blocks(h: Chain, p: seq<Byte>): Chain
    decreases |p|
  {
    if |p| < 64 then h else Blocks(Compress(h, p[..64]), p[64..])
  }

  /** The bytes of a word, most significant first. */
  function BigBytes(w: Word): (s: seq<Byte>)
    ensures |s| == 4
  {
    [w / 0x100_0000, w / 0x1_0000 % 0x100, w / 0x100 % 0x100, w % 0x100]
  }

  function ZeroBytes(n: nat): (s: seq<Byte>)
    ensures |s| == n
  {
    seq(n, _ => 0)
  }

  /** The padding of a message of n bytes. */
  function Pad(n: nat): seq<Byte>
    requires 8 * n < 0x1_0000_0000_0000_0000
  {
    [0x80] + ZeroBytes((55 - (n as int)) % 64) + BigBytes(8 * n / 0x1_0000_0000) + BigBytes(8 * n % 0x1_0000_0000)
  }

  function Digest(h: Chain): seq<Byte> {
    BigBytes(h[0]) + BigBytes(h[1]) + BigBytes(h[2]) + BigBytes(h[3]) + BigBytes(h[4]) + BigBytes(h[5]) + BigBytes(h[6])
    + BigBytes(h[7])
  }

  /** The digest of a message below 2^64 bits. */
  function Hash(m: seq<Byte>): seq<Byte>
    requires 8 * |m| < 0x1_0000_0000_0000_0000
  {
    Digest(Blocks(H0, m + Pad(|m|)))
  }

  /** Ch chooses, bit by bit. */
  lemma ChBit(x: Word, y: Word, z: Word, k: nat)
    requires k < 32
    ensures BitOf(Ch(x, y, z), k) == (if BitOf(x, k) then BitOf(y, k) else BitOf(z, k))
  {
    hide BitOf, Xor, And, NotWord;
    AndBit(x, y, k);
    AndBit(NotWord(x), z, k);
    NotWordBit(x, k);
    XorBit(AndWord(x, y), AndWord(NotWord(x), z), k);
  }

  /** Maj is the majority, bit by bit. */
  lemma MajBit(x: Word, y: Word, z: Word, k: nat)
    requires k < 32
    ensures var count := (if BitOf(x, k) then 1 else 0) + (if BitOf(y, k) then 1 else 0) + (if BitOf(z, k) then 1 else 0);
            BitOf(Maj(x, y, z), k) <==> count >= 2
  {
    hide BitOf, Xor, And;
    AndBit(x, y, k);
    AndBit(x, z, k);
    AndBit(y, z, k);
    XorBit(AndWord(x, y), AndWord(x, z), k);
    XorBit(XorWord(AndWord(x, y), AndWord(x, z)), AndWord(y, z), k);
  }

  /** The padding is the shortest that fills the block with 0x80, zeros and 8 bytes more. */
  lemma PadIs(n: nat)
    requires 8 * n < 0x1_0000_0000_0000_0000
    ensures var p := Pad(n);
            && 9 <= |p| <= 72 && (n + |p|) % 64 == 0
            && p[0] == 0x80 && (forall i :: 1 <= i < |p| - 8 ==> p[i] == 0)
  {
    hide BigBytes;
    PaddingFits(n);
    var z := (55 - (n as int)) % 64;
    var u, v := BigBytes(8 * n / 0x1_0000_0000), BigBytes(8 * n % 0x1_0000_0000);
    assert Pad(n) == [0x80] + ZeroBytes(z) + u + v;
    hide Pad;
  }

  lemma PaddingFits(n: nat)
    ensures 0 <= (55 - (n as int)) % 64 < 64 && (n + 9 + (55 - (n as int)) % 64) % 64 == 0
  {
    var a := 55 - (n as int);
    QuotientIs(n + 9 + a % 64, 64, 1 - a / 64, 0);
  }

  /** Those are the length in bits, most significant first. */
  lemma PadLength(n: nat)
    requires 8 * n < 0x1_0000_0000_0000_0000
    ensures |Pad(n)| >= 9
    ensures var l := Pad(n)[|Pad(n)| - 8..];
            0x1_0000_0000 * (0x100_0000 * (l[0] as int) + 0x1_0000 * (l[1] as int) + 0x100 * (l[2] as int) + l[3])
            + 0x100_0000 * (l[4] as int) + 0x1_0000 * (l[5] as int) + 0x100 * (l[6] as int) + l[7] == 8 * n
  {
    BytesValue(8 * n / 0x1_0000_0000);
    BytesValue(8 * n % 0x1_0000_0000);
    hide BigBytes, ZeroBytes;
  }

  lemma BytesValue(w: Word)
    ensures var b := BigBytes(w);
            0x100_0000 * (b[0] as int) + 0x1_0000 * (b[1] as int) + 0x100 * (b[2] as int) + b[3] == w
  {
    WordParts(w);
  }

  /** Whole blocks may be compressed as they come. */
  lemma {:induction false} BlocksAppend(h: Chain, p: seq<Byte>, q: seq<Byte>)
    requires |p| % 64 == 0
    ensures Blocks(h, p + q) == Blocks(Blocks(h, p), q)
    decreases |p|
  {
    hide Compress;
    if |p| == 0 {
      assert p + q == q;
    } else {
      assert (p + q)[..64] == p[..64] && (p + q)[64..] == p[64..] + q;
      BlocksAppend(Compress(h, p[..64]), p[64..], q);
    }
  }

  lemma BlocksOne(h: Chain, p: seq<Byte>, m: Block)
    requires |p| % 64 == 0
    ensures Blocks(h, p + m) == Compress(Blocks(h, p), m)
  {
    hide Compress;
    BlocksAppend(h, p, m);
    assert m[..64] == m && m[64..] == [];
  }
}
