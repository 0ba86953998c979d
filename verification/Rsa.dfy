/** RSA on the numbers of crypt_bignum.cpp: encryption, and decryption by the three branches of rsa_dec. */
module Rsa {
  import opened Arith
  import opened Modular
  import opened Digits
  import opened Field
  import opened Fermat
  import opened Bignum
  import opened BignumMul
  import opened BignumMod
  import opened BignumExp

  /** Congruence modulo two different primes is congruence modulo their product. */
  lemma CongProduct(a: int, b: int, p: nat, q: nat)
    requires Prime(p) && Prime(q) && p != q && Cong(a, b, p) && Cong(a, b, q)
    ensures Cong(a, b, p * q)
  {
    hide Cong;
    var k := CongWitness(a, b, p);
    var l := CongWitness(a, b, q);
    var m := if k >= 0 then k else -k;
    SignedProduct(k, p, l, q);
    DividesMultiple(if k >= 0 then l else -l, q);
    PrimeProduct(q, p, m);
    PrimesDiffer(p, q);
    var j := DivisionOf(m, q);
    Associate(p, j, q);
    CongFrom(a, b, if k >= 0 then j else -j, p * q);
  }

  lemma SignedProduct(k: int, p: nat, l: int, q: nat)
    requires k * p == l * q
    ensures p * (if k >= 0 then k else -k) == (if k >= 0 then l else -l) * q
  {
    assert -k * p == -(k * p) && -l * q == -(l * q);
  }

  lemma PrimesDiffer(p: nat, q: nat)
    requires Prime(p) && Prime(q) && p != q
    ensures !Divides(q, p)
  {}

  /** Exponents that agree modulo p - 1 and q - 1 give the same power modulo p q, whatever the base. */
  lemma SamePower(c: nat, d: nat, e: nat, p: nat, q: nat)
    requires Prime(p) && Prime(q) && p != q && d > 0 && e > 0 && Cong(d, e, p - 1) && Cong(d, e, q - 1)
    ensures p * q > 0 && Exp(c, d) % (p * q) == Exp(c, e) % (p * q)
  {
    hide Cong, Exp;
    ExponentCong(c, d, e, p);
    ExponentCong(c, d, e, q);
    CongProduct(Exp(c, d), Exp(c, e), p, q);
    CongIffMod(Exp(c, d), Exp(c, e), p * q);
  }

  /** What blinding with r adds to the private exponent; u and v are meant to be p - 1 and q - 1. */
  function Masking(u: nat, v: nat, r: nat): (m: nat) {
    MulLe(0, u, v);
    MulLe(0, u * v, r);
    u * v * r
  }

  /** Blinding: multiples of (p - 1)(q - 1) added to the exponent do not change the result. */
  lemma Blinding(c: nat, d: nat, r: nat, p: nat, q: nat)
    requires Prime(p) && Prime(q) && p != q && d > 0
    ensures p * q > 0 && Exp(c, d + Masking(p - 1, q - 1, r)) % (p * q) == Exp(c, d) % (p * q)
  {
    hide Cong, Exp, Divides, Masking;
    var e := d + Masking(p - 1, q - 1, r);
    MaskingIs(p - 1, q - 1, r);
    CongFrom(e, d, (q - 1) * r, p - 1);
    CongFrom(e, d, (p - 1) * r, q - 1);
    SamePower(c, e, d, p, q);
  }

  /** The masking is a multiple of either factor. */
  lemma MaskingIs(u: nat, v: nat, r: nat)
    ensures Masking(u, v, r) == u * v * r == v * r * u == u * r * v
  {
    Associate(u, v, r);
    Associate(u, r, v);
  }

  /** Decryption undoes encryption, for every message below the modulus. */
  lemma RoundTrip(m: nat, e: nat, d: nat, p: nat, q: nat)
    requires Prime(p) && Prime(q) && p != q && e > 0 && d > 0 && m < p * q
    requires Cong(e * d, 1, p - 1) && Cong(e * d, 1, q - 1)
    ensures Exp(m, e) >= 0 && p * q > 0 && Exp(Exp(m, e) % (p * q), d) % (p * q) == m
  {
    hide Cong, Exp;
    ExpNonnegative(m, e);
    MulLe(1, e, d);
    SamePower(m, e * d, 1, p, q);
    ExpOne(m);
    ExpTimes(m, e, d);
    var n := p * q;
    CongMod(Exp(m, e), n);
    ExpCong(Exp(m, e) % n, Exp(m, e), d, n);
    CongIffMod(Exp(Exp(m, e) % n, d), Exp(Exp(m, e), d), n);
    QuotientIs(m, n, 0, m);
  }

  lemma {:induction false} ExpTimes(b: int, d: nat, e: nat)
    ensures d * e >= 0 && Exp(b, d * e) == Exp(Exp(b, d), e)
  {
    hide Exp;
    MulLe(0, d, e);
    if e == 0 {
      ExpZero(b);
      ExpZero(Exp(b, d));
    } else {
      ExpTimes(b, d, e - 1);
      Distribute(e - 1, 1, d);
      ExpAdd(b, d, d * (e - 1));
      ExpStep(Exp(b, d), e);
    }
  }

  lemma ExpZero(b: int)
    ensures Exp(b, 0) == 1
  {}

  /** Garner's recombination. */
  function Garner(m1: nat, m2: nat, p: nat, q: nat, qp: nat): int
    requires p > 0
  {
    (m1 - m2) % p * qp % p * q + m2
  }

  ghost function Scaled(h: nat, k: nat, p: nat): nat { Remainder(h * k, p) }

  lemma GarnerSteps(m1: nat, m2: nat, p: nat, q: nat, qp: nat)
    requires 0 < p
    ensures Garner(m1, m2, p, q, qp) == Scaled(Remainder(m1 - m2, p), qp, p) * q + m2
  {}

  lemma GarnerIs(m1: nat, m2: nat, p: nat, q: nat, qp: nat)
    requires 0 < p && m1 < p && m2 < q && Cong(qp * q, 1, p)
    ensures 0 <= Garner(m1, m2, p, q, qp) < p * q
    ensures Cong(Garner(m1, m2, p, q, qp), m1, p) && Cong(Garner(m1, m2, p, q, qp), m2, q)
  {
    hide Cong;
    var t := (m1 - m2) % p;
    var h := t * qp % p;
    MulLe(0, h, q);
    MulLe(h + 1, p, q);
    Distribute(h, 1, q);
    CongFrom(h * q + m2, m2, h, q);
    CongMod(m1 - m2, p);
    CongMod(t * qp, p);
    CongRefl(q, p);
    CongRefl(m2, p);
    CongMul(h, t * qp, q, q, p);
    CongMul(t, m1 - m2, qp * q, 1, p);
    assert t * qp * q == t * (qp * q);
    CongTrans(h * q, t * qp * q, m1 - m2, p);
    CongAdd(h * q, m1 - m2, m2, m2, p);
  }

  /** The recombined number is the only one below p q with both remainders. */
  lemma GarnerUnique(x: nat, m1: nat, m2: nat, p: nat, q: nat, qp: nat)
    requires Prime(p) && Prime(q) && p != q && m1 < p && m2 < q && Cong(qp * q, 1, p)
    requires x < p * q && Cong(x, m1, p) && Cong(x, m2, q)
    ensures x == Garner(m1, m2, p, q, qp)
  {
    hide Cong, Garner;
    var m := Garner(m1, m2, p, q, qp);
    GarnerIs(m1, m2, p, q, qp);
    CongSym(m, m1, p);
    CongSym(m, m2, q);
    CongTrans(x, m1, m, p);
    CongTrans(x, m2, m, q);
    CongProduct(x, m, p, q);
    CongUnique(x, m, p * q);
  }

  /** One prime's share of a decryption. */
  function Share(c: nat, dp: nat, p: nat): (s: nat)
    requires p > 0
    ensures s < p
  {
    ExpNonnegative(c % p, Exponent(dp));
    Exp(c % p, Exponent(dp)) % p
  }

  /** A share is right exactly if its exponent is positive or the base is 0 or 1 modulo the prime. */
  lemma ShareIff(c: nat, d: nat, dp: nat, p: nat)
    requires Prime(p) && d > 0 && Cong(dp, d, p - 1)
    ensures Cong(Exp(c, d), Share(c, dp, p), p) <==> dp > 0 || c % p <= 1
  {
    hide Cong, Exp, Divides, Prime, Share;
    PrimeBound(p);
    var x, s := c % p, Share(c, dp, p);
    CongMod(c, p);
    CongSym(c, x, p);
    ExpCong(x, c, d, p);
    CongIffMod(Exp(x, d), Exp(c, d), p);
    CongIffMod(Exp(c, d), s, p);
    QuotientIs(s, p, 0, s);
    ShareIs(c, dp, p);
    if dp > 0 {
      ExponentCong(x, dp, d, p);
      CongIffMod(Exp(x, dp), Exp(x, d), p);
    } else {
      ExpOne(x);
      QuotientIs(x, p, 0, x);
      if x == 0 {
        ExpStep(0, d);
      } else {
        ZeroShare(x, d, p);
      }
    }
  }

  lemma ShareIs(c: nat, dp: nat, p: nat)
    requires p > 0
    ensures Share(c, dp, p) == Exp(c % p, Exponent(dp)) % p && Exponent(dp) == if dp == 0 then 1 else dp
  {
    hide Exp;
  }

  /** A multiple of p - 1 as the exponent gives 1, where an exponent of 0 counts as 1. */
  lemma ZeroShare(x: nat, d: nat, p: nat)
    requires Prime(p) && 0 < x < p && d > 0 && Cong(0, d, p - 1)
    ensures Exp(x, d) % p == 1
  {
    hide Cong, Exp, Divides, Prime;
    PrimeBound(p);
    CongFrom(p - 1, 0, 1, p - 1);
    CongTrans(p - 1, 0, d, p - 1);
    ExponentCong(x, p - 1, d, p);
    CongSym(Exp(x, p - 1), Exp(x, d), p);
    UnitPower(x, p);
    CongTrans(Exp(x, d), Exp(x, p - 1), 1, p);
    CongIffMod(Exp(x, d), 1, p);
    QuotientIs(1, p, 0, 1);
  }

  lemma RemainderCong(x: int, p: nat, n: nat)
    requires p > 0 && n > 0 && Divides(p, n)
    ensures Cong(x % n, x, p)
  {
    hide Cong;
    var k := DivisionOf(n, p);
    var q := x / n;
    assert x == q * n + x % n;
    Associate(q, k, p);
    assert (-(q * k)) * p == -(q * (k * p));
    CongFrom(x % n, x, -(q * k), p);
  }

  /** The CRT branch computes c^d mod p q exactly if neither share fails: an exponent of 0 counts as 1, which is right
      only for a base that is 0 or 1 modulo the prime. */
  lemma CrtIff(c: nat, d: nat, p: nat, q: nat, dp: nat, dq: nat, qp: nat)
    requires Prime(p) && Prime(q) && p != q && d > 0
    requires Cong(dp, d, p - 1) && Cong(dq, d, q - 1) && Cong(qp * q, 1, p)
    ensures p * q > 0
    ensures Garner(Share(c, dp, p), Share(c, dq, q), p, q, qp) == Exp(c, d) % (p * q)
            <==> (dp > 0 || c % p <= 1) && (dq > 0 || c % q <= 1)
  {
    hide Cong, Exp, Garner, Divides, Prime, Share;
    PrimeBound(p);
    PrimeBound(q);
    MulLe(1, p, q);
    DividesMultiple(p, q);
    DividesMultiple(q, p);
    assert q * p == p * q;
    var x, s, t := Exp(c, d), Share(c, dp, p), Share(c, dq, q);
    ShareIff(c, d, dp, p);
    ShareIff(c, d, dq, q);
    GarnerIs(s, t, p, q, qp);
    SameRemainder(x, s, p, p * q);
    SameRemainder(x, t, q, p * q);
    if Cong(x, s, p) && Cong(x, t, q) {
      ExpNonnegative(c, d);
      GarnerUnique(x % (p * q), s, t, p, q, qp);
    }
  }

  lemma SameRemainder(x: int, s: nat, p: nat, n: nat)
    requires p > 0 && n > 0 && Divides(p, n)
    ensures Cong(x % n, s, p) <==> Cong(x, s, p)
  {
    hide Cong, Divides;
    RemainderCong(x, p, n);
    CongIffMod(x % n, x, p);
    CongIffMod(x % n, s, p);
    CongIffMod(x, s, p);
  }

  /** rsa_t. */
  class RsaKey {
    const e: array<Byte>
    const n: array<Byte>
    const p: array<Byte>
    const q: array<Byte>
    const d: array<Byte>
    const dp: array<Byte>
    const dq: array<Byte>
    const qp: array<Byte>
    const le: nat
    const len: nat
    const lr: nat

    constructor (e: array<Byte>, n: array<Byte>, p: array<Byte>, q: array<Byte>, d: array<Byte>, dp: array<Byte>,
        dq: array<Byte>, qp: array<Byte>, le: nat, len: nat, lr: nat)
      ensures this.e == e && this.n == n && this.p == p && this.q == q && this.d == d && this.dp == dp && this.dq == dq
              && this.qp == qp
      ensures this.le == le && this.len == len && this.lr == lr
    {
      this.e, this.n, this.p, this.q, this.d, this.dp, this.dq, this.qp := e, n, p, q, d, dp, dq, qp;
      this.le, this.len, this.lr := le, len, lr;
    }

    /** Room for the public key, as a verifier fills it. */
    ghost predicate Public() {
      Span(le) <= e.Length && len <= n.Length
    }

    /** Room for a modulus and its two primes, of half the key length each. */
    ghost predicate Primes() {
      len >= 2 && len <= n.Length && len / 2 <= p.Length && len / 2 <= q.Length
    }

    /** Room for the private exponent; blinding needs as much again as the random number. */
    ghost predicate Private() {
      Primes() && len + lr <= d.Length && d != n && d != p && d != q
    }

    /** Room for the parts of the private exponent. */
    ghost predicate Parts() {
      Primes() && len / 2 <= dp.Length && len / 2 <= dq.Length && len / 2 <= qp.Length
    }

    /** None of the key's arrays. */
    ghost predicate Apart(a: array<Byte>) {
      a !in {e, n, p, q, d, dp, dq, qp}
    }

    /** The numbers of the key, for moduli of half the key length. */
    ghost function P(): nat
      requires Primes()
      reads p
    {
      Val(p, len / 2)
    }

    ghost function Q(): nat
      requires Primes()
      reads q
    {
      Val(q, len / 2)
    }

    /** p and q are different primes and n is their product. */
    ghost predicate Moduli()
      requires Primes()
      reads n, p, q
    {
      Prime(P()) && Prime(Q()) && P() != Q() && Val(n, len) == P() * Q()
    }

    /** dp, dq and qp belong to the private exponent x. */
    ghost predicate CrtParts(x: nat)
      requires Parts()
      reads p, q, dp, dq, qp
    {
      && P() > 1 && Q() > 1
      && Cong(Val(dp, len / 2), x, P() - 1) && Cong(Val(dq, len / 2), x, Q() - 1) && Cong(Val(qp, len / 2) * Q(), 1, P())
    }

    /** C = M^e mod n, for which e and n are enough. */
    method Encrypt(result: array<Byte>, content: array<Byte>, length: nat) returns (r: nat)
      requires Public() && result !in {content, e, n} && Span(length) <= content.Length && Span(len) <= result.Length && len > 0
      requires Val(n, len) > 0 && Val(e, le) > 0
      modifies result
      ensures 1 <= r <= len && Val(result, r) == Exp(Val(content, length), Val(e, le)) % Val(n, len)
    {
      hide Num, Pow, Exp;
      r := ModExp(result, content, e, n, length, le, len);
    }

    /** p - 1 in a fresh buffer of half the key length.  Only as many digits are written as p has, so the number in the
        whole buffer is p - 1 and whatever was above it. */
    method LessOne(p: array<Byte>, half: nat) returns (m: array<Byte>)
      requires 1 <= half <= p.Length && Num(p[0..half]) > 0
      ensures fresh(m) && m.Length == half && OneLess(Num(m[0..half]), p[0..half])
    {
      hide Num, Pow, TrimLen, Trimmed;
      m := new Byte[half];
      ghost var s := p[0..half];
      var length, borrow := SubByte(m, p, 1, half);
      assert p[0..half] == s && m[0..half][..TrimLen(s)] == m[0..TrimLen(s)];
      LowDigits(m[0..half], TrimLen(s));
      NumBound(m[0..half]);
    }

    /** (p - 1)(q - 1) rand in a fresh buffer; u and v are what it takes for p - 1 and q - 1. */
    method Mask(rand: array<Byte>) returns (temp: array<Byte>, length: nat, ghost u: nat, ghost v: nat)
      requires Primes() && 1 <= lr <= rand.Length && P() > 0 && Q() > 0
      ensures fresh(temp) && 1 <= length <= temp.Length && Factors(u, v)
      ensures Num(temp[0..length]) == Masking(u, v, Val(rand, lr))
    {
      hide Num, Pow, TrimLen, Trimmed, Masking, OneLess;
      var half := len / 2;
      temp := new Byte[half + half + lr];
      var m1 := LessOne(p, half);
      var m2 := LessOne(q, half);
      u, v := Num(m1[0..half]), Num(m2[0..half]);
      MaskingIs(u, v, Val(rand, lr));
      length := Product(temp, m1, m2, rand, half);
    }

    /** u and v are p - 1 and q - 1, up to unwritten digits. */
    ghost predicate Factors(u: nat, v: nat)
      requires Primes() && P() > 0 && Q() > 0
      reads p, q
    {
      OneLess(u, p[0..len / 2]) && OneLess(v, q[0..len / 2])
    }

    lemma FactorsFull(u: nat, v: nat)
      requires Primes() && P() > 0 && Q() > 0 && Factors(u, v) && FullPrimes()
      ensures u == P() - 1 && v == Q() - 1
    {
      hide TrimLen, OneLess;
      OneLessFull(u, p[0..len / 2]);
      OneLessFull(v, q[0..len / 2]);
    }

    /** The two products of the mask. */
    method Product(temp: array<Byte>, m1: array<Byte>, m2: array<Byte>, rand: array<Byte>, half: nat) returns (length: nat)
      requires half > 0 && half <= m1.Length && half <= m2.Length && 1 <= lr <= rand.Length && half + half + lr <= temp.Length
      requires temp != rand
      modifies temp
      ensures 1 <= length <= temp.Length
      ensures Num(temp[0..length]) == old(Num(m1[0..half])) * old(Num(m2[0..half])) * Val(rand, lr)
    {
      hide Num, Pow, TrimLen, Trimmed;
      length := Mul(temp, m1, m2, half, half);
      length := Mul(temp, temp, rand, length, lr);
    }

    /** The primes fill half the key length. */
    ghost predicate FullPrimes()
      requires Primes()
      reads p, q
    {
      TrimLen(p[0..len / 2]) == len / 2 && TrimLen(q[0..len / 2]) == len / 2
    }

    /** Adds a multiple of (p - 1)(q - 1) to the private exponent, in place; the first len bytes, all that a later call
        reads, are the new exponent exactly if it is below 256^len. */
    method Blind(rand: array<Byte>) returns (lenD: nat, ghost u: nat, ghost v: nat)
      requires Private() && 1 <= lr <= rand.Length && rand != d && P() > 0 && Q() > 0
      modifies d
      ensures 1 <= lenD <= d.Length && Factors(u, v)
      ensures Val(d, lenD) == old(Val(d, len)) + Masking(u, v, Val(rand, lr))
    {
      hide Num, Pow, TrimLen, Trimmed, Masking;
      NumBound(rand[0..lr]);
      NumBound(d[0..len]);
      var temp, length;
      temp, length, u, v := Mask(rand);
      BlindedFits(u, v, Val(rand, lr), Val(d, len), len / 2, len, lr, d.Length);
      lenD := Add(d, d, temp, len, length);
    }

    /** The branch with config = 0: the exponent is blinded first if random bytes are used. */
    method DecryptStandard(result: array<Byte>, content: array<Byte>, length: nat, rand: array<Byte>)
        returns (r: nat, ghost used: nat, ghost u: nat, ghost v: nat)
      requires Private() && result !in {content, n, p, q, d, rand} && content != d && rand != d
      requires Span(length) <= content.Length && len <= result.Length && lr <= rand.Length
      requires Moduli() && Val(d, len) > 0
      modifies result, d
      ensures 1 <= r <= len && 1 <= used <= d.Length && P() > 0 && Q() > 0 && (lr > 0 ==> Factors(u, v))
      ensures Val(d, used) == old(Val(d, len)) + if lr == 0 then 0 else Masking(u, v, Val(rand, lr))
      ensures Val(n, len) > 0 && Val(result, r) == Exp(Val(content, length), Val(d, used)) % Val(n, len)
      ensures lr == 0 || FullPrimes() ==> Val(result, r) == Exp(Val(content, length), old(Val(d, len))) % Val(n, len)
    {
      hide Num, Pow, TrimLen, Trimmed, Exp, Prime, Masking, Val, Factors;
      ghost var x := Val(d, len);
      PrimeBound(P());
      PrimeBound(Q());
      MulLe(1, P(), Q());
      var lenD := len;
      u, v := 0, 0;
      if lr > 0 {
        lenD, u, v := Blind(rand);
        if FullPrimes() {
          FactorsFull(u, v);
          Blinding(Val(content, length), x, Val(rand, lr), P(), Q());
        }
      }
      used := lenD;
      r := ModExp(result, content, d, n, length, lenD, len);
    }

    /** One share in a fresh buffer. */
    method ComputeShare(content: array<Byte>, x: array<Byte>, m: array<Byte>, length: nat) returns (s: array<Byte>, r: nat)
      requires len >= 2 && Span(length) <= content.Length && len / 2 <= x.Length && len / 2 <= m.Length
      requires Val(m, len / 2) > 0
      ensures fresh(s) && s.Length == length + len / 2 && 1 <= r <= len / 2
      ensures Num(s[0..r]) == Share(Val(content, length), Val(x, len / 2), Val(m, len / 2))
    {
      hide Num, Pow, TrimLen, Trimmed, Exp, Exponent;
      var half := len / 2;
      var temp := new Byte[half];
      s := new Byte[length + half];
      var l := Mod(temp, content, m, length, half);
      r := ModExp(s, temp, x, m, l, half, half);
    }

    /** (m1 - m2) qp mod p. */
    method Coefficient(result: array<Byte>, m1: array<Byte>, m2: array<Byte>, l1: nat, l2: nat) returns (r: nat)
      requires Parts() && result !in {p, qp} && len <= result.Length && P() > 0
      requires 1 <= l1 <= len / 2 && 1 <= l2 <= len / 2 && l1 <= m1.Length && l2 <= m2.Length
      modifies result
      ensures 1 <= r <= len / 2
      ensures Val(result, r) == Scaled(Remainder(old(Num(m1[0..l1])) - old(Num(m2[0..l2])), P()), Val(qp, len / 2), P())
    {
      hide Num, Pow, TrimLen, Trimmed, Val, LengthOf, SharedDifference, Clobbered, Remainder, Scaled;
      ghost var half, m, k := len / 2, P(), Val(qp, len / 2);
      ValIs(m1, l1);
      ValIs(m2, l2);
      r := ModSub(result, m1, m2, p, l1, l2, len / 2);
      assert Val(p, half) == m && Val(qp, half) == k;
      r := Scale(result, r);
    }

    method Scale(result: array<Byte>, l: nat) returns (r: nat)
      requires Parts() && result !in {p, qp} && len <= result.Length && P() > 0 && 1 <= l <= len / 2
      modifies result
      ensures 1 <= r <= len / 2
      ensures Val(result, r) == Scaled(old(Val(result, l)), Val(qp, len / 2), P())
    {
      hide Num, Pow, TrimLen, Trimmed, Val, LengthOf, Clobbered, Remainder;
      r := ModMul(result, result, qp, p, l, len / 2, len / 2);
    }

    /** m2 + ((m1 - m2) qp mod p) q; there is no carry out of the key length, as the sum is below p q. */
    method Recombine(result: array<Byte>, m1: array<Byte>, m2: array<Byte>, l1: nat, l2: nat) returns (r: nat)
      requires Parts() && result !in {p, q, qp, m1, m2} && len <= result.Length && P() * Q() <= Pow(len)
      requires 1 <= l1 <= len / 2 && 1 <= l2 <= len / 2 && l1 <= m1.Length && l2 <= m2.Length
      requires 0 < P() && Num(m1[0..l1]) < P() && Num(m2[0..l2]) < Q() && Cong(Val(qp, len / 2) * Q(), 1, P())
      modifies result
      ensures 1 <= r <= len && Val(result, r) == Garner(Num(m1[0..l1]), Num(m2[0..l2]), P(), Q(), Val(qp, len / 2))
    {
      hide Num, Pow, TrimLen, Trimmed, Cong, Garner, Val, Remainder, Scaled;
      ValIs(m2, l2);
      GarnerIs(Num(m1[0..l1]), Num(m2[0..l2]), P(), Q(), Val(qp, len / 2));
      GarnerSteps(Num(m1[0..l1]), Num(m2[0..l2]), P(), Q(), Val(qp, len / 2));
      PowMonotone(len, result.Length);
      r := Coefficient(result, m1, m2, l1, l2);
      r := Mul(result, result, q, r, len / 2);
      r := Add(result, result, m2, r, l2);
      ValIs(result, r);
      TrimmedFits(result[0..r], len);
    }

    /** The branch with config = 1: the same value as the branch with config = 0, exactly if both shares are right. */
    method DecryptCrt(result: array<Byte>, content: array<Byte>, length: nat, ghost x: nat) returns (r: nat)
      requires Parts() && result !in {content, p, q, dp, dq, qp, n} && Span(length) <= content.Length && len <= result.Length
      requires Moduli() && x > 0 && CrtParts(x)
      modifies result
      ensures var c := old(Val(content, length));
              && Val(n, len) > 0 && 1 <= r <= len
              && (Val(result, r) == Exp(c, x) % Val(n, len)
                  <==> (Val(dp, len / 2) > 0 || c % P() <= 1) && (Val(dq, len / 2) > 0 || c % Q() <= 1))
    {
      hide Num, Pow, TrimLen, Trimmed, Exp, Prime, Cong, Garner, Share;
      var m1, l1 := ComputeShare(content, dp, p, length);
      var m2, l2 := ComputeShare(content, dq, q, length);
      CrtIff(Val(content, length), x, P(), Q(), Val(dp, len / 2), Val(dq, len / 2), Val(qp, len / 2));
      NumBound(n[0..len]);
      r := Recombine(result, m1, m2, l1, l2);
    }
  }

  /** What a buffer as long as s holds after s - 1 is written to it: only as many digits are written as s has. */
  ghost predicate OneLess(u: nat, s: seq<Byte>)
    requires |s| > 0
  {
    u < Pow(|s|) && u % Pow(TrimLen(s)) == Num(s) - 1
  }

  lemma OneLessFull(u: nat, s: seq<Byte>)
    requires |s| > 0 && OneLess(u, s) && TrimLen(s) == |s|
    ensures u == Num(s) - 1
  {
    hide Num, Pow, TrimLen;
    QuotientIs(u, Pow(|s|), 0, u);
  }

  /** The digits that p - 1 leaves unwritten cannot spoil it exactly if there are none: p has one digit in all, or its
      top digit is not zero. */
  lemma StaleDigits(s: seq<Byte>)
    requires |s| > 0 && Num(s) > 0
    ensures (forall u: nat :: OneLess(u, s) ==> u == Num(s) - 1) <==> |s| == 1 || s[|s| - 1] != 0
  {
    hide Num, Pow, TrimLen, OneLess;
    TrimmedExactly(s);
    var t := TrimLen(s);
    if t == |s| {
      forall u: nat | OneLess(u, s) ensures u == Num(s) - 1 {
        OneLessFull(u, s);
      }
    } else {
      SpoiledDigit(s);
      assert OneLess(Num(s) - 1 + Pow(t), s);
    }
  }

  lemma SpoiledDigit(s: seq<Byte>)
    requires |s| > 0 && Num(s) > 0 && TrimLen(s) < |s|
    ensures OneLess(Num(s) - 1 + Pow(TrimLen(s)), s)
  {
    hide Num, Pow, TrimLen;
    var t := TrimLen(s);
    TrimLenValue(s);
    NumBound(s[..t]);
    NumPowStep(t);
    PowMonotone(t + 1, |s|);
    QuotientIs(Num(s) - 1 + Pow(t), Pow(t), 1, Num(s) - 1);
  }

  lemma TrimmedExactly(s: seq<Byte>)
    requires |s| > 0
    ensures TrimLen(s) <= |s| && (TrimLen(s) == |s| <==> |s| == 1 || s[|s| - 1] != 0)
  {}

  /** The blinded exponent fits next to the random number. */
  lemma BlindedFits(u: nat, v: nat, r: nat, d: nat, half: nat, len: nat, lr: nat, room: nat)
    requires u < Pow(half) && v < Pow(half) && r < Pow(lr) && d < Pow(len) && 2 * half <= len && len + lr <= room
    ensures d + Masking(u, v, r) < Pow(room)
  {
    hide Pow, Masking;
    PowSquare(half, len);
    PowJoin(len, lr, room);
    BlindedBound(u, v, r, d, Pow(half), Pow(len), Pow(lr));
  }

  lemma PowSquare(half: nat, len: nat)
    requires 2 * half <= len
    ensures Pow(half) * Pow(half) <= Pow(len)
  {
    PowAdd(half, half);
    PowMonotone(2 * half, len);
  }

  lemma PowJoin(len: nat, lr: nat, room: nat)
    requires len + lr <= room
    ensures Pow(len) * Pow(lr) <= Pow(room)
  {
    PowAdd(len, lr);
    PowMonotone(len + lr, room);
  }

  lemma BlindedBound(u: nat, v: nat, r: nat, d: nat, h: nat, a: nat, b: nat)
    requires u < h && v < h && r < b && d < a && h * h <= a
    ensures d + Masking(u, v, r) < a * b
  {
    hide Masking;
    MaskingIs(u, v, r);
    FactorsBound(u, v, h);
    MaskBound(u * v, a, r, b, d);
  }

  lemma FactorsBound(u: nat, v: nat, h: nat)
    requires u < h && v < h
    ensures 0 <= u * v < h * h
  {
    MulLe(0, u, v);
    MulLe(u, h - 1, v);
    MulLe(v, h, h - 1);
    Distribute(h - 1, 1, h);
  }

  lemma MaskBound(f: nat, a: nat, r: nat, b: nat, d: nat)
    requires f < a && r < b && d < a
    ensures d + f * r < a * b
  {
    MulLe(f, a - 1, r);
    MulLe(r, b - 1, a - 1);
    assert (a - 1) * (b - 1) + (a - 1) == (a - 1) * b;
    MulLe(a - 1, a, b);
    assert (a - 1) * b == a * b - b;
  }

  /** What a later call reads of a stored exponent is the exponent exactly if it is below 256^len. */
  lemma StoredExponent(s: seq<Byte>, len: nat)
    requires len <= |s|
    ensures Num(s[..len]) == Num(s) % Pow(len)
    ensures Num(s[..len]) == Num(s) <==> Num(s) < Pow(len)
  {
    hide Num, Pow;
    LowDigits(s, len);
    NumBound(s[..len]);
    if Num(s) < Pow(len) {
      QuotientIs(Num(s), Pow(len), 0, Num(s));
    }
  }

  /** With p = 17, q = 19, d = 5 and the random number 255, a second call decrypts 2 to something else. */
  lemma SecondCallFails()
    ensures 5 + Masking(16, 18, 255) == 73445 && 73445 % Pow(2) == 7909
    ensures Exp(2, 7909) % (17 * 19) != Exp(2, 5) % (17 * 19)
  {
    PowTwo();
    if Exp(2, 7909) % (17 * 19) == Exp(2, 5) % (17 * 19) {
      hide Exp, Prime;
      NineteenIsPrime();
      CongIffMod(Exp(2, 7909), Exp(2, 5), 17 * 19);
      var k := CongWitness(Exp(2, 7909), Exp(2, 5), 17 * 19);
      Associate(k, 17, 19);
      CongFrom(Exp(2, 7909), Exp(2, 5), k * 17, 19);
      CongFrom(7909, 7, 439, 18);
      ExponentCong(2, 7909, 7, 19);
      CongSym(Exp(2, 7909), Exp(2, 7), 19);
      CongTrans(Exp(2, 7), Exp(2, 7909), Exp(2, 5), 19);
      CongIs(Exp(2, 7), Exp(2, 5), 19);
      SmallPowers();
    }
  }

  lemma PowTwo()
    ensures Pow(2) == 0x1_0000
  {
    PowOne();
    assert Pow(2) == 256 * Pow(1);
  }

  lemma NineteenIsPrime()
    ensures Prime(19)
  {
    forall d: nat | 0 < d && Divides(d, 19) ensures d == 1 || d == 19 {
      var k := DivisionOf(19, d);
      if 5 <= d < 19 {
        MulLe(4, k, d);
      }
    }
  }

  lemma SmallPowers()
    ensures Exp(2, 5) == 32 && Exp(2, 7) == 128
  {
    assert Exp(2, 4) == 2 * Exp(2, 3);
  }

  lemma PrimeBound(p: nat)
    requires Prime(p)
    ensures p > 1
  {}
}
