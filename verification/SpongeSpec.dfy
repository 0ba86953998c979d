/** The sponge construction of section 4 of FIPS 202 with the padding pad10*1 of section 5.1. */
module SpongeSpec {
  import opened Arith
  import opened KeccakSpec

  function Zeros(n: nat): (s: seq<bool>)
    ensures |s| == n
  {
    seq(n, _ => false)
  }

  /** The state XOR a block followed by zeros. */
  function XorBlock(s: State, b: seq<bool>): State
    requires |b| <= 1600
  {
    seq(1600, k requires 0 <= k < 1600 => if k < |b| then s[k] != b[k] else s[k])
  }

  /** The state after absorbing the whole blocks of p. */
  function AbsorbBlocks(s: State, p: seq<bool>, r: nat): State
    requires 0 < r < 1600
    decreases |p|
  {
    if |p| < r then s else AbsorbBlocks(KeccakF(XorBlock(s, p[..r])), p[r..], r)
  }

  /** pad10*1 for a string of m bits. */
  function Pad(r: nat, m: nat): seq<bool>
    requires r > 0
  {
    [true] + Zeros((-(m as int) - 2) % r) + [true]
  }

  /** The first d bits squeezed out of a state. */
  function Stream(s: State, r: nat, d: nat): (t: seq<bool>)
    requires 0 < r < 1600
    ensures |t| == d
    decreases d
  {
    if d <= r then s[..d] else s[..r] + Stream(KeccakF(s), r, d - r)
  }

  /** The state from which the output for message m is squeezed. */
  function Absorbed(m: seq<bool>, r: nat): State
    requires 0 < r < 1600
  {
    AbsorbBlocks(Zeros(1600), m + Pad(r, |m|), r)
  }

  /** SPONGE[Keccak-f, pad10*1, r](m, d), which is KECCAK[1600 - r](m, d). */
  function Sponge(m: seq<bool>, r: nat, d: nat): seq<bool>
    requires 0 < r < 1600
  {
    Stream(Absorbed(m, r), r, d)
  }

  /** Absorbing whole blocks may be interrupted. */
  lemma {:induction false} AbsorbAppend(s: State, p: seq<bool>, q: seq<bool>, r: nat)
    requires 0 < r < 1600 && |p| % r == 0
    ensures AbsorbBlocks(s, p + q, r) == AbsorbBlocks(AbsorbBlocks(s, p, r), q, r)
    decreases |p|
  {
    hide KeccakF, XorBlock;
    if |p| < r {
      QuotientIs(|p|, r, 0, |p|);
      assert p + q == q;
    } else {
      assert (p + q)[..r] == p[..r] && (p + q)[r..] == p[r..] + q;
      FewerBlocks(|p|, r);
      AbsorbAppend(KeccakF(XorBlock(s, p[..r])), p[r..], q, r);
    }
  }

  lemma FewerBlocks(n: nat, r: nat)
    requires 0 < r <= n && n % r == 0
    ensures (n - r) % r == 0
  {
    QuotientIs(n - r, r, n / r - 1, 0);
  }

  lemma MoreBlocks(n: nat, r: nat)
    requires 0 < r && n % r == 0
    ensures (n + r) % r == 0
  {
    QuotientIs(n + r, r, n / r + 1, 0);
  }

  /** One more block. */
  lemma AbsorbOne(s: State, p: seq<bool>, b: seq<bool>, r: nat)
    requires 0 < r < 1600 && |p| % r == 0 && |b| == r
    ensures AbsorbBlocks(s, p + b, r) == KeccakF(XorBlock(AbsorbBlocks(s, p, r), b)) && |p + b| % r == 0
  {
    hide KeccakF, XorBlock;
    AbsorbAppend(s, p, b, r);
    MoreBlocks(|p|, r);
    assert b[..r] == b && b[r..] == [];
  }

  /** The padding completes the last block. */
  lemma PadLength(r: nat, d: nat, q: nat)
    requires r > 1 && d % r == 0 && q < r
    ensures (-((d + q) as int) - 2) % r == if q + 2 <= r then r - q - 2 else r - 1
  {
    var k := d / r;
    assert d == k * r;
    assert (-k - 1) * r == -(k * r) - r && (-k - 2) * r == -(k * r) - 2 * r;
    if q + 2 <= r {
      QuotientIs(-((d + q) as int) - 2, r, -k - 1, r - q - 2);
    } else {
      QuotientIs(-((d + q) as int) - 2, r, -k - 2, r - 1);
    }
  }

  /** The state after n more permutations. */
  function Iterate(s: State, n: nat): State {
    if n == 0 then s else KeccakF(Iterate(s, n - 1))
  }

  lemma {:induction false} IterateShift(s: State, n: nat)
    ensures Iterate(KeccakF(s), n) == Iterate(s, n + 1)
  {
    hide KeccakF;
    if n > 0 {
      IterateShift(s, n - 1);
    }
  }

  /** Bit k of the stream is bit k mod r of the k / r-th squeezed state. */
  lemma {:induction false} StreamBit(s: State, r: nat, d: nat, k: nat)
    requires 0 < r < 1600 && k < d
    ensures 0 <= k / r && 0 <= k % r < r && Stream(s, r, d)[k] == Iterate(s, k / r)[k % r]
    decreases d
  {
    hide KeccakF;
    QuotientNonnegative(k, r);
    if k < r {
      QuotientIs(k, r, 0, k);
    } else {
      QuotientIs(k, r, (k - r) / r + 1, (k - r) % r);
      QuotientNonnegative(k - r, r);
      StreamBit(KeccakF(s), r, d - r, k - r);
      IterateShift(s, (k - r) / r);
    }
  }

  /** A longer output extends a shorter one. */
  lemma StreamPrefix(s: State, r: nat, d: nat, e: nat)
    requires 0 < r < 1600 && d <= e
    ensures Stream(s, r, e)[..d] == Stream(s, r, d)
  {
    hide Stream, Iterate;
    forall k | 0 <= k < d ensures Stream(s, r, e)[k] == Stream(s, r, d)[k] {
      StreamBit(s, r, e, k);
      StreamBit(s, r, d, k);
    }
  }

  /** The states s between the blocks and x before their permutations. */
  ghost predicate IsRun(s: seq<State>, x: seq<State>, p: seq<bool>, r: nat)
    requires 0 < r < 1600
  {
    && |s| == |x| + 1 && r * |x| <= |p| < r * |x| + r
    && forall i :: 0 <= i < |x| ==> s[i + 1] == KeccakF(x[i]) && Absorbs(x[i], s[i], p, r * i, r)
  }

  /** x is s with the r bits of p from o on added. */
  ghost predicate Absorbs(x: State, s: State, p: seq<bool>, o: int, r: nat)
    requires r < 1600
  {
    0 <= o <= |p| - r && forall k :: 0 <= k < 1600 ==> x[k] == (s[k] != (k < r && p[o + k]))
  }

  lemma {:induction false} AbsorbRun(s: State, p: seq<bool>, r: nat) returns (t: seq<State>, x: seq<State>)
    requires 0 < r < 1600
    ensures IsRun(t, x, p, r) && t[0] == s && t[|x|] == AbsorbBlocks(s, p, r)
    decreases |p|
  {
    hide KeccakF, Absorbs;
    if |p| < r {
      t, x := [s], [];
    } else {
      var y := XorBlock(s, p[..r]);
      var t', x' := AbsorbRun(KeccakF(y), p[r..], r);
      t, x := [s] + t', [y] + x';
      FirstAbsorbs(s, p, r);
      Distribute(1, |x'|, r);
      forall i | 0 <= i < |x| ensures t[i + 1] == KeccakF(x[i]) && Absorbs(x[i], t[i], p, r * i, r) {
        if i > 0 {
          assert Absorbs(x'[i - 1], t'[i - 1], p[r..], r * (i - 1), r);
          Distribute(i - 1, 1, r);
          AbsorbsLater(x'[i - 1], t'[i - 1], p, r * (i - 1), r);
        }
      }
    }
  }

  lemma FirstAbsorbs(s: State, p: seq<bool>, r: nat)
    requires r < 1600 && r <= |p|
    ensures Absorbs(XorBlock(s, p[..r]), s, p, 0, r)
  {}

  lemma AbsorbsLater(x: State, s: State, p: seq<bool>, o: int, r: nat)
    requires r < 1600 && r <= |p| && Absorbs(x, s, p[r..], o, r)
    ensures Absorbs(x, s, p, o + r, r)
  {}

  lemma ShortestPad(r: nat, m: nat)
    requires r > 0
    ensures var p := Pad(r, m);
            && 2 <= |p| <= r + 1 && (m + |p|) % r == 0
            && p[0] && p[|p| - 1] && forall i :: 0 < i < |p| - 1 ==> !p[i]
  {
    var a := -(m as int) - 2;
    var q, e := a / r, a % r;
    assert a == q * r + e;
    assert m + |Pad(r, m)| == -q * r;
    QuotientIs(m + |Pad(r, m)|, r, -q, 0);
  }

  /** The sponge, block by block: p is the message with a 1, the fewest zeros and a 1; s are the states before and after
      its blocks, x those after adding a block; u are the states squeezed, and bit k of the output is bit k mod r of the
      k / r-th of them. */
  lemma SpongeIs(m: seq<bool>, r: nat, d: nat)
    returns (p: seq<bool>, s: seq<State>, x: seq<State>, u: seq<State>)
    requires 0 < r < 1600
    ensures |m| + 2 <= |p| <= |m| + r + 1 && |p| == r * |x| && |s| == |x| + 1 && |u| == d + 1
    ensures p[..|m|] == m && p[|m|] && p[|p| - 1] && forall i :: |m| < i < |p| - 1 ==> !p[i]
    ensures forall k :: 0 <= k < 1600 ==> !s[0][k]
    ensures forall i :: 0 <= i < |x| ==> Absorbs(x[i], s[i], p, r * i, r) && s[i + 1] == KeccakF(x[i])
    ensures u[0] == s[|x|] && forall i :: 0 <= i < d ==> u[i + 1] == KeccakF(u[i])
    ensures |Sponge(m, r, d)| == d
    ensures forall k :: 0 <= k < d ==> 0 <= k / r < |u| && 0 <= k % r < r && Sponge(m, r, d)[k] == u[k / r][k % r]
  {
    hide *;
    p, s, x := AbsorbedRun(m, r);
    u := SqueezedRun(m, r, d, s[|x|]);
  }

  lemma AbsorbedRun(m: seq<bool>, r: nat) returns (p: seq<bool>, s: seq<State>, x: seq<State>)
    requires 0 < r < 1600
    ensures |m| + 2 <= |p| <= |m| + r + 1 && |p| == r * |x| && |s| == |x| + 1 && s[|x|] == Absorbed(m, r)
    ensures p[..|m|] == m && p[|m|] && p[|p| - 1] && forall i :: |m| < i < |p| - 1 ==> !p[i]
    ensures forall k :: 0 <= k < 1600 ==> !s[0][k]
    ensures forall i :: 0 <= i < |x| ==> Absorbs(x[i], s[i], p, r * i, r) && s[i + 1] == KeccakF(x[i])
  {
    p := m + Pad(r, |m|);
    ShortestPad(r, |m|);
    hide KeccakF, Pad, AbsorbBlocks, Absorbs;
    s, x := AbsorbRun(Zeros(1600), p, r);
    WholeBlocks(|p|, r, |x|);
  }

  lemma SqueezedRun(m: seq<bool>, r: nat, d: nat, t: State) returns (u: seq<State>)
    requires 0 < r < 1600 && t == Absorbed(m, r)
    ensures |u| == d + 1 && u[0] == t && forall i :: 0 <= i < d ==> u[i + 1] == KeccakF(u[i])
    ensures |Sponge(m, r, d)| == d
    ensures forall k :: 0 <= k < d ==> 0 <= k / r < |u| && 0 <= k % r < r && Sponge(m, r, d)[k] == u[k / r][k % r]
  {
    hide KeccakF, Stream, Absorbed;
    u := seq(d + 1, i requires 0 <= i < d + 1 => Iterate(t, i));
    forall k | 0 <= k < d
      ensures 0 <= k / r < |u| && 0 <= k % r < r && Sponge(m, r, d)[k] == u[k / r][k % r]
    {
      StreamBit(t, r, d, k);
      QuotientAtMost(k, r);
    }
  }

  lemma WholeBlocks(n: nat, r: nat, q: nat)
    requires r > 0 && n % r == 0 && r * q <= n < r * q + r
    ensures n == r * q
  {
    QuotientIs(n, r, q, n - r * q);
  }

  lemma QuotientAtMost(k: nat, r: nat)
    requires r > 0
    ensures k / r <= k
  {
    QuotientNonnegative(k, r);
    MulLe(1, r, k / r);
  }
}
