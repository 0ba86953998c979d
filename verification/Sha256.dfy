/** crypt_sha256.c: the block transformation and the buffered update of SHA-256. */
module Sha256 {
  import opened Arith
  import opened Digits
  import opened Words
  import opened Buffers
  import opened Sha256Spec
  import opened Sha256Rounds

  /** byte2word. */
  function Byte2Word(a: Byte, b: Byte, c: Byte,
      d: Byte): Word { (a as int) + 0x100 * (b as int) + 0x1_0000 * (c as int) + 0x100_0000 * (d as int) }

  /** mem_swap8 on the four bytes of a word of a little-endian machine. */
  function SwapBytes(w: Word): Word {
    var s := WordBytes(w);
    Byte2Word(s[3], s[2], s[1], s[0])
  }

  lemma Bytes2WordBytes(a: Byte, b: Byte, c: Byte, d: Byte)
    ensures WordBytes(Byte2Word(a, b, c, d)) == [a, b, c, d]
  {
    var w := Byte2Word(a, b, c, d);
    var u := (c as int) + 0x100 * (d as int);
    var v := (b as int) + 0x100 * u;
    QuotientIs(w, 0x100, v, a);
    QuotientIs(w, 0x1_0000, u, (a as int) + 0x100 * (b as int));
    QuotientIs(w, 0x100_0000, d, (a as int) + 0x100 * (b as int) + 0x1_0000 * (c as int));
    QuotientIs(v, 0x100, u, b);
    QuotientIs(u, 0x100, d, c);
  }

  lemma LoadedBig(a: Byte, b: Byte, c: Byte, d: Byte)
    ensures SwapBytes(Byte2Word(a, b, c, d)) == BigWord(a, b, c, d)
  {
    hide WordBytes;
    Bytes2WordBytes(a, b, c, d);
  }

  /** The load loop of sha256_transform. */
  method LoadBlock(block: array<Byte>, o: nat, ghost m: Block) returns (x: array<Word>)
    requires o + 64 <= block.Length && m == block[o..o + 64]
    ensures fresh(x) && x.Length == 16 && Loaded(x[..], m)
  {
    hide Byte2Word, SwapBytes, BigWord;
    x := new Word[16];
    for i := 0 to 16
      invariant forall k :: 0 <= k < i ==> x[k] == BigWord(m[4 * k], m[4 * k + 1], m[4 * k + 2], m[4 * k + 3])
    {
      var j := o + 4 * i;
      assert block[j] == m[4 * i] && block[j + 1] == m[4 * i + 1] && block[j + 2] == m[4 * i + 2] && block[j + 3] == m[4 * i + 3];
      LoadedBig(block[j], block[j + 1], block[j + 2], block[j + 3]);
      x[i] := SwapBytes(Byte2Word(block[j], block[j + 1], block[j + 2], block[j + 3]));
    }
    forall k | 0 <= k < 16 ensures x[..][k] == Schedule(m, k) {
      FirstWords(m, k);
    }
  }

  lemma FirstWords(m: Block, t: nat)
    requires t < 16
    ensures Schedule(m, t) == BigWord(m[4 * t], m[4 * t + 1], m[4 * t + 2], m[4 * t + 3])
  {}

  /** All 64 rounds. */
  method AllRounds(value: array<Word>, x: array<Word>, ghost m: Block)
    requires value.Length == 8 && x.Length == 16 && value != x && Loaded(x[..], m)
    modifies value, x
    ensures Start(value[..]) == Rounds(old(Start(value[..])), m, |K|)
  {
    hide Schedule, Step, Constant, Window, Loaded, RegistersOf;
    ghost var r := Start(value[..]);
    StartIs(value[..], 0);
    RoundsStart(r, m);
    EightRounds(value, x, 0, m, r);
    EightRounds(value, x, 8, m, r);
    LoadedIsWindow(x[..], m);
    var i := 16;
    while i < 64
      invariant 16 <= i <= 64 && i % 8 == 0 && Window(x[..], m, i) && RegistersOf(value[..], i) == Rounds(r, m, i)
    {
      EightMixedRounds(value, x, i, m, r);
      i := i + 8;
    }
    StartIs(value[..], 64);
  }

  lemma RoundsStart(r: Registers, m: Block)
    ensures Rounds(r, m, 0) == r
  {}

  lemma StartIs(v: Chain, i: nat)
    requires i % 8 == 0
    ensures RegistersOf(v, i) == Start(v)
  {}

  /** sha256_transform. */
  method Transform(state: array<Word>, block: array<Byte>, o: nat)
    requires state.Length == 8 && o + 64 <= block.Length
    modifies state
    ensures state[..] == Compress(old(state[..]), block[o..o + 64])
  {
    hide Rounds, Loaded, Plus32;
    ghost var m: Block, h: Chain := block[o..o + 64], state[..];
    var value := new Word[8];
    for i := 0 to 8
      invariant state[..] == h && forall k :: 0 <= k < i ==> value[k] == h[k]
    {
      value[i] := state[i];
    }
    assert value[..] == h;
    var x := LoadBlock(block, o, m);
    AllRounds(value, x, m);
    ghost var v := value[..];
    for i := 0 to 8
      invariant value[..] == v
      invariant forall k :: 0 <= k < 8 ==> state[k] == if k < i then Plus32(h[k], v[k]) else h[k]
    {
      state[i] := Plus32(state[i], value[i]);
    }
    assert state[..] == [state[0], state[1], state[2], state[3], state[4], state[5], state[6], state[7]];
  }

  /** The two-word counter holds the number of bits of n bytes, modulo 2^64. */
  ghost predicate Counted(low: Word, high: Word, n: nat) {
    (low as int) + 0x1_0000_0000 * (high as int) == 8 * n % 0x1_0000_0000_0000_0000
  }

  /** The counter after length more bytes, with the carry out of the low word. */
  function CountLow(low: Word, length: Word): Word { (low + 8 * length % 0x1_0000_0000) % 0x1_0000_0000 }

  function CountHigh(low: Word, high: Word, length: Word): Word {
    var carry := if CountLow(low, length) < low then 1 else 0;
    ((high + carry) % 0x1_0000_0000 + length / 0x2000_0000) % 0x1_0000_0000
  }

  lemma CountStep(low: Word, high: Word, n: nat, length: Word)
    requires Counted(low, high, n)
    ensures Counted(CountLow(low, length), CountHigh(low, high, length), n + length)
  {
    var m := 0x1_0000_0000;
    var l, q := 8 * length % m, length / 0x2000_0000;
    assert 8 * length == q * m + l;
    var carry := if CountLow(low, length) < low then 1 else 0;
    CarryOut(low, l);
    assert low + l == CountLow(low, length) + carry * m;
    var t := (high + carry) % m;
    var h := (t + q) % m;
    var x, y := (high + carry) / m, (t + q) / m;
    assert high + carry + q == h + (x + y) * m;
    var total := low + m * high + 8 * length;
    assert total == CountLow(low, length) + m * h + (x + y) * (m * m);
    DropWide(CountLow(low, length) + m * h, x + y);
    DropCount(8 * n, low + m * high, 8 * length);
  }

  lemma CarryOut(a: Word, b: Word)
    ensures a + b == (a + b) % 0x1_0000_0000 + (if (a + b) % 0x1_0000_0000 < a then 1 else 0) * 0x1_0000_0000
  {}

  lemma DropWide(a: nat, q: int)
    requires a < 0x1_0000_0000_0000_0000
    ensures (a + q * 0x1_0000_0000_0000_0000) % 0x1_0000_0000_0000_0000 == a
  {
    QuotientIs(a + q * 0x1_0000_0000_0000_0000, 0x1_0000_0000_0000_0000, q, a);
  }

  lemma DropCount(a: nat, b: nat, c: nat)
    requires b == a % 0x1_0000_0000_0000_0000
    ensures (a + c) % 0x1_0000_0000_0000_0000 == (b + c) % 0x1_0000_0000_0000_0000
  {}

  class Sha256Ctx {
    const state: array<Word>
    const buffer: array<Byte>
    var count0: Word
    var count1: Word
    var len: nat
    /** The compressed whole blocks of the message, and the rest, which is in the buffer. */
    ghost var done: seq<Byte>
    ghost var rest: seq<Byte>

    /** A context as it is before sha256_init. */
    constructor ()
      ensures state.Length == 8 && buffer.Length == 64 && fresh(state) && fresh(buffer)
    {
      state := new Word[8];
      buffer := new Byte[64];
      count0, count1, len, done, rest := 0, 0, 0, [], [];
    }

    /** The chaining value belongs to the whole blocks. */
    ghost predicate Chained()
      reads this, state, buffer
    {
      && state.Length == 8 && buffer.Length == 64
      && |done| % 64 == 0 && state[..] == Blocks(H0, done)
    }

    ghost predicate Valid()
      reads this, state, buffer
    {
      Buffered() && Counted(count0, count1, |done| + len)
    }

    /** The bytes hashed so far. */
    ghost function Message(): seq<Byte>
      reads this
    {
      done + rest
    }

    /** sha256_init. */
    method Init()
      requires state.Length == 8 && buffer.Length == 64
      modifies this, state
      ensures Valid() && Message() == []
    {
      hide Blocks, Counted;
      count0, count1 := 0, 0;
      SetInitial(state);
      len := 0;
      done, rest := [], [];
      NoBlocks();
      CountedNothing();
    }

    /** One block from memory becomes part of the whole blocks. */
    method AbsorbBlock(data: array<Byte>, o: nat)
      requires Chained() && o + 64 <= data.Length
      modifies this`done, state
      ensures Chained() && done == old(done) + data[o..o + 64]
    {
      hide Compress, Blocks;
      ghost var b: Block := data[o..o + 64];
      BlocksOne(H0, done, b);
      Transform(state, data, o);
      done := done + b;
    }

    /** The part of sha256_update that completes the buffered block. */
    method FillBuffer(data: array<Byte>) returns (taken: nat)
      requires Chained() && 0 < len == |rest| < 64 && buffer[..len] == rest && data.Length + len >= 64 && data != buffer
      modifies this`done, this`rest, this`len, state, buffer
      ensures Chained() && len == 0 && rest == [] && taken == 64 - old(len) && done == old(done + rest) + data[..taken]
    {
      hide Compress, Blocks;
      taken := 64 - len;
      CopyBytes(buffer, len, data, 0, taken);
      assert buffer[0..0 + 64] == rest + data[..taken];
      AbsorbBlock(buffer, 0);
      ClearBytes(buffer, 0, 64);
      len := 0;
      rest := [];
    }

    /** The loop of sha256_update over whole blocks. */
    method AbsorbBlocks(data: array<Byte>, o: nat) returns (next: nat)
      requires Chained() && o <= data.Length && data != buffer
      modifies this`done, state
      ensures Chained() && o <= next <= data.Length < next + 64 && done == old(done) + data[o..next]
    {
      hide Compress, Blocks;
      next := o;
      ghost var d := done;
      for i := 0 to (data.Length - o) / 64
        invariant Chained() && next == o + 64 * i && done == d + data[o..next]
      {
        AbsorbBlock(data, next);
        assert data[o..next + 64] == data[o..next] + data[next..next + 64];
        next := next + 64;
      }
    }

    /** The part of sha256_update for data that do not fill the buffered block. */
    method Buffer(data: array<Byte>)
      requires Chained() && data.Length + len < 64 && len == |rest| && buffer[..len] == rest && data != buffer
      modifies this`rest, this`len, buffer
      ensures Chained() && len == |rest| < 64 && buffer[..len] == rest && Message() == old(Message()) + data[..]
    {
      hide Compress, Blocks;
      ghost var r := rest + data[..];
      CopyBytes(buffer, len, data, 0, data.Length);
      assert data[0..0 + data.Length] == data[..];
      assert buffer[..len + data.Length] == r;
      assert done + r == done + rest + data[..];
      rest := r;
      len := len + data.Length;
    }

    /** The first lines of sha256_update, which count the bits. */
    method Count(length: Word, ghost n: nat)
      requires Counted(count0, count1, n)
      modifies this`count0, this`count1
      ensures Counted(count0, count1, n + length)
    {
      hide Counted, CountLow, CountHigh;
      CountStep(count0, count1, n, length);
      count0, count1 := CountLow(count0, length), CountHigh(count0, count1, length);
    }

    /** The rest of the message is in the buffer. */
    ghost predicate Buffered()
      reads this, state, buffer
    {
      Chained() && len == |rest| < 64 && buffer[..len] == rest
    }

    /** sha256_update after the counting. */
    method Absorb(data: array<Byte>)
      requires Buffered() && data != buffer
      modifies this`done, this`rest, this`len, state, buffer
      ensures Buffered() && Message() == old(Message()) + data[..]
    {
      hide Compress, Blocks;
      var o := 0;
      if len != 0 {
        if data.Length >= 64 || data.Length + len >= 64 {
          o := FillBuffer(data);
        } else {
          Buffer(data);
          return;
        }
      }
      FinishUpdate(data, o);
      assert data[..] == data[..o] + data[o..];
    }

    /** sha256_update: however a message is cut into pieces, the context depends on the whole message only. */
    method Update(data: array<Byte>)
      requires Valid() && data.Length < 0x1_0000_0000 && data != buffer
      modifies this, state, buffer
      ensures Valid() && Message() == old(Message()) + data[..]
    {
      hide Compress, Blocks, Counted;
      Count(data.Length, |Message()|);
      Absorb(data);
    }

    /** The part of sha256_update after the buffered block. */
    method FinishUpdate(data: array<Byte>, o: nat)
      requires Chained() && len == 0 && rest == [] && o <= data.Length && data != buffer
      modifies this`done, this`rest, this`len, state, buffer
      ensures Chained() && len == |rest| < 64 && buffer[..len] == rest && Message() == old(done) + data[o..]
    {
      hide Compress, Blocks;
      ghost var d := done;
      var next := AbsorbBlocks(data, o);
      ghost var s := data[..];
      assert data[o..next] == s[o..next] && data[o..] == s[o..] && data[next..] == s[next..];
      TailJoins(d, s, o, next);
      var left := data.Length - next;
      rest := s[next..];
      if left != 0 {
        len := left;
        CopyBytes(buffer, 0, data, next, left);
        assert buffer[..left] == buffer[0..0 + left];
        assert data[next..next + left] == rest;
      }
    }

    /** A last block without the length: zeros up to its end. */
    method Spill(l: nat)
      requires Chained() && l == |rest| <= 64 && buffer[..l] == rest
      modifies this`done, this`rest, state, buffer
      ensures Chained() && rest == [] && done == old(done) + (old(rest) + ZeroBytes(64 - l))
    {
      hide Compress, Blocks, ZeroBytes;
      ClearBytes(buffer, l, 64);
      ZerosAfter(buffer[..], rest, l, 64);
      assert buffer[0..0 + 64] == buffer[..][..64];
      AbsorbBlock(buffer, 0);
      rest := [];
    }

    /** The marker byte and the zeros of the padding; a second block is begun if the length does not fit. */
    method PadBuffer()
      requires Valid()
      modifies this`done, this`rest, state, buffer
      ensures Chained() && |rest| == 56 && buffer[..56] == rest
      ensures done + rest == old(done + rest) + [0x80] + ZeroBytes((55 - (|old(Message())| as int)) % 64)
    {
      hide Compress, Blocks, ZeroBytes, Counted;
      ghost var d, q := done, rest;
      var l := len;
      buffer[l] := 0x80;
      l := l + 1;
      rest := q + [0x80];
      assert buffer[..l] == rest;
      if l > 64 - 8 {
        Spill(l);
        l := 0;
      }
      ClearBytes(buffer, l, 64 - 8);
      ZerosAfter(buffer[..], rest, l, 56);
      rest := rest + ZeroBytes(56 - l);
      assert buffer[..56] == buffer[..][..56];
      PaddedIs(d, q, done, rest);
    }

    /** sha256_final: the digest of the message. */
    method Final(result: array<Byte>)
      requires Valid() && 8 * |Message()| < 0x1_0000_0000_0000_0000 && result.Length >= 32 && result != buffer
      modifies this, state, buffer, result
      ensures result[..32] == Hash(old(Message()))
    {
      hide Compress, Blocks, Pad;
      LastBlock();
      len := 0;
      ClearBytes(buffer, 0, 64);
      WriteDigest(result);
    }

    /** The padding, the length of the message and the last compression. */
    method LastBlock()
      requires Valid() && 8 * |Message()| < 0x1_0000_0000_0000_0000
      modifies this`done, this`rest, state, buffer
      ensures Chained() && done == old(Message()) + Pad(|old(Message())|)
    {
      hide Compress, Blocks, ZeroBytes, BigBytes, Pad, Counted;
      ghost var m := Message();
      CountsAre(count0, count1, |m|);
      PadBuffer();
      StoreLength();
      assert buffer[0..0 + 64] == buffer[..];
      AbsorbBlock(buffer, 0);
      PaddingIs(m, done);
    }

    method StoreLength()
      requires Chained() && |rest| == 56 && buffer[..56] == rest
      modifies buffer
      ensures Chained() && buffer[..] == rest + BigBytes(count1) + BigBytes(count0)
    {
      hide Compress, Blocks, BigBytes;
      StoreBig(buffer, 64 - 8, count1);
      assert buffer[56..60] == BigBytes(count1) && buffer[..56] == rest;
      StoreBig(buffer, 64 - 4, count0);
      assert buffer[56..60] == BigBytes(count1) && buffer[..56] == rest;
      FullBlock(buffer[..], rest, BigBytes(count1), BigBytes(count0));
    }

    /** The chaining value, word by word. */
    method WriteDigest(result: array<Byte>)
      requires state.Length == 8 && result.Length >= 32
      modifies result
      ensures result[..32] == Digest(state[..])
    {
      hide BigBytes;
      for i := 0 to 8
        invariant forall k :: 0 <= k < i ==> result[..][4 * k..4 * k + 4] == BigBytes(state[k])
      {
        ghost var before := result[..];
        StoreBig(result, 4 * i, state[i]);
        forall k | 0 <= k < i ensures result[..][4 * k..4 * k + 4] == BigBytes(state[k]) {
          assert result[..][4 * k..4 * k + 4] == before[4 * k..4 * k + 4];
        }
        assert result[..][4 * i..4 * i + 4] == result[4 * i..4 * i + 4];
      }
      DigestIs(state[..], result[..]);
    }
  }

  method SetInitial(state: array<Word>)
    requires state.Length == 8
    modifies state
    ensures state[..] == H0
  {
    state[0], state[1], state[2], state[3] := 0x6a09e667, 0xbb67ae85, 0x3c6ef372, 0xa54ff53a;
    state[4], state[5], state[6], state[7] := 0x510e527f, 0x9b05688c, 0x1f83d9ab, 0x5be0cd19;
  }

  lemma NoBlocks()
    ensures Blocks(H0, []) == H0
  {}

  lemma CountedNothing()
    ensures Counted(0, 0, 0)
  {}

  /** word2byte and mem_swap8: the bytes of a word, most significant first. */
  method StoreBig(dest: array<Byte>, o: nat, w: Word)
    requires o + 4 <= dest.Length
    modifies dest
    ensures dest[o..o + 4] == BigBytes(w)
    ensures forall k :: 0 <= k < dest.Length && !(o <= k < o + 4) ==> dest[k] == old(dest[k])
  {
    var s := WordBytes(w);
    dest[o] := s[3];
    dest[o + 1] := s[2];
    dest[o + 2] := s[1];
    dest[o + 3] := s[0];
  }

  lemma TailJoins(d: seq<Byte>, s: seq<Byte>, o: nat, n: nat)
    requires o <= n <= |s|
    ensures d + s[o..n] + s[n..] == d + s[o..]
  {
    assert s[o..] == s[o..n] + s[n..];
  }

  lemma ZerosAfter(b: seq<Byte>, p: seq<Byte>, l: nat, n: nat)
    requires l == |p| <= n <= |b| && b[..l] == p && forall k :: l <= k < n ==> b[k] == 0
    ensures b[..n] == p + ZeroBytes(n - l)
  {
    assert b[..n] == b[..l] + b[l..n];
  }

  lemma FullBlock(b: seq<Byte>, p: seq<Byte>, c: seq<Byte>, d: seq<Byte>)
    requires |b| == 64 && |p| == 56 && b[..56] == p && b[56..60] == c && b[60..64] == d
    ensures b == p + c + d
  {
    assert b == b[..56] + b[56..60] + b[60..64];
  }

  /** The zeros of the padding, whether or not they begin a second block. */
  lemma PaddedIs(d: seq<Byte>, q: seq<Byte>, done: seq<Byte>, rest: seq<Byte>)
    requires |d| % 64 == 0 && |q| < 64
    requires |q| <= 55 ==> done == d && rest == q + [0x80] + ZeroBytes(55 - |q|)
    requires |q| > 55 ==> done == d + (q + [0x80] + ZeroBytes(63 - |q|)) && rest == [] + ZeroBytes(56)
    ensures done + rest == d + q + [0x80] + ZeroBytes((55 - (|d + q| as int)) % 64)
  {
    assert (55 - (|d + q| as int)) % 64 == if |q| <= 55 then 55 - |q| else 119 - |q|;
    if |q| > 55 {
      assert ZeroBytes(63 - |q|) + ZeroBytes(56) == ZeroBytes(119 - |q|);
    }
  }

  /** Below 2^64 bits the counter is the length in bits. */
  lemma CountsAre(low: Word, high: Word, n: nat)
    requires Counted(low, high, n) && 8 * n < 0x1_0000_0000_0000_0000
    ensures high == 8 * n / 0x1_0000_0000 && low == 8 * n % 0x1_0000_0000
  {
    assert (low as int) + 0x1_0000_0000 * (high as int) == 8 * n;
  }

  lemma PaddingIs(m: seq<Byte>, p: seq<Byte>)
    requires 8 * |m| < 0x1_0000_0000_0000_0000
    requires p == m + [0x80] + ZeroBytes((55 - (|m| as int)) % 64) + BigBytes(8 * |m| / 0x1_0000_0000)
    + BigBytes(8 * |m| % 0x1_0000_0000)
    ensures p == m + Pad(|m|)
  {
    hide ZeroBytes, BigBytes;
  }

  lemma DigestIs(h: Chain, s: seq<Byte>)
    requires |s| >= 32 && forall k :: 0 <= k < 8 ==> s[4 * k..4 * k + 4] == BigBytes(h[k])
    ensures s[..32] == Digest(h)
  {
    hide BigBytes;
    assert s[..32] == s[4 * 0..4 * 0 + 4] + s[4 * 1..4 * 1 + 4] + s[4 * 2..4 * 2 + 4] + s[4 * 3..4 * 3 + 4]
                      + s[4 * 4..4 * 4 + 4] + s[4 * 5..4 * 5 + 4] + s[4 * 6..4 * 6 + 4] + s[4 * 7..4 * 7 + 4];
  }

  /** The digest of a message given in pieces is the hash of the message, wherever it was cut. */
  method HashPieces(pieces: seq<array<Byte>>) returns (result: array<Byte>)
    requires forall a :: a in pieces ==> a.Length < 0x1_0000_0000
    requires 8 * |Together(pieces)| < 0x1_0000_0000_0000_0000
    ensures fresh(result) && result.Length == 32 && result[..] == Hash(Together(pieces))
  {
    hide Sha256Ctx.Valid, Sha256Ctx.Message, Together, Hash;
    var ctx := new Sha256Ctx();
    ctx.Init();
    assert Together(pieces[..0]) == [] by {
      TogetherNone(pieces);
    }
    for i := 0 to |pieces|
      invariant ctx.Valid() && fresh(ctx) && fresh(ctx.state) && fresh(ctx.buffer)
      invariant ctx.Message() == Together(pieces[..i]) && Together(pieces) == old(Together(pieces))
    {
      TogetherStep(pieces, i);
      assert pieces[i] in pieces;
      ctx.Update(pieces[i]);
    }
    assert pieces[..|pieces|] == pieces;
    result := new Byte[32];
    ctx.Final(result);
    assert result[..32] == result[..];
  }
}
