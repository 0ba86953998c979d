/** crypt_sha3.c: the queue-based sponge, refining the sponge of FIPS 202. */
module Sponge {
  import opened Arith
  import opened Digits
  import opened Bits
  import opened Words
  import opened Buffers
  import opened KeccakSpec
  import opened KeccakWords
  import opened KeccakTables
  import opened SpongeSpec

  /** The first n bits of a byte string. */
  function DataBits(s: seq<Byte>, n: nat): (t: seq<bool>)
    requires n <= 8 * |s|
    ensures |t| == n
  {
    BytesBits(s)[..n]
  }

  /** The bytes s start with the bits q, and the rest of the byte where q ends is clear. */
  ghost predicate QueueBits(s: seq<Byte>, q: seq<bool>) {
    && |q| <= 8 * |s| && BytesBits(s)[..|q|] == q
    && forall k :: |q| <= k < (|q| + 7) / 8 * 8 ==> !BytesBits(s)[k]
  }

  /** Whole bytes of a byte string. */
  lemma SliceBits(s: seq<Byte>, o: nat, n: nat)
    requires o + n <= |s|
    ensures BytesBits(s[o..o + n]) == BytesBits(s)[8 * o..8 * (o + n)]
  {
    hide BitOf;
    var a, b := BytesBits(s[o..o + n]), BytesBits(s)[8 * o..8 * (o + n)];
    forall k | 0 <= k < 8 * n ensures a[k] == b[k] {
      EightTimes(o, k);
    }
  }

  /** XORing bytes XORs their bits. */
  lemma XorBytesBits(s: seq<Byte>, d: seq<Byte>, t: seq<Byte>)
    requires |s| == |t| == 200 && |d| <= 200
    requires forall i :: 0 <= i < 200 ==> t[i] == if i < |d| then Xor(s[i], d[i]) else s[i]
    ensures BytesBits(t) == XorBlock(BytesBits(s), BytesBits(d))
  {
    hide BitOf, Xor;
    forall k | 0 <= k < 1600 ensures BytesBits(t)[k] == XorBlock(BytesBits(s), BytesBits(d))[k] {
      if k / 8 < |d| {
        XorBit(s[k / 8], d[k / 8], k % 8);
      }
    }
  }

  lemma ByteXor(a: Byte, b: Byte)
    ensures Xor(a, b) < 256
  {
    SmallTwos();
    XorBound(a, b, 8);
  }

  /** KeccakPermutationAfterXor. */
  method PermuteAfterXor(buffer: array<Byte>, data: array<Byte>, o: nat, n: nat, tables: Tables)
    requires buffer.Length == 200 && n <= 200 && o + n <= data.Length && buffer != data && tables.Valid()
    modifies buffer
    ensures BytesBits(buffer[..]) == KeccakF(XorBlock(old(BytesBits(buffer[..])), BytesBits(data[o..o + n])))
  {
    hide BytesBits, KeccakF, XorBlock, Xor;
    ghost var s, d := buffer[..], data[o..o + n];
    for i := 0 to n
      invariant forall k :: 0 <= k < 200 ==> buffer[k] == if k < i then Xor(s[k], d[k]) else s[k]
    {
      ByteXor(buffer[i], data[o + i]);
      assert data[o + i] == d[i];
      buffer[i] := Xor(buffer[i], data[o + i]);
    }
    XorBytesBits(s, d, buffer[..]);
    Permute(buffer, tables);
  }

  /** n is a multiple of r. */
  ghost predicate Whole(n: nat, r: nat)
    requires r > 0
  {
    n % r == 0
  }

  class Sha3Ctx {
    const tables: Tables
    const buffer: array<Byte>
    const dataQueue: array<Byte>
    var rate: nat
    var capacity: nat
    var bitsInQueue: nat
    var fixedOutputLength: nat
    var bitsAvailableForSqueezing: nat
    var squeezing: bool
    /** The absorbed whole blocks, and the bits still in the queue. */
    ghost var done: seq<bool>
    ghost var queued: seq<bool>
    /** The state after padding, the number of states squeezed from it, and the number of bits output. */
    ghost var root: State
    ghost var blocks: nat
    ghost var taken: nat

    ghost predicate Shape()
      reads this, tables.offsets, tables.constants
    {
      && buffer.Length == 200 && dataQueue.Length == 192 && buffer != dataQueue && tables.Valid()
      && 0 < rate <= 1536 && rate % 64 == 0
    }

    /** The absorbed blocks are in the buffer and the queued bits are in the queue. */
    ghost predicate Loaded()
      reads this, buffer, dataQueue, tables.offsets, tables.constants
    {
      && Shape() && !squeezing && Whole(|done|, rate) && |queued| <= rate
      && BytesBits(buffer[..]) == AbsorbBlocks(Zeros(1600), done, rate)
      && QueueBits(dataQueue[..], queued)
    }

    /** Absorbing, with a queue that may be full. */
    ghost predicate Holding()
      reads this, buffer, dataQueue, tables.offsets, tables.constants
    {
      Loaded() && |queued| == bitsInQueue
    }

    /** A context as it is before sha3_init. */
    constructor ()
      ensures buffer.Length == 200 && dataQueue.Length == 192 && buffer != dataQueue && tables.Valid()
      ensures fresh(buffer) && fresh(dataQueue)
    {
      tables := new Tables();
      buffer := new Byte[200];
      dataQueue := new Byte[192];
      rate, capacity, bitsInQueue, fixedOutputLength, bitsAvailableForSqueezing, squeezing := 0, 0, 0, 0, 0, false;
      done, queued, root, blocks, taken := [], [], Zeros(1600), 0, 0;
    }

    /** Absorbing, between calls. */
    ghost predicate Absorbing()
      reads this, buffer, dataQueue, tables.offsets, tables.constants
    {
      Holding() && bitsInQueue < rate
    }

    /** The bits absorbed so far. */
    ghost function Message(): seq<bool>
      reads this
    {
      done + queued
    }

    /** AbsorbQueue, for a full queue. */
    method AbsorbQueue()
      requires Loaded() && |queued| == rate
      modifies this`bitsInQueue, this`done, this`queued, buffer
      ensures Holding() && bitsInQueue == 0 && done == old(done + queued)
    {
      hide BytesBits, KeccakF, XorBlock, AbsorbBlocks, QueueBits;
      FullQueue(dataQueue[..], queued, rate / 8);
      assert dataQueue[..][0..rate / 8] == dataQueue[0..0 + rate / 8];
      AbsorbOne(Zeros(1600), done, queued, rate);
      PermuteAfterXor(buffer, dataQueue, 0, rate / 8, tables);
      done, queued := done + queued, [];
      bitsInQueue := 0;
      EmptyQueue(dataQueue[..]);
    }

    /** A whole block absorbed straight from the data. */
    method AbsorbBlock(data: array<Byte>, o: nat, n: nat)
      requires Absorbing() && bitsInQueue == 0 && 8 * n == rate && o + n <= data.Length && data != buffer && data != dataQueue
      modifies this`done, buffer
      ensures Absorbing() && done == old(done) + BytesBits(data[o..o + n])
    {
      hide BytesBits, KeccakF, XorBlock, AbsorbBlocks, QueueBits;
      ghost var b := BytesBits(data[o..o + n]);
      AbsorbOne(Zeros(1600), done, b, rate);
      PermuteAfterXor(buffer, data, o, n, tables);
      done := done + b;
    }

    /** Whole bytes appended to the queue. */
    method Enqueue(data: array<Byte>, o: nat, n: nat)
      requires Absorbing() && bitsInQueue % 8 == 0 && o + n <= data.Length && data != buffer && data != dataQueue
               && bitsInQueue + 8 * n <= rate
      modifies this`bitsInQueue, this`queued, dataQueue
      ensures Holding() && queued == old(queued) + BytesBits(data[o..o + n])
    {
      hide BytesBits, KeccakF, AbsorbBlocks, QueueBits;
      ghost var s, d := dataQueue[..], data[o..o + n];
      QueueSize(s, queued);
      CopyBytes(dataQueue, bitsInQueue / 8, data, o, n);
      Enqueued(s, d, queued, dataQueue[..]);
      queued := queued + BytesBits(d);
      bitsInQueue := bitsInQueue + 8 * n;
    }

    /** The last few bits of the data, masked, appended to the queue. */
    method EnqueueBits(d: Byte, n: nat)
      requires Absorbing() && bitsInQueue % 8 == 0 && 0 < n < 8
      modifies this`bitsInQueue, this`queued, dataQueue
      ensures Absorbing() && Message() == old(Message()) + DataBits([d], n) && bitsInQueue % 8 == n
    {
      hide BytesBits, KeccakF, AbsorbBlocks, QueueBits, And, DataBits, Masked, Whole;
      ghost var s := dataQueue[..];
      QueueEnd(bitsInQueue, n, rate);
      MaskedByte(d, n);
      var b: Byte := And(d, Two(n) - 1);
      PartialByte(s, queued, d, n, b);
      dataQueue[bitsInQueue / 8] := b;
      assert dataQueue[..] == s[bitsInQueue / 8 := b];
      queued := queued + DataBits([d], n);
      bitsInQueue := bitsInQueue + n;
    }

    /** The fast path: as many whole blocks as fit, straight from the data, from byte c on. */
    method AbsorbWholeBlocks(data: array<Byte>, c: nat, databitlen: nat) returns (next: nat)
      requires Absorbing() && bitsInQueue == 0 && data != buffer && data != dataQueue
      requires databitlen <= 8 * data.Length && 8 * c + rate <= databitlen
      modifies this`done, buffer
      ensures Absorbing() && c < next && 8 * next <= databitlen
      ensures Message() == old(Message()) + BytesBits(data[c..next])
    {
      hide BytesBits, KeccakF, AbsorbBlocks, QueueBits, DataBits, BlockStart, Whole, BlockCount;
      var wholeBlocks := BlockCount(databitlen - 8 * c, rate);
      var bytes := rate / 8;
      next := c;
      BlocksStart(8 * c, databitlen, rate);
      ghost var m, s := done, data[..];
      for j := 0 to wholeBlocks
        invariant Absorbing() && bitsInQueue == 0 && 8 * next == BlockStart(8 * c, j, rate) && 8 * next <= databitlen
        invariant c <= next && (j > 0 ==> c < next) && data[..] == s
        invariant done == m + BytesBits(s[c..next])
      {
        BlocksFit(8 * c, databitlen, rate, j);
        AbsorbBlock(data, next, bytes);
        assert data[next..next + bytes] == s[next..next + bytes];
        JoinBytes(s, c, next, next + bytes);
        next := next + bytes;
      }
    }

    /** Whole bytes into the queue, which is absorbed when it is full. */
    method Fill(data: array<Byte>, o: nat, n: nat)
      requires Absorbing() && bitsInQueue % 8 == 0 && o + n <= data.Length && data != buffer && data != dataQueue
               && bitsInQueue + 8 * n <= rate
      modifies this`bitsInQueue, this`done, this`queued, buffer, dataQueue
      ensures Absorbing() && bitsInQueue == if old(bitsInQueue) + 8 * n == rate then 0 else old(bitsInQueue) + 8 * n
      ensures Message() == old(Message()) + BytesBits(data[o..o + n])
    {
      hide BytesBits, KeccakF, AbsorbBlocks, QueueBits, DataBits, Whole;
      Enqueue(data, o, n);
      if bitsInQueue == rate {
        AbsorbQueue();
      }
    }

    /** The queue path: whole bytes up to a full queue, then the last partial byte. */
    method AbsorbPartial(data: array<Byte>, c: nat, databitlen: nat) returns (next: nat)
      requires Absorbing() && bitsInQueue % 8 == 0 && data != buffer && data != dataQueue
      requires databitlen <= 8 * data.Length && 8 * c < databitlen
      modifies this`bitsInQueue, this`done, this`queued, buffer, dataQueue
      ensures Absorbing() && 8 * c < next <= databitlen
      ensures Message() == old(Message()) + DataBits(data[..], next)[8 * c..]
      ensures (next == databitlen || next % 8 == 0) && bitsInQueue % 8 == next % 8
    {
      hide BytesBits, KeccakF, AbsorbBlocks, QueueBits, DataBits, Whole, Holding;
      Rates();
      ghost var s := data[..];
      var n, partialByte := Portion(databitlen - 8 * c, bitsInQueue, rate);
      Fill(data, c, n);
      assert data[c..c + n] == s[c..c + n];
      DataBytes(s, c, n);
      next := 8 * (c + n);
      if partialByte > 0 {
        EnqueueBits(data[c + n], partialByte);
        assert data[..] == s;
        DataTail(s, c, c + n, partialByte);
        next := next + partialByte;
      }
      EightAnd(c + n, partialByte);
    }

    lemma Rates()
      requires Absorbing()
      ensures bitsInQueue < rate && rate % 64 == 0
    {}

    /** Absorb: refused after a partial byte or after squeezing has begun. */
    method Absorb(data: array<Byte>, databitlen: nat) returns (error: bool)
      requires squeezing || Absorbing()
      requires databitlen <= 8 * data.Length && data != buffer && data != dataQueue
      modifies this`bitsInQueue, this`done, this`queued, buffer, dataQueue
      ensures error <==> old(bitsInQueue % 8 != 0 || squeezing)
      ensures error ==> Message() == old(Message()) && buffer[..] == old(buffer[..]) && dataQueue[..] == old(dataQueue[..])
      ensures error ==> (old(Absorbing()) ==> Absorbing()) && (old(Squeezing()) ==> Squeezing())
                        && bitsInQueue == old(bitsInQueue)
      ensures !error ==> bitsInQueue % 8 == databitlen % 8
      ensures !error ==> Absorbing() && Message() == old(Message()) + DataBits(data[..], databitlen)
    {
      hide BytesBits, KeccakF, AbsorbBlocks, QueueBits, DataBits, Whole;
      if bitsInQueue % 8 != 0 {
        return true;
      }
      if squeezing {
        return true;
      }
      ghost var m, s := Message(), data[..];
      var i := 0;
      DataNone(s);
      while i < databitlen
        invariant Absorbing() && i <= databitlen && data[..] == s && Message() == m + DataBits(s, i)
        invariant (i == databitlen || i % 8 == 0) && bitsInQueue % 8 == i % 8
      {
        var next;
        if bitsInQueue == 0 && databitlen >= rate && i <= databitlen - rate {
          next := AbsorbWholeBlocks(data, i / 8, databitlen);
          assert data[i / 8..next] == s[i / 8..next];
          DataBytes(s, i / 8, next - i / 8);
          next := 8 * next;
        } else {
          next := AbsorbPartial(data, i / 8, databitlen);
        }
        DataSplit(s, i, next);
        i := next;
      }
      return false;
    }

    /** memset of the rest of the queue from the byte after n bits on, which fills it with zero bits. */
    method ClearQueue(n: nat)
      requires Loaded() && n == |queued|
      modifies this`queued, dataQueue
      ensures Loaded() && queued == old(queued) + Zeros(rate - n)
    {
      hide BytesBits, KeccakF, AbsorbBlocks, QueueBits, Whole, Zeros;
      ghost var s := dataQueue[..];
      var bytes := rate / 8;
      assert 8 * bytes == rate;
      ClearBytes(dataQueue, (n + 7) / 8, bytes);
      Cleared(s, queued, bytes, dataQueue[..]);
      queued := queued + Zeros(rate - n);
    }

    /** Sets one bit of the queue. */
    method SetQueueBit(k: nat)
      requires Loaded() && k < |queued|
      modifies this`queued, dataQueue
      ensures Loaded() && queued == old(queued)[k := true]
    {
      hide BytesBits, KeccakF, AbsorbBlocks, QueueBits, Whole, Or, Two;
      ghost var s := dataQueue[..];
      OrByte(dataQueue[k / 8], k % 8);
      var b: Byte := Or(dataQueue[k / 8], Two(k % 8));
      BitSet(s, queued, k, b);
      dataQueue[k / 8] := b;
      assert dataQueue[..] == s[k / 8 := b];
      queued := queued[k := true];
    }

    /** The state is ready to squeeze: taken bits of the output of the message have been read. */
    ghost predicate Squeezing()
      reads this, buffer, dataQueue, tables.offsets, tables.constants
    {
      && Shape() && squeezing && root == Absorbed(Message(), rate)
      && blocks > 0 && taken + bitsAvailableForSqueezing == BlockStart(0, blocks, rate)
      && bitsAvailableForSqueezing <= rate && bitsAvailableForSqueezing % 8 == 0
      && BytesBits(buffer[..]) == Iterate(root, blocks - 1)
      && BytesBits(dataQueue[..])[..rate] == BytesBits(buffer[..])[..rate]
    }

    /** The first bit of the padding, when it fills the queue. */
    method PadLastBit()
      requires Absorbing() && bitsInQueue + 1 == rate
      modifies this`bitsInQueue, this`done, this`queued, buffer, dataQueue
      ensures Loaded() && done == old(done) + (old(queued) + [false])[|old(queued)| := true]
              && queued == [] + Zeros(rate) && bitsInQueue == 0
    {
      hide BytesBits, KeccakF, AbsorbBlocks, QueueBits, Zeros, Whole;
      var n := bitsInQueue;
      PartialZero(dataQueue[..], queued);
      queued := queued + [false];
      SetQueueBit(n);
      AbsorbQueue();
      ClearQueue(0);
    }

    /** The padding pad10*1 put into the queue, which is absorbed once or twice. */
    method AbsorbPadding()
      requires Absorbing()
      modifies this`bitsInQueue, this`done, this`queued, buffer, dataQueue
      ensures Loaded() && queued == [] && bitsInQueue == 0 && BytesBits(buffer[..]) == Absorbed(old(Message()), rate)
    {
      hide BytesBits, KeccakF, AbsorbBlocks, QueueBits, Pad, Zeros;
      ghost var d, q := done, queued;
      var n := bitsInQueue;
      if bitsInQueue + 1 == rate {
        PadLastBit();
      } else {
        ClearQueue(n);
        SetQueueBit(n);
      }
      SetQueueBit(rate - 1);
      AbsorbQueue();
      PadIs(d, q, rate, done);
    }

    /** KeccakExtract: the first rate bits of the state become the queue. */
    method Extract()
      requires Shape()
      modifies this`bitsAvailableForSqueezing, dataQueue
      ensures bitsAvailableForSqueezing == rate && BytesBits(dataQueue[..])[..rate] == BytesBits(buffer[..])[..rate]
    {
      hide BytesBits;
      var bytes := rate / 8;
      assert 8 * bytes == rate;
      CopyBytes(dataQueue, 0, buffer, 0, bytes);
      assert dataQueue[..][0..0 + bytes] == dataQueue[0..0 + bytes] == buffer[..][0..0 + bytes];
      SamePrefix(dataQueue[..], buffer[..], bytes);
      bitsAvailableForSqueezing := rate;
    }

    /** PadAndSwitchToSqueezingPhase. */
    method PadAndSwitchToSqueezingPhase()
      requires Absorbing()
      modifies this, buffer, dataQueue
      ensures Squeezing() && Message() == old(Message()) && taken == 0 && rate == old(rate)
              && fixedOutputLength == old(fixedOutputLength)
    {
      hide BytesBits, KeccakF, AbsorbBlocks, QueueBits, Absorbed, Whole, Squeezing;
      ghost var m := Message();
      AbsorbPadding();
      Extract();
      squeezing := true;
      done, queued, root, blocks, taken := m, [], BytesBits(buffer[..]), 1, 0;
      assert m + [] == m;
      BeginSqueezing();
    }

    lemma BeginSqueezing()
      requires Shape() && squeezing && root == Absorbed(Message(), rate) && root == BytesBits(buffer[..])
      requires blocks == 1 && taken == 0 && bitsAvailableForSqueezing == rate
      requires BytesBits(dataQueue[..])[..rate] == BytesBits(buffer[..])[..rate]
      ensures Squeezing()
    {
      hide BytesBits, KeccakF, BlockStart, Absorbed, Iterate;
      FirstBlock(root, rate);
      assert rate % 8 == 0;
    }

    /** The next block of output, when all of the last one has been read. */
    method NextBlock()
      requires Squeezing() && bitsAvailableForSqueezing == 0
      modifies this`bitsAvailableForSqueezing, this`blocks, buffer, dataQueue
      ensures Squeezing() && bitsAvailableForSqueezing == rate
    {
      hide BytesBits, KeccakF, Absorbed, BlockStart;
      BlocksNext(blocks, rate);
      Permute(buffer, tables);
      Extract();
      blocks := blocks + 1;
    }

    /** Reads n bytes of the queue. */
    method Read(output: array<Byte>, o: nat, n: nat)
      requires Squeezing() && 8 * n <= bitsAvailableForSqueezing && o + n <= output.Length && output != buffer
               && output != dataQueue
      modifies this`bitsAvailableForSqueezing, this`taken, output
      ensures Squeezing() && taken == old(taken) + 8 * n && bitsAvailableForSqueezing == old(bitsAvailableForSqueezing) - 8 * n
      ensures BytesBits(output[o..o + n]) == Sponge(Message(), rate, taken)[old(taken)..]
      ensures forall k :: 0 <= k < output.Length && !(o <= k < o + n) ==> output[k] == old(output[k])
    {
      hide BytesBits, KeccakF, Absorbed, BlockStart, Stream, Iterate;
      var p := (rate - bitsAvailableForSqueezing) / 8;
      WholeBytesLeft(rate, bitsAvailableForSqueezing, n);
      ghost var q := dataQueue[..];
      assert q[p..p + n] == dataQueue[p..p + n];
      CopyBytes(output, o, dataQueue, p, n);
      SliceOfPrefix(q, p, n, rate);
      StreamSlice(root, rate, blocks, 8 * p, 8 * n);
      taken := taken + 8 * n;
      bitsAvailableForSqueezing := bitsAvailableForSqueezing - 8 * n;
    }

    /** Squeeze: the next outputLength bits of the output of the message, for whole bytes only. */
    method Squeeze(output: array<Byte>, outputLength: nat) returns (error: bool)
      requires (if squeezing then Squeezing() else Absorbing()) && outputLength <= 8 * output.Length && output != buffer
               && output != dataQueue
      modifies this, buffer, dataQueue, output
      ensures Squeezing() && Message() == old(Message()) && rate == old(rate) && fixedOutputLength == old(fixedOutputLength)
      ensures error <==> outputLength % 8 != 0
      ensures taken == (if old(squeezing) then old(taken) else 0) + (if error then 0 else outputLength)
      ensures !error ==> DataBits(output[..], outputLength) == Sponge(Message(), rate, taken)[taken - outputLength..]
      ensures forall k :: (if error then 0 else outputLength / 8) <= k < output.Length ==> output[k] == old(output[k])
    {
      hide BytesBits, KeccakF, Absorbed, BlockStart, Stream, Iterate, DataBits, Absorbing;
      if !squeezing {
        PadAndSwitchToSqueezingPhase();
      }
      if outputLength % 8 != 0 {
        return true;
      }
      ghost var t, m, r, l := taken, Message(), rate, fixedOutputLength;
      var i := 0;
      DataNone(output[..]);
      StreamNone(root, rate, t);
      while i < outputLength
        invariant Squeezing() && Message() == m && rate == r && fixedOutputLength == l && i <= outputLength
                  && i % 8 == 0 && taken == t + i
        invariant DataBits(output[..], i) == Sponge(m, r, t + i)[t..]
        invariant forall k :: i / 8 <= k < output.Length ==> output[k] == old(output[k])
      {
        if bitsAvailableForSqueezing == 0 {
          NextBlock();
        }
        i := SqueezeSome(output, i, outputLength, t);
      }
      return false;
    }

    /** One round of the loop of Squeeze. */
    method SqueezeSome(output: array<Byte>, i: nat, outputLength: nat, ghost t: nat) returns (next: nat)
      requires Squeezing() && bitsAvailableForSqueezing > 0 && outputLength <= 8 * output.Length && output != buffer
               && output != dataQueue
      requires i < outputLength && i % 8 == 0 && outputLength % 8 == 0 && taken == t + i
      requires DataBits(output[..], i) == Sponge(Message(), rate, t + i)[t..]
      modifies this`bitsAvailableForSqueezing, this`taken, output
      ensures Squeezing() && i < next <= outputLength && next % 8 == 0 && taken == t + next
      ensures DataBits(output[..], next) == Sponge(Message(), rate, t + next)[t..]
      ensures forall k :: next / 8 <= k < output.Length ==> output[k] == old(output[k])
    {
      hide BytesBits, KeccakF, Absorbed, BlockStart, Stream, Iterate, DataBits, Sponge;
      var partialBlock := bitsAvailableForSqueezing;
      EightLess(outputLength, i);
      if partialBlock > outputLength - i {
        partialBlock := outputLength - i;
      }
      var c, n := i / 8, partialBlock / 8;
      EightParts(i);
      EightParts(partialBlock);
      EightMore(i, n);
      ghost var before := output[..];
      Read(output, c, n);
      next := i + partialBlock;
      assert output[..][c..c + n] == output[c..c + n];
      SqueezedMore(before, output[..], c, n, Message(), rate, t);
    }

    /** sha3_init: the rate for the digest length, and an empty message; other lengths leave the context as it is. */
    method Init(bitlen: nat)
      requires buffer.Length == 200 && dataQueue.Length == 192 && buffer != dataQueue && tables.Valid()
      modifies this, buffer, dataQueue
      ensures fixedOutputLength == bitlen
      ensures bitlen in {0, 224, 256, 384, 512} ==> Absorbing() && Message() == []
                                                    && rate == if bitlen == 0 then 1024 else 1600 - 2 * bitlen
      ensures bitlen !in {0, 224, 256, 384, 512}
              ==> unchanged(buffer, dataQueue, `rate, `capacity, `bitsInQueue, `bitsAvailableForSqueezing, `squeezing)
    {
      hide BytesBits, KeccakF, Absorbing;
      var error := false;
      if bitlen == 0 {
        error := InitSponge(1024, 576);
      } else if bitlen == 224 {
        error := InitSponge(1152, 448);
      } else if bitlen == 256 {
        error := InitSponge(1088, 512);
      } else if bitlen == 384 {
        error := InitSponge(832, 768);
      } else if bitlen == 512 {
        error := InitSponge(576, 1024);
      }
      SetLength(bitlen);
    }

    lemma NotSqueezing()
      requires Absorbing()
      ensures !squeezing
    {}

    method SetLength(bitlen: nat)
      modifies `fixedOutputLength
      ensures fixedOutputLength == bitlen && (old(Absorbing()) ==> Absorbing())
    {
      hide BytesBits, KeccakF, AbsorbBlocks, Zeros, QueueBits;
      fixedOutputLength := bitlen;
    }

    /** InitSponge: an empty message, or 1 if rate and capacity do not add up to 1600 in 32 bits or the rate is no multiple
        of 64 between them. */
    method InitSponge(r: Word, c: Word) returns (error: bool)
      requires buffer.Length == 200 && dataQueue.Length == 192 && buffer != dataQueue && tables.Valid()
      modifies this, buffer, dataQueue
      ensures error <==> (r + c) % 0x1_0000_0000 != 1600 || r == 0 || r >= 1600 || r % 64 != 0
      ensures error ==> unchanged(this, buffer, dataQueue)
      ensures !error ==> Absorbing() && Message() == [] && rate == r && capacity == c && fixedOutputLength == 0
    {
      hide BytesBits, KeccakF, AbsorbBlocks, Zeros, QueueBits;
      if (r + c) % 0x1_0000_0000 != 1600 {
        return true;
      }
      if r <= 0 || r >= 1600 || r % 64 != 0 {
        return true;
      }
      error := false;
      rate, capacity := r, c;
      fixedOutputLength := 0;
      ClearBytes(buffer, 0, 200);
      ClearBytes(dataQueue, 0, 192);
      bitsInQueue, squeezing, bitsAvailableForSqueezing := 0, false, 0;
      done, queued := [], [];
      ZeroBuffer(buffer[..], r);
      EmptyQueue(dataQueue[..]);
    }

    /** The bits sha3_update absorbs: whole bytes, then the high bits of the last byte. */
    static function UpdateBits(s: seq<Byte>, length: nat): seq<bool>
      requires length <= 8 * |s|
    {
      if length % 8 == 0 then DataBits(s, length)
      else DataBits(s, length - length % 8) + DataBits([HighBits(s[length / 8], length % 8)], length % 8)
    }

    /** After whole bytes only, the queue holds whole bytes. */
    lemma WholeQueue(s: seq<Byte>)
      requires Absorbing() && Message() == UpdateBits(s, 8 * |s|)
      ensures !squeezing && bitsInQueue % 8 == 0
    {
      hide BytesBits, KeccakF, AbsorbBlocks, QueueBits, Whole;
      assert |Message()| == 8 * |s|;
      WholeBytes(|done|, rate, bitsInQueue, |s|);
    }

    /** sha3_update; the message grows unless it already ended in a partial byte or is being squeezed. */
    method Update(content: array<Byte>, length: nat)
      requires squeezing || Absorbing()
      requires length <= 8 * content.Length && content != buffer && content != dataQueue
      modifies this`bitsInQueue, this`done, this`queued, buffer, dataQueue
      ensures old(!squeezing && bitsInQueue % 8 == 0) ==> Absorbing()
                                                          && Message() == old(Message()) + UpdateBits(content[..], length)
      ensures old(Squeezing()) ==> Squeezing()
      ensures old(!squeezing) ==> Absorbing()
      ensures old(squeezing || bitsInQueue % 8 != 0) ==> Message() == old(Message()) && buffer[..] == old(buffer[..])
                                                         && dataQueue[..] == old(dataQueue[..])
    {
      hide BytesBits, KeccakF, DataBits, Holding, HighBits, Absorbed, Iterate, BlockStart;
      if length % 8 == 0 {
        var error := Absorb(content, length);
      } else {
        UpdatePartial(content, length);
      }
    }

    /** sha3_update for a length that ends in a partial byte. */
    method UpdatePartial(content: array<Byte>, length: nat)
      requires (squeezing || Absorbing()) && length % 8 != 0
      requires length <= 8 * content.Length && content != buffer && content != dataQueue
      modifies this`bitsInQueue, this`done, this`queued, buffer, dataQueue
      ensures old(!squeezing && bitsInQueue % 8 == 0) ==> Absorbing()
                                                          && Message() == old(Message()) + UpdateBits(content[..], length)
      ensures old(Squeezing()) ==> Squeezing()
      ensures old(!squeezing) ==> Absorbing()
      ensures old(squeezing || bitsInQueue % 8 != 0) ==> Message() == old(Message()) && buffer[..] == old(buffer[..])
                                                         && dataQueue[..] == old(dataQueue[..])
    {
      hide BytesBits, KeccakF, DataBits, Holding, HighBits, Absorbed, Iterate, BlockStart, UpdateBits,
           Message;
      UpdateIs(content[..], length);
      var n := length % 8;
      var error := Absorb(content, length - n);
      assert (length - n) % 8 == 0;
      var last := new Byte[1];
      last[0] := HighBits(content[length / 8], n);
      assert last[..] == [last[0]];
      error := Absorb(last, n);
    }

    /** sha3_final: the digest of the message, or the next bits of output if there was one before; nothing is written if
        the digest length is not whole bytes. */
    method Final(result: array<Byte>)
      requires (if squeezing then Squeezing() else Absorbing()) && fixedOutputLength <= 8 * result.Length
               && result != buffer && result != dataQueue
      modifies this, buffer, dataQueue, result
      ensures Squeezing() && Message() == old(Message()) && rate == old(rate)
      ensures var n := old(fixedOutputLength);
              && taken == (if old(squeezing) then old(taken) else 0) + (if n % 8 == 0 then n else 0)
              && (n % 8 == 0 ==> DataBits(result[..], n) == Sponge(Message(), rate, taken)[taken - n..])
              && (n % 8 == 0 && !old(squeezing) ==> DataBits(result[..], n) == Sponge(old(Message()), rate, n))
              && (n % 8 != 0 ==> result[..] == old(result[..]))
    {
      hide BytesBits, KeccakF, AbsorbBlocks, QueueBits, Whole, BlockStart, Sponge, DataBits, Absorbed, Iterate, Absorbing;
      var error := Squeeze(result, fixedOutputLength);
      FromZero(Sponge(Message(), rate, taken));
    }
  }

  lemma FromZero(s: seq<bool>)
    ensures s[0..] == s
  {}

  lemma QueueSize(s: seq<Byte>, q: seq<bool>)
    requires QueueBits(s, q)
    ensures |q| <= 8 * |s|
  {}

  lemma FullQueue(s: seq<Byte>, q: seq<bool>, n: nat)
    requires QueueBits(s, q) && |q| == 8 * n
    ensures n <= |s| && BytesBits(s[0..n]) == q
  {
    hide BytesBits;
    SliceBits(s, 0, n);
  }

  lemma EmptyQueue(s: seq<Byte>)
    ensures QueueBits(s, [])
  {}

  lemma Enqueued(s: seq<Byte>, d: seq<Byte>, q: seq<bool>, t: seq<Byte>)
    requires |s| == |t| && QueueBits(s, q) && |q| % 8 == 0 && |q| / 8 + |d| <= |s|
    requires t[|q| / 8..|q| / 8 + |d|] == d && forall k :: 0 <= k < |s| && !(|q| / 8 <= k < |q| / 8 + |d|) ==> t[k] == s[k]
    ensures QueueBits(t, q + BytesBits(d))
  {
    hide BitOf;
    var n := |q| + 8 * |d|;
    forall k | 0 <= k < n ensures BytesBits(t)[k] == (q + BytesBits(d))[k] {
      if k < |q| {
        assert BytesBits(s)[..|q|][k] == BytesBits(s)[k];
      } else {
        assert (k - |q|) / 8 == k / 8 - |q| / 8 && (k - |q|) % 8 == k % 8;
        assert t[|q| / 8..|q| / 8 + |d|][k / 8 - |q| / 8] == t[k / 8];
      }
    }
    assert BytesBits(t)[..n] == q + BytesBits(d);
  }

  /** How much of the data fits the queue: whole bytes, and the last partial byte. */
  method Portion(left: nat, bitsInQueue: nat, rate: nat) returns (n: nat, partialByte: nat)
    requires left > 0 && bitsInQueue < rate && rate % 64 == 0 && bitsInQueue % 8 == 0
    ensures 0 < 8 * n + partialByte <= left && partialByte < 8 && bitsInQueue + 8 * n <= rate && (bitsInQueue + 8 * n) % 8 == 0
    ensures partialByte > 0 ==> 8 * n + partialByte == left && bitsInQueue + 8 * n < rate
    ensures 8 * n + partialByte == left || bitsInQueue + 8 * n == rate
  {
    var partialBlock := left;
    WholeBytesLeft(rate, bitsInQueue, 0);
    if partialBlock + bitsInQueue > rate {
      partialBlock := rate - bitsInQueue;
    }
    partialByte := partialBlock % 8;
    EightParts(partialBlock);
    n := (partialBlock - partialByte) / 8;
    EightMore(bitsInQueue, n);
  }

  lemma EightParts(n: nat)
    ensures (n - n % 8) / 8 == n / 8 && n == 8 * (n / 8) + n % 8
  {
    QuotientIs(n - n % 8, 8, n / 8, 0);
  }

  lemma EightLess(a: nat, b: nat)
    requires a % 8 == 0 && b % 8 == 0 && b <= a
    ensures (a - b) % 8 == 0
  {
    QuotientIs(a - b, 8, a / 8 - b / 8, 0);
  }

  lemma EightMore(b: nat, n: nat)
    requires b % 8 == 0
    ensures (b + 8 * n) % 8 == 0
  {
    QuotientIs(b + 8 * n, 8, b / 8 + n, 0);
  }

  /** The queue ends inside its last byte. */
  lemma QueueEnd(b: nat, n: nat, r: nat)
    requires b % 8 == 0 && r % 64 == 0 && b < r && 0 < n < 8
    ensures 8 * (b / 8) == b && (b + n) % 8 == n && b + n < r
  {
    EightParts(b);
    QuotientIs(b + n, 8, b / 8, n);
    Lanes(r);
    BelowMultiple(b / 8, 8 * (r / 64), n);
  }

  lemma Lanes(r: nat)
    requires r % 64 == 0
    ensures r == 8 * (8 * (r / 64))
  {}

  lemma BelowMultiple(k: nat, m: nat, n: nat)
    requires 8 * k < 8 * m && n < 8
    ensures 8 * k + n < 8 * m
  {}

  lemma EightAnd(d: nat, p: nat)
    requires p < 8
    ensures (8 * d + p) / 8 == d && (8 * d + p) % 8 == p
  {
    QuotientIs(8 * d + p, 8, d, p);
  }

  lemma WholeBytesLeft(r: nat, b: nat, n: nat)
    requires r % 64 == 0 && b % 8 == 0 && b <= r && 8 * n <= b
    ensures (r - b) % 8 == 0 && 8 * ((r - b) / 8) == r - b && (b - 8 * n) % 8 == 0
  {
    EightParts(b);
    Lanes(r);
    QuotientIs(r - b, 8, 8 * (r / 64) - b / 8, 0);
    QuotientIs(b - 8 * n, 8, b / 8 - n, 0);
  }

  lemma WholeBytes(d: nat, r: nat, b: nat, n: nat)
    requires r > 0 && Whole(d, r) && r % 64 == 0 && d + b == 8 * n
    ensures b % 8 == 0
  {
    var k, m := d / r, r / 64;
    assert d == k * (64 * m);
    Associate(k, 64, m);
    QuotientIs(b, 8, n - 8 * (k * m), 0);
  }

  /** Where block j starts. */
  ghost function BlockStart(i: nat, j: nat, r: nat): int { i + j * r }

  function BlockCount(n: nat, r: nat): nat
    requires r > 0
  {
    QuotientNonnegative(n, r);
    n / r
  }

  lemma BlocksStart(i: nat, n: nat, r: nat)
    requires 0 < r && i + r <= n
    ensures BlockStart(i, 0, r) == i && 1 <= BlockCount(n - i, r)
  {
    QuotientPositive(n - i, r);
  }

  lemma BlocksFit(i: nat, n: nat, r: nat, j: nat)
    requires 0 < r && i <= n && j < BlockCount(n - i, r)
    ensures BlockStart(i, j + 1, r) == BlockStart(i, j, r) + r <= n
  {
    Distribute(j, 1, r);
    MulLe(j + 1, (n - i) / r, r);
  }

  lemma JoinBytes(s: seq<Byte>, c: nat, d: nat, e: nat)
    requires c <= d <= e <= |s|
    ensures BytesBits(s[c..e]) == BytesBits(s[c..d]) + BytesBits(s[d..e])
  {
    hide BytesBits;
    SliceBits(s, c, e - c);
    SliceBits(s, c, d - c);
    SliceBits(s, d, e - d);
    SlicesJoin(BytesBits(s), 8 * c, 8 * d, 8 * e);
  }

  lemma SlicesJoin(b: seq<bool>, p: nat, q: nat, r: nat)
    requires p <= q <= r <= |b|
    ensures b[p..r] == b[p..q] + b[q..r]
  {}

  lemma DataNone(s: seq<Byte>)
    ensures DataBits(s, 0) == []
  {}

  lemma DataSplit(s: seq<Byte>, i: nat, n: nat)
    requires i <= n <= 8 * |s|
    ensures DataBits(s, n) == DataBits(s, i) + DataBits(s, n)[i..]
  {
    hide BytesBits;
  }

  /** Whole bytes of the data. */
  lemma DataBytes(s: seq<Byte>, c: nat, n: nat)
    requires c + n <= |s|
    ensures DataBits(s, 8 * (c + n))[8 * c..] == BytesBits(s[c..c + n])
  {
    hide BytesBits;
    SliceBits(s, c, n);
  }

  /** Whole bytes and n more bits of the data. */
  lemma DataTail(s: seq<Byte>, c: nat, d: nat, n: nat)
    requires c <= d < |s| && n <= 8
    ensures DataBits(s, 8 * d + n)[8 * c..] == DataBits(s, 8 * d)[8 * c..] + DataBits([s[d]], n)
  {
    hide BytesBits;
    SliceBits(s, d, 1);
    assert s[d..d + 1] == [s[d]];
    TakeMore(BytesBits(s), 8 * c, 8 * d, 8 * d + 8, n);
  }

  lemma TakeMore(b: seq<bool>, p: nat, q: nat, r: nat, n: nat)
    requires p <= q && q + n <= r <= |b|
    ensures b[..q + n][p..] == b[..q][p..] + b[q..r][..n]
  {}

  /** m is the low n bits of d. */
  ghost predicate Masked(m: nat, d: Byte, n: nat) {
    forall k: nat :: k < 8 ==> BitOf(m, k) == (k < n && BitOf(d, k))
  }

  lemma MaskedByte(d: Byte, n: nat)
    requires n < 8
    ensures And(d, Two(n) - 1) < 256 && Masked(And(d, Two(n) - 1), d, n)
  {
    hide Two, And, BitOf;
    SmallTwos();
    TwoUp(n, 8);
    var m := And(d, Two(n) - 1);
    AndBound(d, Two(n) - 1, 8);
    forall k: nat | k < 8 ensures BitOf(m, k) == (k < n && BitOf(d, k)) {
      MaskedBit(d, n, k);
    }
  }

  lemma MaskedBit(d: Byte, n: nat, k: nat)
    ensures BitOf(And(d, Two(n) - 1), k) == (k < n && BitOf(d, k))
  {
    hide Two, And, BitOf;
    AndBit(d, Two(n) - 1, k);
    if k < n {
      NotBit(0, n, k);
      NoBits(k);
    } else {
      SmallBit(Two(n) - 1, n, k);
    }
  }

  lemma PartialByte(s: seq<Byte>, q: seq<bool>, d: Byte, n: nat, m: Byte)
    requires QueueBits(s, q) && |q| % 8 == 0 && |q| / 8 < |s| && 0 < n < 8
    requires Masked(m, d, n)
    ensures QueueBits(s[|q| / 8 := m], q + DataBits([d], n))
  {
    hide BitOf;
    var t, p := s[|q| / 8 := m], DataBits([d], n);
    forall k | 0 <= k < |q| ensures BytesBits(t)[k] == q[k] {
      assert BytesBits(s)[..|q|][k] == BytesBits(s)[k];
    }
    forall k | |q| <= k < |q| + 8 ensures BytesBits(t)[k] == (k < |q| + n && p[k - |q|]) {
      EightParts(|q|);
      EightAnd(|q| / 8, k - |q|);
    }
    QuotientIs(|q| + n + 7, 8, |q| / 8 + 1, n - 1);
    assert BytesBits(t)[..|q| + n] == q + p;
  }

  /** Clearing the bytes after the queued bits appends zeros. */
  lemma Cleared(s: seq<Byte>, q: seq<bool>, n: nat, t: seq<Byte>)
    requires QueueBits(s, q) && |q| <= 8 * n <= 8 * |s| && |t| == |s|
    requires forall k :: 0 <= k < |s| ==> t[k] == if (|q| + 7) / 8 <= k < n then 0 else s[k]
    ensures QueueBits(t, q + Zeros(8 * n - |q|))
  {
    hide BitOf;
    forall k | 0 <= k < 8 * n ensures BytesBits(t)[k] == (k < |q| && q[k]) {
      if k / 8 < (|q| + 7) / 8 {
        assert BytesBits(t)[k] == BytesBits(s)[k];
        if k < |q| {
          assert BytesBits(s)[..|q|][k] == BytesBits(s)[k];
        }
      } else {
        NoBits(k % 8);
      }
    }
    assert BytesBits(t)[..8 * n] == q + Zeros(8 * n - |q|);
  }

  lemma PowerBit(j: nat, k: nat)
    ensures BitOf(Two(j), k) == (k == j)
  {
    hide Two, BitOf;
    ScaledBit(1, j, k);
    if k >= j {
      OneBits(k - j);
    }
  }

  lemma OrByte(b: Byte, j: nat)
    requires j < 8
    ensures Or(b, Two(j)) < 256
    ensures forall k :: 0 <= k < 8 ==> BitOf(Or(b, Two(j)), k) == (BitOf(b, k) || k == j)
  {
    hide Two, BitOf, Or;
    SmallTwos();
    TwoLess(j, 8);
    OrBound(b, Two(j), 8);
    forall k | 0 <= k < 8 ensures BitOf(Or(b, Two(j)), k) == (BitOf(b, k) || k == j) {
      OrBit(b, Two(j), k);
      PowerBit(j, k);
    }
  }

  lemma {:induction false} TwoLess(i: nat, n: nat)
    requires i < n
    ensures Two(i) < Two(n)
  {
    if i < n - 1 {
      TwoLess(i, n - 1);
    }
  }

  lemma BitSet(s: seq<Byte>, q: seq<bool>, k: nat, b: Byte)
    requires QueueBits(s, q) && k < |q|
    requires forall j :: 0 <= j < 8 ==> BitOf(b, j) == (BitOf(s[k / 8], j) || j == k % 8)
    ensures QueueBits(s[k / 8 := b], q[k := true])
  {
    hide BitOf;
    var t := s[k / 8 := b];
    forall i | 0 <= i < 8 * |s| ensures BytesBits(t)[i] == (BytesBits(s)[i] || i == k) {
    }
    forall i | 0 <= i < |q| ensures BytesBits(t)[i] == q[k := true][i] {
      assert BytesBits(s)[..|q|][i] == BytesBits(s)[i];
    }
    assert BytesBits(t)[..|q|] == q[k := true];
  }

  /** The bit after a partial byte is clear. */
  lemma PartialZero(s: seq<Byte>, q: seq<bool>)
    requires QueueBits(s, q) && |q| % 8 != 0
    ensures QueueBits(s, q + [false])
  {
    hide BytesBits;
    assert (|q| + 7) / 8 == (|q| + 1 + 7) / 8;
    assert BytesBits(s)[..|q| + 1] == BytesBits(s)[..|q|] + [BytesBits(s)[|q|]];
  }

  /** Both ways of padding give pad10*1. */
  lemma PadIs(d: seq<bool>, q: seq<bool>, r: nat, p: seq<bool>)
    requires 1 < r && Whole(|d|, r) && |q| < r
    requires |q| + 1 == r ==> p == d + (q + [false])[|q| := true] + ([] + Zeros(r))[r - 1 := true]
    requires |q| + 1 < r ==> p == d + (q + Zeros(r - |q|))[|q| := true][r - 1 := true]
    ensures p == d + q + Pad(r, |d + q|)
  {
    PadLength(r, |d|, |q|);
    if |q| + 1 == r {
      assert p == d + q + ([true] + Zeros(r - 1) + [true]);
    } else {
      assert p == d + q + ([true] + Zeros(r - |q| - 2) + [true]);
    }
  }

  lemma FirstBlock(s: State, r: nat)
    ensures BlockStart(0, 1, r) == r && Iterate(s, 0) == s
  {}

  lemma BlocksNext(j: nat, r: nat)
    ensures BlockStart(0, j + 1, r) == BlockStart(0, j, r) + r
  {
    Distribute(j, 1, r);
  }

  /** Output bits that come from one block. */
  lemma StreamSlice(s: State, r: nat, j: nat, p: nat, n: nat)
    requires 0 < r < 1600 && j > 0 && p + n <= r
    ensures var t := BlockStart(0, j, r) - (r - p);
            t >= 0 && Stream(s, r, t + n)[t..] == Iterate(s, j - 1)[..r][p..p + n]
  {
    hide Stream, Iterate;
    MulLe(0, j - 1, r);
    Distribute(j - 1, 1, r);
    var t := (j - 1) * r + p;
    var a, b := Stream(s, r, t + n)[t..], Iterate(s, j - 1)[..r][p..p + n];
    forall k | 0 <= k < n ensures a[k] == b[k] {
      StreamBit(s, r, t + n, t + k);
      QuotientIs(t + k, r, j - 1, p + k);
    }
  }

  /** The partial byte, moved to its low bits. */
  function HighBits(b: Byte, n: nat): Byte
    requires 0 < n < 8
  {
    QuotientNonnegative(b, Two(8 - n));
    b / Two(8 - n)
  }

  lemma SliceOfPrefix(q: seq<Byte>, p: nat, n: nat, r: nat)
    requires p + n <= |q| && 8 * (p + n) <= r <= 8 * |q|
    ensures BytesBits(q[p..p + n]) == BytesBits(q)[..r][8 * p..8 * p + 8 * n]
  {
    hide BytesBits;
    SliceBits(q, p, n);
    SliceOfTake(BytesBits(q), 8 * p, 8 * (p + n), r);
  }

  lemma SliceOfTake(b: seq<bool>, p: nat, q: nat, r: nat)
    requires p <= q <= r <= |b|
    ensures b[..r][p..q] == b[p..q]
  {}

  lemma SamePrefix(s: seq<Byte>, t: seq<Byte>, n: nat)
    requires n <= |s| && n <= |t| && s[0..0 + n] == t[0..0 + n]
    ensures BytesBits(s)[..8 * n] == BytesBits(t)[..8 * n]
  {
    hide BytesBits;
    SliceBits(s, 0, n);
    SliceBits(t, 0, n);
  }

  lemma StreamNone(s: State, r: nat, t: nat)
    requires 0 < r < 1600
    ensures Stream(s, r, t + 0)[t..] == []
  {
    hide Stream;
  }

  lemma OutputGrows(before: seq<Byte>, after: seq<Byte>, c: nat, n: nat)
    requires |before| == |after| && c + n <= |after|
    requires forall k :: 0 <= k < c ==> after[k] == before[k]
    ensures DataBits(after, 8 * (c + n)) == DataBits(before, 8 * c) + BytesBits(after[c..c + n])
  {
    hide BytesBits;
    SliceBits(after, 0, c);
    SliceBits(before, 0, c);
    assert after[0..0 + c] == before[0..0 + c];
    DataBytes(after, c, n);
    DataSplit(after, 8 * c, 8 * (c + n));
  }

  lemma Joined(s: seq<bool>, t: nat, u: nat)
    requires t <= u <= |s|
    ensures s[t..] == s[..u][t..] + s[u..]
  {}

  lemma ZeroBuffer(s: seq<Byte>, r: nat)
    requires |s| == 200 && forall k :: 0 <= k < 200 ==> s[k] == 0
    requires 0 < r < 1600
    ensures BytesBits(s) == AbsorbBlocks(Zeros(1600), [], r)
  {
    hide BitOf;
    forall k | 0 <= k < 1600 ensures !BytesBits(s)[k] {
      NoBits(k % 8);
    }
  }

  /** A message may be cut at any byte: two updates absorb what one absorbs. */
  lemma SplitUpdate(s: seq<Byte>, i: nat, n: nat)
    requires i <= |s| && n <= 8 * (|s| - i)
    ensures Sha3Ctx.UpdateBits(s, 8 * i + n) == Sha3Ctx.UpdateBits(s[..i], 8 * i) + Sha3Ctx.UpdateBits(s[i..], n)
  {
    hide BytesBits, HighBits, DataBits, Sha3Ctx.UpdateBits;
    EightTimes(i, n);
    SplitBytes(s, i, n - n % 8);
    UpdateIs(s, 8 * i + n);
    UpdateIs(s[..i], 8 * i);
    UpdateIs(s[i..], n);
    if n % 8 != 0 {
      assert s[i..][n / 8] == s[i + n / 8];
    }
  }

  /** Those are the n high bits, the lowest of them first, and nothing above. */
  lemma HighBitsAre(b: Byte, n: nat, k: nat)
    requires 0 < n < 8
    ensures BitOf(HighBits(b, n), k) == (k < n && BitOf(b, 8 - n + k))
  {
    hide BitOf, Two;
    ShiftRightBit(b, 8 - n, k);
    if k >= n {
      SmallTwos();
      SmallBit(b, 8, 8 - n + k);
    }
  }

  /** Bit k of what sha3_update absorbs is bit k % 8 of byte k / 8, and in a last partial byte of n bits, bit 8 - n + k % 8. */
  lemma UpdateBitsAre(s: seq<Byte>, length: nat, k: nat)
    requires length <= 8 * |s| && k < length
    ensures |Sha3Ctx.UpdateBits(s, length)| == length && k / 8 < |s|
    ensures var place := if k / 8 < length / 8 then k % 8 else 8 - length % 8 + k % 8;
            Sha3Ctx.UpdateBits(s, length)[k] == BitOf(s[k / 8], place)
  {
    hide BitOf, HighBits;
    EightParts(length);
    EightParts(k);
    if length % 8 != 0 && k / 8 >= length / 8 {
      HighBitsAre(s[length / 8], length % 8, k % 8);
    }
  }

  lemma UpdateIs(s: seq<Byte>, n: nat)
    requires n <= 8 * |s|
    ensures n % 8 == 0 ==> Sha3Ctx.UpdateBits(s, n) == DataBits(s, n)
    ensures n % 8 != 0 ==> Sha3Ctx.UpdateBits(s, n) == DataBits(s, n - n % 8) + DataBits([HighBits(s[n / 8], n % 8)], n % 8)
  {
    hide BytesBits, HighBits, DataBits;
  }

  lemma EightTimes(i: nat, n: nat)
    ensures (8 * i + n) % 8 == n % 8 && (8 * i + n) / 8 == i + n / 8 && 8 * i % 8 == 0
  {
    QuotientIs(8 * i + n, 8, i + n / 8, n % 8);
    QuotientIs(8 * i, 8, i, 0);
  }

  lemma SplitBytes(s: seq<Byte>, i: nat, d: nat)
    requires i <= |s| && d <= 8 * (|s| - i)
    ensures DataBits(s, 8 * i + d) == DataBits(s[..i], 8 * i) + DataBits(s[i..], d)
  {
    hide BytesBits;
    SliceBits(s, 0, i);
    assert s[..i] == s[0..0 + i];
    SliceBits(s, i, |s| - i);
    assert s[i..] == s[i..i + (|s| - i)];
    TakeSum(BytesBits(s), 8 * i, d);
  }

  lemma TakeSum(b: seq<bool>, p: nat, d: nat)
    requires p + d <= |b|
    ensures b[..p + d] == b[..p] + b[p..][..d]
  {}

  /** Two reads of the output give what one read gives. */
  lemma SplitSqueeze(m: seq<bool>, r: nat, t: nat, n: nat, k: nat)
    requires 0 < r < 1600
    ensures Sponge(m, r, t + n)[t..] + Sponge(m, r, t + n + k)[t + n..] == Sponge(m, r, t + n + k)[t..]
  {
    hide Stream, Absorbed;
    StreamPrefix(Absorbed(m, r), r, t + n, t + n + k);
    Joined(Sponge(m, r, t + n + k), t, t + n);
  }

  /** Output up to byte c and the next n bytes are output up to byte c + n. */
  lemma SqueezedMore(before: seq<Byte>, after: seq<Byte>, c: nat, n: nat, m: seq<bool>, r: nat, t: nat)
    requires |before| == |after| && c + n <= |after| && 0 < r < 1600
    requires forall k :: 0 <= k < |after| && !(c <= k < c + n) ==> after[k] == before[k]
    requires DataBits(before, 8 * c) == Sponge(m, r, t + 8 * c)[t..]
    requires BytesBits(after[c..c + n]) == Sponge(m, r, t + 8 * c + 8 * n)[t + 8 * c..]
    ensures DataBits(after, 8 * c + 8 * n) == Sponge(m, r, t + 8 * c + 8 * n)[t..]
  {
    hide BytesBits, Sponge, DataBits;
    OutputGrows(before, after, c, n);
    SplitSqueeze(m, r, t, 8 * c, 8 * n);
  }

  /** An update after whole bytes. */
  lemma UpdateMore(s: seq<Byte>, t: seq<Byte>, n: nat)
    requires n <= 8 * |t|
    ensures Sha3Ctx.UpdateBits(s + t, 8 * |s| + n) == Sha3Ctx.UpdateBits(s, 8 * |s|) + Sha3Ctx.UpdateBits(t, n)
  {
    hide Sha3Ctx.UpdateBits;
    SplitUpdate(s + t, |s|, n);
    assert (s + t)[..|s|] == s && (s + t)[|s|..] == t;
  }

  lemma UpdateNone()
    ensures Sha3Ctx.UpdateBits([], 0) == []
  {}

  /** One more piece after the whole bytes s. */
  method UpdateNext(ctx: Sha3Ctx, piece: array<Byte>, length: nat, ghost s: seq<Byte>)
    requires ctx.Absorbing() && ctx.Message() == Sha3Ctx.UpdateBits(s, 8 * |s|)
    requires length <= 8 * piece.Length && piece != ctx.buffer && piece != ctx.dataQueue
    modifies ctx`bitsInQueue, ctx`done, ctx`queued, ctx.buffer, ctx.dataQueue
    ensures ctx.Absorbing() && ctx.Message() == Sha3Ctx.UpdateBits(s + piece[..], 8 * |s| + length)
  {
    hide Sha3Ctx.Absorbing, Sha3Ctx.Squeezing, Sha3Ctx.Message, Sha3Ctx.UpdateBits;
    UpdateMore(s, piece[..], length);
    ctx.WholeQueue(s);
    ctx.Update(piece, length);
  }

  /** sha3_update for a list of byte pieces. */
  method UpdatePieces(ctx: Sha3Ctx, pieces: seq<array<Byte>>)
    requires ctx.Absorbing() && ctx.Message() == []
    requires forall i :: 0 <= i < |pieces| ==> pieces[i] != ctx.buffer && pieces[i] != ctx.dataQueue
    modifies ctx`bitsInQueue, ctx`done, ctx`queued, ctx.buffer, ctx.dataQueue
    ensures ctx.Absorbing() && ctx.Message() == Sha3Ctx.UpdateBits(Together(pieces), 8 * |Together(pieces)|)
    ensures Together(pieces) == old(Together(pieces))
  {
    hide Sha3Ctx.Absorbing, Sha3Ctx.Squeezing, Sha3Ctx.Message, Together, Sha3Ctx.UpdateBits;
    TogetherNone(pieces);
    UpdateNone();
    for i := 0 to |pieces|
      invariant ctx.Absorbing() && Together(pieces) == old(Together(pieces))
      invariant ctx.Message() == Sha3Ctx.UpdateBits(Together(pieces[..i]), 8 * |Together(pieces[..i])|)
    {
      TogetherStep(pieces, i);
      UpdateNext(ctx, pieces[i], 8 * pieces[i].Length, Together(pieces[..i]));
    }
    assert pieces[..|pieces|] == pieces;
  }

  /** sha3_update for byte pieces and a last piece, and sha3_final. */
  method HashWith(ctx: Sha3Ctx, pieces: seq<array<Byte>>, last: array<Byte>, length: nat, result: array<Byte>)
    requires ctx.Absorbing() && ctx.Message() == [] && length <= 8 * last.Length
    requires ctx.fixedOutputLength % 8 == 0 && ctx.fixedOutputLength <= 8 * result.Length
    requires last !in {ctx.buffer, ctx.dataQueue} && result !in {ctx.buffer, ctx.dataQueue, last} && result !in pieces
    requires forall i :: 0 <= i < |pieces| ==> pieces[i] != ctx.buffer && pieces[i] != ctx.dataQueue
    modifies ctx, ctx.buffer, ctx.dataQueue, result
    ensures ctx.Squeezing() && ctx.rate == old(ctx.rate)
    ensures var s, n := old(Together(pieces)), old(ctx.fixedOutputLength);
            DataBits(result[..], n) == Sponge(Sha3Ctx.UpdateBits(s + old(last[..]), 8 * |s| + length), ctx.rate, n)
  {
    hide Sha3Ctx.Absorbing, Sha3Ctx.Squeezing, Sha3Ctx.Message, Together, Sha3Ctx.UpdateBits, DataBits, Sponge;
    ghost var s := Together(pieces);
    UpdatePieces(ctx, pieces);
    UpdateNext(ctx, last, length, s);
    ctx.NotSqueezing();
    ctx.Final(result);
  }

  /** The digest of a message given in pieces is the sponge of the message, wherever it was cut at whole bytes. */
  method HashPieces(bitlen: nat, pieces: seq<array<Byte>>, last: array<Byte>, length: nat) returns (result: array<Byte>)
    requires bitlen in {224, 256, 384, 512} && length <= 8 * last.Length
    ensures fresh(result) && result.Length == bitlen / 8
    ensures var s := Together(pieces);
            DataBits(result[..], bitlen) == Sponge(Sha3Ctx.UpdateBits(s + last[..], 8 * |s| + length), 1600 - 2 * bitlen, bitlen)
  {
    hide Sha3Ctx.Absorbing, Sha3Ctx.Squeezing, Sha3Ctx.Message, Together, Sha3Ctx.UpdateBits, DataBits, Sponge;
    var ctx := new Sha3Ctx();
    result := new Byte[bitlen / 8];
    ctx.Init(bitlen);
    HashWith(ctx, pieces, last, length, result);
  }
}
