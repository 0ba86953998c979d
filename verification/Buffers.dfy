/** memcpy and memset on byte buffers, and a message in pieces. */
module Buffers {
  import opened Digits

  method CopyBytes(dest: array<Byte>, p: nat, src: array<Byte>, o: nat, n: nat)
    requires p + n <= dest.Length && o + n <= src.Length && (dest == src ==> p == o)
    modifies dest
    ensures dest[p..p + n] == old(src[o..o + n])
    ensures forall k :: 0 <= k < dest.Length && !(p <= k < p + n) ==> dest[k] == old(dest[k])
  {
    ghost var d := src[o..o + n];
    for i := 0 to n
      invariant forall k :: 0 <= k < dest.Length ==> dest[k] == if p <= k < p + i then d[k - p] else old(dest[k])
      invariant forall k :: o + i <= k < o + n ==> src[k] == d[k - o]
    {
      assert src[o + i] == d[i];
      dest[p + i] := src[o + i];
    }
  }

  method ClearBytes(dest: array<Byte>, from: nat, to: nat)
    requires to <= dest.Length
    modifies dest
    ensures forall k :: 0 <= k < dest.Length ==> dest[k] == if from <= k < to then 0 else old(dest[k])
  {
    var i := from;
    while i < to
      invariant from <= i && (if from <= to then i <= to else i == from)
      invariant forall k :: 0 <= k < dest.Length ==> dest[k] == if from <= k < i then 0 else old(dest[k])
    {
      dest[i] := 0;
      i := i + 1;
    }
  }

  /** The bytes of the pieces of a message, in order. */
  ghost function Together(pieces: seq<array<Byte>>): seq<Byte>
    reads set a | a in pieces
  {
    if |pieces| == 0 then [] else Together(pieces[..|pieces| - 1]) + pieces[|pieces| - 1][..]
  }

  lemma TogetherStep(pieces: seq<array<Byte>>, i: nat)
    requires i < |pieces|
    ensures Together(pieces[..i + 1]) == Together(pieces[..i]) + pieces[i][..]
  {
    assert pieces[..i + 1][..i] == pieces[..i];
  }

  lemma TogetherNone(pieces: seq<array<Byte>>)
    ensures Together(pieces[..0]) == []
  {}

  /** Piece i begins at place at[i] of the message and ends where the next one begins. */
  lemma {:induction false} TogetherAre(pieces: seq<array<Byte>>) returns (at: seq<nat>)
    ensures |at| == |pieces| + 1 && at[0] == 0 && at[|pieces|] == |Together(pieces)|
    ensures forall i :: 0 <= i < |pieces| ==>
              at[i + 1] == at[i] + pieces[i].Length <= |Together(pieces)|
              && Together(pieces)[at[i]..at[i + 1]] == pieces[i][..]
  {
    if |pieces| == 0 {
      at := [0];
    } else {
      var n := |pieces| - 1;
      var most := Together(pieces[..n]);
      var before := TogetherAre(pieces[..n]);
      at := before + [before[n] + pieces[n].Length];
      assert Together(pieces) == most + pieces[n][..];
      hide Together;
      forall i | 0 <= i < |pieces|
        ensures at[i + 1] == at[i] + pieces[i].Length <= |Together(pieces)|
                && Together(pieces)[at[i]..at[i + 1]] == pieces[i][..]
      {
        if i < n {
          assert pieces[..n][i] == pieces[i];
          assert (most + pieces[n][..])[at[i]..at[i + 1]] == most[at[i]..at[i + 1]];
        }
      }
    }
  }
}
