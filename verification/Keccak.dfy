/** KeccakF-1600-reference.c: the permutation on an array of 50 words, with its tables filled by loops. */
module Keccak {
  import opened Arith
  import opened Digits
  import opened Bits
  import opened Words
  import opened KeccakSpec
  import opened KeccakWords

  /** _rol: the two words at a + o, rotated. */
  method Rol(result: array<Word>, ro: nat, a: array<Word>, o: nat, length: nat)
    requires ro + 2 <= result.Length && o + 2 <= a.Length && result != a
    modifies result
    ensures result[ro] == RolWord(a[o], a[o + 1], length, 0) && result[ro + 1] == RolWord(a[o], a[o + 1], length, 1)
    ensures forall k :: 0 <= k < result.Length && !(ro <= k < ro + 2) ==> result[k] == old(result[k])
  {
    hide OrWord, Shl, Shr;
    var lenDiv, lenMod := length / 32 % 2, length % 32;
    for i := 0 to 2
      invariant i >= 1 ==> result[ro + lenDiv] == RolWord(a[o], a[o + 1], length, lenDiv)
      invariant i >= 2 ==> result[ro + 1 - lenDiv] == RolWord(a[o], a[o + 1], length, 1 - lenDiv)
      invariant forall k :: 0 <= k < result.Length && !(ro <= k < ro + 2) ==> result[k] == old(result[k])
    {
      if lenMod == 0 {
        result[ro + (i + 2 + lenDiv) % 2] := a[o + i];
      } else {
        result[ro + (i + 2 + lenDiv) % 2] := OrWord(Shl(a[o + i], lenMod), Shr(a[o + (i + 2 - 1) % 2], 32 - lenMod));
      }
    }
  }

  /** One column of theta: its parity, word by word. */
  method Column(A: array<Word>, x: nat, z: nat) returns (c: Word)
    requires A.Length == 50 && x < 5 && z < 2
    ensures c == ColumnWord(A[..], x, z)
  {
    hide Xor;
    c := 0;
    for y := 0 to 5
      invariant c == ColumnWord(A[..], x, z, y)
    {
      c := XorWord(c, A[Index(x, y, z)]);
    }
  }

  /** The first loop of theta: C[x][z] is the parity of column x. */
  method Columns(A: array<Word>) returns (C: array<Word>)
    requires A.Length == 50
    ensures fresh(C) && C.Length == 10 && forall x :: 0 <= x < 5 ==> C[2 * x] == ColumnWord(A[..], x, 0)
                                                                     && C[2 * x + 1] == ColumnWord(A[..], x, 1)
  {
    hide ColumnWord;
    C := new Word[10];
    for x := 0 to 5
      invariant forall u :: 0 <= u < x ==> C[2 * u] == ColumnWord(A[..], u, 0) && C[2 * u + 1] == ColumnWord(A[..], u, 1)
    {
      C[2 * x] := Column(A, x, 0);
      C[2 * x + 1] := Column(A, x, 1);
    }
  }

  /** One round of the second loop of theta. */
  method Effect(D: array<Word>, C: array<Word>, x: nat, ghost w: Lanes)
    requires C.Length == D.Length == 10 && C != D && x < 5
    requires forall u :: 0 <= u < 5 ==> C[2 * u] == ColumnWord(w, u, 0) && C[2 * u + 1] == ColumnWord(w, u, 1)
    modifies D
    ensures D[2 * x] == ThetaEffect(w, x, 0) && D[2 * x + 1] == ThetaEffect(w, x, 1)
    ensures forall k :: 0 <= k < 10 && !(2 * x <= k < 2 * x + 2) ==> D[k] == old(D[k])
  {
    hide ColumnWord, RolWord, XorWord;
    Rol(D, 2 * x, C, (x + 1) % 5 * 2, 1);
    D[2 * x] := XorWord(D[2 * x], C[(x + 4) % 5 * 2]);
    D[2 * x + 1] := XorWord(D[2 * x + 1], C[(x + 4) % 5 * 2 + 1]);
    ColumnPeriod(w, x + 1);
    ColumnPeriod(w, x + 4);
    assert (x + 1) % 5 < 5 && (x + 4) % 5 < 5;
  }

  /** The first two loops of theta: D[x][z] is the word XORed into column x. */
  method ThetaColumns(A: array<Word>) returns (D: array<Word>)
    requires A.Length == 50
    ensures fresh(D) && D.Length == 10 && forall x :: 0 <= x < 5 ==> D[2 * x] == ThetaEffect(A[..], x, 0)
                                                                     && D[2 * x + 1] == ThetaEffect(A[..], x, 1)
  {
    hide ColumnWord, ThetaEffect;
    var C := Columns(A);
    D := new Word[10];
    for x := 0 to 5
      invariant forall u :: 0 <= u < 5 ==> C[2 * u] == ColumnWord(A[..], u, 0) && C[2 * u + 1] == ColumnWord(A[..], u, 1)
      invariant forall u :: 0 <= u < x ==> D[2 * u] == ThetaEffect(A[..], u, 0) && D[2 * u + 1] == ThetaEffect(A[..], u, 1)
    {
      Effect(D, C, x, A[..]);
    }
  }

  lemma {:induction false} ColumnPeriod(w: Lanes, x: nat, n: nat := 5)
    ensures ColumnWord(w, x % 5, 0, n) == ColumnWord(w, x, 0, n) && ColumnWord(w, x % 5, 1, n) == ColumnWord(w, x, 1, n)
  {
    hide Index, XorWord;
    if n > 0 {
      ColumnPeriod(w, x, n - 1);
      IndexPeriod(x, n - 1, 0);
      IndexPeriod(x, n - 1, 1);
    }
  }

  /** The words of the first n lanes, in the order of the loops over x and y, are those of t; the others are those of w. */
  ghost predicate LanesDone(s: seq<Word>, w: Lanes, t: Lanes, n: nat) {
    |s| == 50 && forall i :: 0 <= i < 50 ==> s[i] == if Order(i) < n then t[i] else w[i]
  }

  /** The position of the lane of word i in the loops over x and y. */
  function Order(i: nat): nat { i / 2 % 5 * 5 + i / 10 }

  lemma LanesStart(w: Lanes, t: Lanes)
    ensures LanesDone(w, w, t, 0)
  {}

  lemma LanesEnd(s: seq<Word>, w: Lanes, t: Lanes)
    requires LanesDone(s, w, t, 25)
    ensures s == t
  {}

  lemma LaneStep(s: seq<Word>, w: Lanes, t: Lanes, x: nat, y: nat, s': seq<Word>)
    requires x < 5 && y < 5 && LanesDone(s, w, t, 5 * x + y)
    requires s' == s[Index(x, y, 0) := t[Index(x, y, 0)]][Index(x, y, 1) := t[Index(x, y, 1)]]
    ensures LanesDone(s', w, t, 5 * x + y + 1)
    ensures s[Index(x, y, 0)] == w[Index(x, y, 0)] && s[Index(x, y, 1)] == w[Index(x, y, 1)]
  {
    hide Index;
    IndexIs(x, y, 0);
    IndexIs(x, y, 1);
    forall i | 0 <= i < 50 ensures s'[i] == if Order(i) < 5 * x + y + 1 then t[i] else w[i] {
      OrderInjective(i, x, y);
    }
  }

  lemma OrderInjective(i: nat, x: nat, y: nat)
    requires i < 50 && x < 5 && y < 5
    ensures Order(i) == 5 * x + y <==> i == Index(x, y, 0) || i == Index(x, y, 1)
  {
    hide Index, Order;
    var u, v := i / 2 % 5, i / 10;
    WordCoordinates(i);
    OrderIs(i);
    IndexIs(x, y, 0);
    IndexIs(x, y, 1);
    if 5 * u + v == 5 * x + y {
      LaneNumber(u, v);
      LaneNumber(x, y);
    }
  }

  lemma OrderIs(i: nat)
    ensures Order(i) == 5 * (i / 2 % 5) + i / 10
  {}

  /** The innermost loop of theta: both words of one lane. */
  method XorLane(A: array<Word>, D: array<Word>, x: nat, y: nat)
    requires A.Length == 50 && D.Length == 10 && A != D && x < 5 && y < 5
    modifies A
    ensures var s := old(A[..]);
            var i, j := Index(x, y, 0), Index(x, y, 1);
            A[..] == s[i := XorWord(s[i], D[2 * x])][j := XorWord(s[j], D[2 * x + 1])]
  {
    hide XorWord;
    for z := 0 to 2
      invariant z == 0 ==> A[..] == old(A[..])
      invariant z == 1 ==> A[..] == old(A[..][Index(x, y, 0) := XorWord(A[Index(x, y, 0)], D[2 * x])])
      invariant z == 2 ==> A[..] == old(A[..][Index(x, y, 0) := XorWord(A[Index(x, y, 0)], D[2 * x])][Index(x, y,
                1) := XorWord(A[Index(x, y, 1)], D[2 * x + 1])])
    {
      A[Index(x, y, z)] := XorWord(A[Index(x, y, z)], D[2 * x + z]);
    }
  }

  lemma ThetaWordIs(w: Lanes, x: nat, y: nat, h: nat)
    requires x < 5 && y < 5 && h < 2
    ensures ThetaWords(w)[Index(x, y, h)] == XorWord(w[Index(x, y, h)], ThetaEffect(w, x, h))
  {
    hide XorWord, ThetaEffect, Index;
    IndexIs(x, y, h);
  }

  /** theta. */
  method ThetaStep(A: array<Word>)
    requires A.Length == 50
    modifies A
    ensures A[..] == ThetaWords(old(A[..]))
  {
    hide ThetaEffect, LanesDone, XorWord, Index, ThetaWords;
    ghost var w := A[..];
    ghost var t := ThetaWords(w);
    var D := ThetaColumns(A);
    ghost var d := D[..];
    assert forall x :: 0 <= x < 5 ==> d[2 * x] == ThetaEffect(w, x, 0) && d[2 * x + 1] == ThetaEffect(w, x, 1);
    LanesStart(w, t);
    for x := 0 to 5
      invariant LanesDone(A[..], w, t, 5 * x) && D[..] == d
    {
      assert d[2 * x] == ThetaEffect(w, x, 0) && d[2 * x + 1] == ThetaEffect(w, x, 1);
      for y := 0 to 5
        invariant LanesDone(A[..], w, t, 5 * x + y) && D[..] == d
      {
        assert D[2 * x] == d[2 * x] && D[2 * x + 1] == d[2 * x + 1];
        ghost var s: Lanes := A[..];
        XorLane(A, D, x, y);
        ThetaWordIs(w, x, y, 0);
        ThetaWordIs(w, x, y, 1);
        LaneStep(s, w, t, x, y, s[Index(x, y, 0) := t[Index(x, y, 0)]][Index(x, y, 1) := t[Index(x, y, 1)]]);
      }
    }
    LanesEnd(A[..], w, t);
  }

  /** rho, with a table of offsets below 64. */
  method RhoStep(A: array<Word>, offsets: array<nat>)
    requires A.Length == 50 && offsets.Length == 25 && forall l :: 0 <= l < 25 ==> offsets[l] == LaneOffset(l)
    modifies A
    ensures A[..] == RhoWords(old(A[..]))
  {
    hide LanesDone, RolWord, RhoWords, LaneOffset, Index;
    ghost var w := A[..];
    ghost var t := RhoWords(w);
    var temp := new Word[2];
    LanesStart(w, t);
    for x := 0 to 5
      invariant LanesDone(A[..], w, t, 5 * x)
    {
      for y := 0 to 5
        invariant LanesDone(A[..], w, t, 5 * x + y)
      {
        ghost var s: Lanes := A[..];
        IndexIs(x, y, 0);
        IndexIs(x, y, 1);
        LaneStep(s, w, t, x, y, s[Index(x, y, 0) := t[Index(x, y, 0)]][Index(x, y, 1) := t[Index(x, y, 1)]]);
        RhoWordIs(w, x, y);
        Rol(temp, 0, A, (x + 5 * y) * 2, offsets[x + 5 * y]);
        A[(x + 5 * y) * 2] := temp[0];
        A[(x + 5 * y) * 2 + 1] := temp[1];
        assert A[..] == s[Index(x, y, 0) := t[Index(x, y, 0)]][Index(x, y, 1) := t[Index(x, y, 1)]];
      }
    }
    LanesEnd(A[..], w, t);
  }

  lemma RhoWordIs(w: Lanes, x: nat, y: nat)
    requires x < 5 && y < 5
    ensures var i := Index(x, y, 0);
            && RhoWords(w)[i] == RolWord(w[i], w[i + 1], LaneOffset(5 * y + x), 0)
            && RhoWords(w)[i + 1] == RolWord(w[i], w[i + 1], LaneOffset(5 * y + x), 1)
            && Index(x, y, 1) == i + 1
  {
    hide RolWord, LaneOffset, Index;
    IndexIs(x, y, 0);
    IndexIs(x, y, 1);
  }

  /** The copy loop of pi. */
  method CopyLanes(A: array<Word>) returns (temp: array<Word>)
    requires A.Length == 50
    ensures fresh(temp) && temp[..] == A[..]
  {
    hide LanesDone, Index;
    temp := new Word[50];
    ghost var u: Lanes := temp[..];
    LanesStart(u, A[..]);
    for x := 0 to 5
      invariant LanesDone(temp[..], u, A[..], 5 * x)
    {
      for y := 0 to 5
        invariant LanesDone(temp[..], u, A[..], 5 * x + y)
      {
        ghost var s: Lanes := temp[..];
        LaneStep(s, u, A[..], x, y, s[Index(x, y, 0) := A[Index(x, y, 0)]][Index(x, y, 1) := A[Index(x, y, 1)]]);
        temp[Index(x, y, 0)] := A[Index(x, y, 0)];
        temp[Index(x, y, 1)] := A[Index(x, y, 1)];
        assert temp[..] == s[Index(x, y, 0) := A[Index(x, y, 0)]][Index(x, y, 1) := A[Index(x, y, 1)]];
      }
    }
    LanesEnd(temp[..], u, A[..]);
  }

  /** Lane p of pi goes to lane PiTarget(p). */
  function PiTarget(p: nat): (r: nat)
    requires p < 25
    ensures r < 25
  {
    5 * ((2 * (p % 5) + 3 * (p / 5)) % 5) + p / 5
  }

  lemma PiTargetIs(x: nat, y: nat)
    requires x < 5 && y < 5
    ensures 5 * y + x < 25 && PiTarget(5 * y + x) == 5 * ((2 * x + 3 * y) % 5) + y
  {
    LaneNumber(y, x);
  }

  lemma PiSourceIs(x: nat, y: nat)
    requires x < 5 && y < 5
    ensures 5 * y + x < 25 && PiSource(5 * y + x) == 5 * x + (x + 3 * y) % 5
  {
    LaneNumber(y, x);
  }

  lemma SourceOfTarget(x: nat, y: nat)
    requires x < 5 && y < 5
    ensures PiSource(PiTarget(5 * y + x)) == 5 * y + x
  {
    hide PiSource, PiTarget;
    PiTargetIs(x, y);
    PiSourceIs(y, (2 * x + 3 * y) % 5);
    TargetModulo(x, y);
  }

  lemma TargetOfSource(x: nat, y: nat)
    requires x < 5 && y < 5
    ensures PiTarget(PiSource(5 * y + x)) == 5 * y + x
  {
    hide PiSource, PiTarget;
    PiSourceIs(x, y);
    PiTargetIs((x + 3 * y) % 5, x);
    SourceModulo(x, y);
  }

  lemma PiInverse(p: nat)
    requires p < 25
    ensures PiSource(PiTarget(p)) == p && PiTarget(PiSource(p)) == p
  {
    hide PiSource, PiTarget;
    assert p == 5 * (p / 5) + p % 5;
    SourceOfTarget(p % 5, p / 5);
    TargetOfSource(p % 5, p / 5);
  }

  lemma LaneNumber(y: nat, x: nat)
    requires x < 5
    ensures (5 * y + x) % 5 == x && (5 * y + x) / 5 == y
  {}

  lemma TargetModulo(x: nat, y: nat)
    requires x < 5
    ensures (y + 3 * ((2 * x + 3 * y) % 5)) % 5 == x
  {
    var k := (2 * x + 3 * y) / 5;
    assert y + 3 * ((2 * x + 3 * y) % 5) == x + 5 * (x + 2 * y - 3 * k);
  }

  lemma SourceModulo(x: nat, y: nat)
    requires y < 5
    ensures (2 * ((x + 3 * y) % 5) + 3 * x) % 5 == y
  {
    var k := (x + 3 * y) / 5;
    assert 2 * ((x + 3 * y) % 5) + 3 * x == y + 5 * (x + y - 2 * k);
  }

  /** The lanes whose sources are among the first n of the loops over x and y are in place. */
  ghost predicate PiDone(s: seq<Word>, w: Lanes, n: nat) {
    |s| == 50 && forall i :: 0 <= i < 50 && Order(2 * PiSource(i / 2)) < n ==> s[i] == w[2 * PiSource(i / 2) + i % 2]
  }

  lemma PiStart(s: Lanes, w: Lanes)
    ensures PiDone(s, w, 0)
  {}

  lemma OrderBound(p: nat)
    requires p < 25
    ensures Order(2 * p) < 25
  {
    assert 2 * p / 2 == p && 2 * p / 10 == p / 5;
  }

  lemma PiEnd(s: seq<Word>, w: Lanes)
    requires PiDone(s, w, 25)
    ensures s == PiWords(w)
  {
    hide Order, PiSource;
    forall i | 0 <= i < 50 ensures s[i] == PiWords(w)[i] {
      OrderBound(PiSource(i / 2));
    }
  }

  lemma PiLane(s: seq<Word>, w: Lanes, x: nat, y: nat, s': seq<Word>)
    requires x < 5 && y < 5 && PiDone(s, w, 5 * x + y)
    requires var t, p := PiTarget(5 * y + x), 5 * y + x;
             s' == s[2 * t := w[2 * p]][2 * t + 1 := w[2 * p + 1]]
    ensures PiDone(s', w, 5 * x + y + 1)
  {
    hide Order, PiSource, PiTarget;
    var t, p := PiTarget(5 * y + x), 5 * y + x;
    forall i | 0 <= i < 50 && Order(2 * PiSource(i / 2)) < 5 * x + y + 1 ensures s'[i] == w[2 * PiSource(i / 2) + i % 2] {
      PiInverse(p);
      PiInverse(i / 2);
      SameOrder(PiSource(i / 2), x, y);
    }
  }

  lemma SameOrder(q: nat, x: nat, y: nat)
    requires q < 25 && x < 5 && y < 5
    ensures Order(2 * q) == 5 * x + y <==> q == 5 * y + x
  {
    hide Order;
    OrderIs(2 * q);
    assert 2 * q / 2 == q && 2 * q / 10 == q / 5 && q == 5 * (q / 5) + q % 5;
    if 5 * (q % 5) + q / 5 == 5 * x + y {
      LaneNumber(q % 5, q / 5);
      LaneNumber(x, y);
    }
    LaneNumber(y, x);
  }

  lemma TargetIs(x: nat, y: nat, h: nat)
    requires x < 5 && y < 5 && h < 2
    ensures Index(0 * x + 1 * y, 2 * x + 3 * y, h) == 2 * PiTarget(5 * y + x) + h
    ensures Index(x, y, h) == 2 * (5 * y + x) + h
  {
    hide Index, PiTarget;
    IndexIs(x, y, h);
    IndexIs(y, (2 * x + 3 * y) % 5, h);
    RowPeriod(y, 2 * x + 3 * y, h);
    PiTargetIs(x, y);
  }

  lemma RowPeriod(x: nat, y: nat, h: nat)
    ensures Index(x, y % 5, h) == Index(x, y, h)
  {}

  /** pi. */
  method PiStep(A: array<Word>)
    requires A.Length == 50
    modifies A
    ensures A[..] == PiWords(old(A[..]))
  {
    hide PiDone, PiWords, Index, PiTarget;
    var temp := CopyLanes(A);
    ghost var w: Lanes := A[..];
    PiStart(w, w);
    for x := 0 to 5
      invariant PiDone(A[..], w, 5 * x) && temp[..] == w
    {
      for y := 0 to 5
        invariant PiDone(A[..], w, 5 * x + y) && temp[..] == w
      {
        ghost var s: Lanes := A[..];
        TargetIs(x, y, 0);
        TargetIs(x, y, 1);
        A[Index(0 * x + 1 * y, 2 * x + 3 * y, 0)] := temp[Index(x, y, 0)];
        A[Index(0 * x + 1 * y, 2 * x + 3 * y, 1)] := temp[Index(x, y, 1)];
        PiLane(s, w, x, y, A[..]);
      }
    }
    PiEnd(A[..], w);
  }

  /** The body of the loop of chi: row y from its own old words. */
  method ChiRow(A: array<Word>, y: nat)
    requires A.Length == 50 && y < 5
    modifies A
    ensures forall i :: 0 <= i < 50 ==> A[i] == if i / 10 == y then ChiWord(old(A[..]), i / 2 % 5, y, i % 2) else old(A[i])
  {
    hide ChiWord;
    var C := new Word[10];
    for x := 0 to 5
      invariant A[..] == old(A[..])
      invariant forall k :: 0 <= k < 2 * x ==> C[k] == ChiWord(A[..], k / 2, y, k % 2)
    {
      C[2 * x] := ChiOf(A, x, y, 0);
      C[2 * x + 1] := ChiOf(A, x, y, 1);
    }
    ghost var c := C[..];
    for x := 0 to 5
      invariant C[..] == c
      invariant forall i :: 0 <= i < 50 ==> A[i] == if 10 * y <= i < 10 * y + 2 * x then c[i - 10 * y] else old(A[i])
    {
      RowIndex(x, y);
      A[Index(x, y, 0)] := C[2 * x];
      A[Index(x, y, 1)] := C[2 * x + 1];
    }
    forall i | 0 <= i < 50 && i / 10 == y ensures A[i] == ChiWord(old(A[..]), i / 2 % 5, y, i % 2) {
      assert i == 10 * y + i % 10;
      assert c[i - 10 * y] == ChiWord(old(A[..]), (i - 10 * y) / 2, y, (i - 10 * y) % 2);
      WithinRow(i, y);
    }
  }

  lemma WithinRow(i: nat, y: nat)
    requires i < 50 && i / 10 == y
    ensures (i - 10 * y) / 2 == i / 2 % 5 && (i - 10 * y) % 2 == i % 2
  {
    var r := i - 10 * y;
    QuotientIs(i, 2, 5 * y + r / 2, r % 2);
    QuotientIs(5 * y + r / 2, 5, y, r / 2);
  }

  lemma RowIndex(x: nat, y: nat)
    requires x < 5 && y < 5
    ensures Index(x, y, 0) == 10 * y + 2 * x && Index(x, y, 1) == 10 * y + 2 * x + 1
  {}

  method ChiOf(A: array<Word>, x: nat, y: nat, z: nat) returns (c: Word)
    requires A.Length == 50 && z < 2
    ensures c == ChiWord(A[..], x, y, z)
  {
    hide XorWord, AndWord, NotWord, Index;
    c := XorWord(A[Index(x, y, z)], AndWord(NotWord(A[Index(x + 1, y, z)]), A[Index(x + 2, y, z)]));
  }

  /** chi. */
  method ChiStep(A: array<Word>)
    requires A.Length == 50
    modifies A
    ensures A[..] == ChiWords(old(A[..]))
  {
    hide ChiWord;
    ghost var w: Lanes := A[..];
    for y := 0 to 5
      invariant forall i :: 0 <= i < 50 ==> A[i] == if i / 10 < y then ChiWord(w, i / 2 % 5, i / 10, i % 2) else w[i]
    {
      ghost var s: Lanes := A[..];
      ChiRow(A, y);
      forall i | 0 <= i < 50 && i / 10 == y ensures A[i] == ChiWord(w, i / 2 % 5, y, i % 2) {
        SameRow(s, w, i / 2 % 5, y, i % 2);
      }
    }
  }

  /** Chi reads one row only. */
  lemma SameRow(s: Lanes, w: Lanes, x: nat, y: nat, h: nat)
    requires y < 5 && h < 2 && forall i :: 0 <= i < 50 && i / 10 == y ==> s[i] == w[i]
    ensures ChiWord(s, x, y, h) == ChiWord(w, x, y, h)
  {
    hide XorWord, AndWord, NotWord;
    IndexRow(x, y, h);
    IndexRow(x + 1, y, h);
    IndexRow(x + 2, y, h);
  }

  lemma IndexRow(x: nat, y: nat, h: nat)
    requires y < 5 && h < 2
    ensures Index(x, y, h) / 10 == y
  {}

  /** iota. */
  method IotaStep(A: array<Word>, constants: array<Word>, round: nat)
    requires A.Length == 50 && constants.Length == 48 && round < 24 && A != constants
    modifies A
    ensures A[..] == IotaWords(old(A[..]), constants[2 * round], constants[2 * round + 1])
  {
    hide XorWord;
    A[Index(0, 0, 0)] := XorWord(A[Index(0, 0, 0)], constants[2 * round]);
    A[Index(0, 0, 1)] := XorWord(A[Index(0, 0, 1)], constants[2 * round + 1]);
  }
}
