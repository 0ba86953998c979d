/** The token accounts of the device list, and what a settled deal does to their sum. */
module Accounts {
  import opened Arith
  import opened Modular
  import opened Layer
  import opened Mainchain

  /** Tokens are 32-bit words. */
  const WRAP: nat := 0x1_0000_0000

  /** The "update ledger" lines for one entry. */
  function SettledEntry(e: Entry, deal: Deal): Entry {
    var a := if deal.src == e.device then e.(token := (e.token - deal.token) % WRAP) else e;
    if deal.dst == e.device then a.(token := (a.token + deal.token) % WRAP) else a
  }

  function Settled(list: seq<Entry>, deal: Deal): (l: seq<Entry>)
    ensures |l| == |list|
  {
    seq(|list|, i requires 0 <= i < |list| => SettledEntry(list[i], deal))
  }

  function Total(list: seq<Entry>): nat {
    if |list| == 0 then 0 else Total(list[..|list| - 1]) + list[|list| - 1].token
  }

  /** How many entries a device has. */
  function Count(list: seq<Entry>, device: nat): nat {
    if |list| == 0 then 0 else Count(list[..|list| - 1], device) + if list[|list| - 1].device == device then 1 else 0
  }

  /** The change of one entry. */
  function Change(e: Entry, deal: Deal): int {
    (if deal.dst == e.device then deal.token else 0) - if deal.src == e.device then deal.token else 0
  }

  lemma EntryChange(e: Entry, deal: Deal)
    ensures Cong(SettledEntry(e, deal).token, e.token + Change(e, deal), WRAP)
  {
    hide Cong;
    var t := if deal.src == e.device then e.token - deal.token else e.token;
    CongRefl(e.token, WRAP);
    CongMod(t, WRAP);
    var a := if deal.src == e.device then t % WRAP else t;
    CongRefl(t, WRAP);
    CongRefl(deal.token, WRAP);
    if deal.dst == e.device {
      CongMod(a + deal.token, WRAP);
      CongAdd(a, t, deal.token, deal.token, WRAP);
      CongTrans((a + deal.token) % WRAP, a + deal.token, t + deal.token, WRAP);
    }
  }

  /** Settling a deal changes the sum by its token for each entry of the receiver, less its token for each entry of the sender. */
  lemma {:induction false} SettledTotal(list: seq<Entry>, deal: Deal)
    ensures Cong(Total(Settled(list, deal)), Total(list) + deal.token * (Count(list, deal.dst) - Count(list, deal.src)), WRAP)
  {
    hide Cong, SettledEntry;
    if |list| == 0 {
      CongRefl(0, WRAP);
    } else {
      var l, e := list[..|list| - 1], list[|list| - 1];
      SettledTotal(l, deal);
      assert Settled(list, deal)[..|list| - 1] == Settled(l, deal);
      EntryChange(e, deal);
      CongAdd(Total(Settled(l, deal)), Total(l) + deal.token * (Count(l, deal.dst) - Count(l, deal.src)),
          SettledEntry(e, deal).token, e.token + Change(e, deal), WRAP);
      ChangeTerms(deal.token, Count(l, deal.dst) - Count(l, deal.src), if deal.dst == e.device then 1 else 0,
          if deal.src == e.device then 1 else 0);
    }
  }

  lemma ChangeTerms(t: nat, c: int, d: nat, s: nat)
    requires d <= 1 && s <= 1
    ensures t * (c + d - s) == t * c + (if d == 1 then t else 0) - if s == 1 then t else 0
  {
    Distribute(c, d - s, t);
  }

  /** The sum of all tokens modulo 2^32 stays the same exactly if the surplus of receiving entries moves a multiple of 2^32. */
  lemma TotalKept(list: seq<Entry>, deal: Deal)
    ensures Total(Settled(list, deal)) % WRAP == Total(list) % WRAP <==> Divides(WRAP,
            deal.token * (Count(list, deal.dst) - Count(list, deal.src)))
  {
    hide Cong, Divides, Total, Settled, Count;
    var x, y, c := Total(Settled(list, deal)), Total(list), deal.token * (Count(list, deal.dst) - Count(list, deal.src));
    SettledTotal(list, deal);
    CongIffMod(x, y, WRAP);
    CongIffMod(x, y + c, WRAP);
    SumKept(x, y, c);
  }

  lemma SumKept(x: int, y: int, c: int)
    requires Cong(x, y + c, WRAP)
    ensures Cong(x, y, WRAP) <==> Divides(WRAP, c)
  {
    CongIs(x, y + c, WRAP);
    CongIs(x, y, WRAP);
    if Divides(WRAP, c) {
      DividesSum(WRAP, x - (y + c), c);
    }
    if Cong(x, y, WRAP) {
      DividesSum(WRAP, x - y, x - (y + c));
    }
  }

  /** No device has two entries. */
  ghost predicate DistinctDevices(list: seq<Entry>) {
    forall i, j :: 0 <= i < j < |list| ==> list[i].device != list[j].device
  }

  /** Both sides of the deal are in the list. */
  ghost predicate Parties(list: seq<Entry>, deal: Deal) {
    Find(list, deal.src) < |list| && Find(list, deal.dst) < |list|
  }

  lemma {:induction false} CountIs(list: seq<Entry>, j: nat)
    requires DistinctDevices(list) && j < |list|
    ensures Count(list, list[j].device) == 1
  {
    var l := list[..|list| - 1];
    if j < |list| - 1 {
      CountIs(l, j);
      assert l[j] == list[j];
    } else {
      CountNone(l, list[j].device);
    }
  }

  lemma {:induction false} CountNone(list: seq<Entry>, device: nat)
    requires forall i :: 0 <= i < |list| ==> list[i].device != device
    ensures Count(list, device) == 0
  {
    if |list| > 0 {
      CountNone(list[..|list| - 1], device);
    }
  }

  /** A deal between listed devices moves tokens without making or losing any. */
  lemma Conserved(list: seq<Entry>, deal: Deal)
    requires DistinctDevices(list) && Parties(list, deal)
    ensures Total(Settled(list, deal)) % WRAP == Total(list) % WRAP
  {
    hide Total, Settled, Count, Cong, Find;
    CountIs(list, Find(list, deal.src));
    CountIs(list, Find(list, deal.dst));
    TotalKept(list, deal);
    assert deal.token * 0 == 0;
    DividesMultiple(0, WRAP);
  }

  /** A receiver that is listed while the sender is not makes tokens. */
  lemma UnlistedSenderMakesTokens()
    ensures var list := [Entry(1, 7, 0, 0, true)];
            Total(Settled(list, Deal(8, 7, 5))) % WRAP == 5 && Total(list) % WRAP == 0
  {
    var list := [Entry(1, 7, 0, 0, true)];
    assert list[..0] == [] && Settled(list, Deal(8, 7, 5)) == [Entry(1, 7, 0, 5, true)];
    assert [Entry(1, 7, 0, 5, true)][..0] == [];
  }

  /** Devices keep their places. */
  ghost predicate SameDevices(list: seq<Entry>, list': seq<Entry>) {
    |list| == |list'| && forall i :: 0 <= i < |list| ==> list[i].device == list'[i].device
  }

  lemma {:induction false} SameFind(list: seq<Entry>, list': seq<Entry>, device: nat)
    requires SameDevices(list, list')
    ensures Find(list, device) == Find(list', device)
  {
    if |list| > 0 {
      SameFind(list[1..], list'[1..], device);
    }
  }

  /** The "update ledger" loop. */
  method Settle(list: array<Entry>, deal: Deal)
    modifies list
    ensures list[..] == Settled(old(list[..]), deal)
  {
    hide SettledEntry;
    ghost var l := list[..];
    for i := 0 to list.Length
      invariant forall k :: 0 <= k < list.Length ==> list[k] == if k < i then SettledEntry(l[k], deal) else l[k]
    {
      list[i] := SettleEntry(list[i], deal);
    }
  }

  method SettleEntry(e: Entry, deal: Deal) returns (r: Entry)
    ensures r == SettledEntry(e, deal)
  {
    r := e;
    if deal.src == r.device {
      r := r.(token := (r.token - deal.token) % WRAP);
    }
    if deal.dst == r.device {
      r := r.(token := (r.token + deal.token) % WRAP);
    }
  }

  lemma SettledDevices(list: seq<Entry>, deal: Deal)
    ensures SameDevices(list, Settled(list, deal))
  {}

  /** The list after a run of deals. */
  function SettledAll(list: seq<Entry>, deals: seq<Deal>): (l: seq<Entry>)
    ensures |l| == |list|
  {
    if |deals| == 0 then list else Settled(SettledAll(list, deals[..|deals| - 1]), deals[|deals| - 1])
  }

  lemma SettledMore(list: seq<Entry>, deals: seq<Deal>, deal: Deal)
    ensures SettledAll(list, []) == list && SettledAll(list, deals + [deal]) == Settled(SettledAll(list, deals), deal)
  {
    hide Settled;
    assert (deals + [deal])[..|deals|] == deals;
  }

  lemma {:induction false} SettledAllAppend(list: seq<Entry>, a: seq<Deal>, b: seq<Deal>)
    ensures SettledAll(list, a + b) == SettledAll(SettledAll(list, a), b)
  {
    hide Settled;
    if |b| == 0 {
      assert a + b == a;
    } else {
      var c := b[..|b| - 1];
      SettledAllAppend(list, a, c);
      assert (a + b)[..|a + b| - 1] == a + c;
    }
  }

  /** No run of deals between listed devices makes or loses tokens. */
  lemma {:induction false} AllConserved(list: seq<Entry>, deals: seq<Deal>)
    requires DistinctDevices(list) && forall i :: 0 <= i < |deals| ==> Parties(list, deals[i])
    ensures Total(SettledAll(list, deals)) % WRAP == Total(list) % WRAP
    ensures SameDevices(list, SettledAll(list, deals)) && DistinctDevices(SettledAll(list, deals))
  {
    hide Total, Settled, Find;
    if |deals| > 0 {
      var d, l := deals[|deals| - 1], SettledAll(list, deals[..|deals| - 1]);
      AllConserved(list, deals[..|deals| - 1]);
      SameFind(list, l, d.src);
      SameFind(list, l, d.dst);
      Conserved(l, d);
      SettledDevices(l, d);
    }
  }

  lemma {:induction false} SettledAllDevices(list: seq<Entry>, deals: seq<Deal>)
    ensures SameDevices(list, SettledAll(list, deals))
  {
    hide Settled;
    if |deals| > 0 {
      SettledAllDevices(list, deals[..|deals| - 1]);
      SettledDevices(SettledAll(list, deals[..|deals| - 1]), deals[|deals| - 1]);
    }
  }
}
