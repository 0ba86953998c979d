/** When the accounts are what integer arithmetic gives, and what the balance check of transaction_verify compares. */
module Balances {
  import opened Arith
  import opened Layer
  import opened Mainchain
  import opened Accounts

  /** The sender has the tokens of the deal. */
  predicate Covered(list: seq<Entry>, deal: Deal) {
    Find(list, deal.src) < |list| && deal.token <= list[Find(list, deal.src)].token
  }

  /** Every account changed as without wrap-around. */
  ghost predicate Exact(list: seq<Entry>, list': seq<Entry>, deal: Deal) {
    |list'| == |list| && forall j :: 0 <= j < |list| ==> list'[j].token == list[j].token + Change(list[j], deal)
  }

  lemma {:induction false} OneBelowTotal(list: seq<Entry>, i: nat)
    requires i < |list|
    ensures list[i].token <= Total(list)
  {
    if i < |list| - 1 {
      OneBelowTotal(list[..|list| - 1], i);
    }
  }

  lemma {:induction false} TwoBelowTotal(list: seq<Entry>, i: nat, j: nat)
    requires i < j < |list|
    ensures list[i].token + list[j].token <= Total(list)
  {
    var l := list[..|list| - 1];
    if j < |list| - 1 {
      TwoBelowTotal(l, i, j);
    } else {
      OneBelowTotal(l, i);
    }
  }

  /** A covered deal changes one entry as without wrap-around. */
  lemma EntryExact(e: Entry, deal: Deal)
    requires e.token < WRAP && (deal.src == e.device != deal.dst ==> deal.token <= e.token)
    requires deal.dst == e.device != deal.src ==> e.token + deal.token < WRAP
    ensures SettledEntry(e, deal).token == e.token + Change(e, deal)
  {
    var t := e.token - deal.token;
    if deal.src == e.device {
      if deal.dst == e.device {
        BackAgain(e.token, deal.token);
      } else {
        QuotientIs(t, WRAP, 0, t);
      }
    } else if deal.dst == e.device {
      QuotientIs(e.token + deal.token, WRAP, 0, e.token + deal.token);
    }
  }

  lemma BackAgain(x: nat, t: nat)
    requires x < WRAP
    ensures ((x - t) % WRAP + t) % WRAP == x
  {
    var q, r := (x - t) / WRAP, (x - t) % WRAP;
    QuotientIs(r + t, WRAP, -q, x);
  }

  /** A deal between listed devices moves its tokens without wrap-around exactly if the sender covers it or is also the
      receiver. */
  lemma ExactIff(list: seq<Entry>, deal: Deal)
    requires DistinctDevices(list) && Parties(list, deal) && Total(list) < WRAP
    ensures Exact(list, Settled(list, deal), deal) <==> deal.src == deal.dst || Covered(list, deal)
  {
    hide Find, Total, SettledEntry;
    var s, d := Find(list, deal.src), Find(list, deal.dst);
    if deal.src == deal.dst || Covered(list, deal) {
      forall j | 0 <= j < |list| ensures Settled(list, deal)[j].token == list[j].token + Change(list[j], deal) {
        OneBelowTotal(list, j);
        if s < d {
          TwoBelowTotal(list, s, d);
        } else if d < s {
          TwoBelowTotal(list, d, s);
        }
        EntryExact(list[j], deal);
      }
    } else {
      assert Change(list[s], deal) + deal.token == 0;
      assert Settled(list, deal)[s].token >= 0;
    }
  }

  /** Then the sum of all tokens is the same number. */
  lemma ExactTotal(list: seq<Entry>, list': seq<Entry>, deal: Deal)
    requires DistinctDevices(list) && Parties(list, deal) && Exact(list, list', deal)
    ensures Total(list') == Total(list)
  {
    hide Total, Count, Find;
    CountIs(list, Find(list, deal.src));
    CountIs(list, Find(list, deal.dst));
    ExactSum(list, list', deal);
    assert deal.token * 0 == 0;
  }

  lemma {:induction false} ExactSum(list: seq<Entry>, list': seq<Entry>, deal: Deal)
    requires Exact(list, list', deal)
    ensures Total(list') == Total(list) + deal.token * (Count(list, deal.dst) - Count(list, deal.src))
  {
    if |list| > 0 {
      var l, l', e := list[..|list| - 1], list'[..|list| - 1], list[|list| - 1];
      ExactSum(l, l', deal);
      ChangeTerms(deal.token, Count(l, deal.dst) - Count(l, deal.src), if deal.dst == e.device then 1 else 0,
          if deal.src == e.device then 1 else 0);
    }
  }

  /** Every deal of a run moves its tokens without wrap-around. */
  ghost predicate AllExact(list: seq<Entry>, deals: seq<Deal>) {
    forall n :: 0 <= n < |deals| ==> var l := SettledAll(list, deals[..n]); Exact(l, Settled(l, deals[n]), deals[n])
  }

  /** On such a run the sum of all tokens is the same number, not only modulo 2^32. */
  lemma {:induction false} AllExactTotal(list: seq<Entry>, deals: seq<Deal>)
    requires DistinctDevices(list) && AllExact(list, deals) && forall i :: 0 <= i < |deals| ==> Parties(list, deals[i])
    ensures Total(SettledAll(list, deals)) == Total(list)
  {
    hide Total, Settled, Exact, Find;
    if |deals| > 0 {
      var p, d := deals[..|deals| - 1], deals[|deals| - 1];
      forall n | 0 <= n < |p|
        ensures Exact(SettledAll(list, p[..n]), Settled(SettledAll(list, p[..n]), p[n]), p[n]) {
        assert p[..n] == deals[..n] && p[n] == deals[n];
      }
      AllExactTotal(list, p);
      AllConserved(list, p);
      var l := SettledAll(list, p);
      SameFind(list, l, d.src);
      SameFind(list, l, d.dst);
      ExactTotal(l, Settled(l, d), d);
    }
  }

  /** Every deal of a run is covered when its turn comes, or has its sender as the receiver. */
  ghost predicate AllCovered(list: seq<Entry>, deals: seq<Deal>) {
    forall n :: 0 <= n < |deals| ==> deals[n].src == deals[n].dst || Covered(SettledAll(list, deals[..n]), deals[n])
  }

  /** A run moves all its tokens without wrap-around exactly if every deal is covered when its turn comes. */
  lemma {:induction false} AllExactIff(list: seq<Entry>, deals: seq<Deal>)
    requires DistinctDevices(list) && Total(list) < WRAP && forall i :: 0 <= i < |deals| ==> Parties(list, deals[i])
    ensures AllExact(list, deals) <==> AllCovered(list, deals)
  {
    hide Total, Settled, Exact, Find, Covered, AllExact, AllCovered;
    if |deals| == 0 {
      NoDeals(list, deals);
    } else {
      var p, d := deals[..|deals| - 1], deals[|deals| - 1];
      var l := SettledAll(list, p);
      AllExactIff(list, p);
      LastDeal(list, deals);
      if AllExact(list, p) {
        AllExactTotal(list, p);
        AllConserved(list, p);
        SameFind(list, l, d.src);
        SameFind(list, l, d.dst);
        ExactIff(l, d);
      }
    }
  }

  lemma NoDeals(list: seq<Entry>, deals: seq<Deal>)
    requires |deals| == 0
    ensures AllExact(list, deals) && AllCovered(list, deals)
  {}

  lemma LastDeal(list: seq<Entry>, deals: seq<Deal>)
    requires |deals| > 0
    ensures var p, d := deals[..|deals| - 1], deals[|deals| - 1];
            var l := SettledAll(list, p);
            && (AllExact(list, deals) <==> AllExact(list, p) && Exact(l, Settled(l, d), d))
            && (AllCovered(list, deals) <==> AllCovered(list, p) && (d.src == d.dst || Covered(l, d)))
  {
    hide SettledAll, Settled, Exact, Covered;
    var p := deals[..|deals| - 1];
    assert forall n :: 0 <= n < |p| ==> p[..n] == deals[..n] && p[n] == deals[n];
  }

  /** Two deals in turn do so exactly if the first is covered and the second is covered after it. */
  lemma PairExactIff(list: seq<Entry>, d: Deal, e: Deal)
    requires DistinctDevices(list) && Parties(list, d) && Parties(list, e) && Total(list) < WRAP
    ensures AllExact(list, [d, e]) <==> OneCovered(list, d) && NextCovered(list, d, e)
  {
    hide Find, Total, Settled, Exact, AllExact;
    var l := Settled(list, d);
    ExactIff(list, d);
    PairIs(list, d, e);
    if Exact(list, l, d) {
      ExactTotal(list, l, d);
      SettledDevices(list, d);
      SameFind(list, l, e.src);
      SameFind(list, l, e.dst);
      ExactIff(l, e);
      ExactAt(list, l, d, Find(list, e.src));
    }
  }

  ghost predicate OneCovered(list: seq<Entry>, d: Deal) {
    d.src == d.dst || Covered(list, d)
  }

  /** After d the sender of e still has its tokens. */
  ghost predicate NextCovered(list: seq<Entry>, d: Deal, e: Deal)
    requires Parties(list, e)
  {
    var s := list[Find(list, e.src)];
    e.src == e.dst || e.token <= s.token + Change(s, d)
  }

  lemma ExactAt(list: seq<Entry>, list': seq<Entry>, deal: Deal, j: nat)
    requires Exact(list, list', deal) && j < |list|
    ensures |list'| == |list| && list'[j].token == list[j].token + Change(list[j], deal)
  {}

  lemma PairIs(list: seq<Entry>, d: Deal, e: Deal)
    ensures AllExact(list, [d, e])
            <==> Exact(list, Settled(list, d), d) && Exact(Settled(list, d), Settled(Settled(list, d), e), e)
  {
    hide Settled, Exact;
    var deals := [d, e];
    assert deals[..0] == [] && deals[..1] == [] + [d] && deals[0] == d && deals[1] == e;
    SettledMore(list, [], d);
  }

  /** One deal does so exactly if it is covered. */
  lemma OneExactIff(list: seq<Entry>, d: Deal)
    requires DistinctDevices(list) && Parties(list, d) && Total(list) < WRAP
    ensures AllExact(list, [d]) <==> OneCovered(list, d)
  {
    hide Find, Total, Settled, Exact;
    ExactIff(list, d);
    assert [d][..0] == [];
    SettledMore(list, [], d);
  }

  /** The bytes of a key, and so the most that rsa_enc returns. */
  const KEY_LEN: nat := 4

  /** transaction_verify after the address check: the place of the sender has been overwritten by the length that rsa_enc
      returned, so the deal is compared with the entry at that place, or with what lies past the list. */
  function Verdict(list: seq<Entry>, deal: Deal, address: bool, length: nat, past: nat): nat {
    if !address then STATUS_DEVICE
    else if deal.token > (if length < |list| then list[length].token else past) then STATUS_LEDGER
    else STATUS_DONE
  }

  /** For every amount the check gives what a comparison with the sender's tokens would give exactly if the entry at that
      place has as many tokens as the sender. */
  lemma CheckRightIff(list: seq<Entry>, src: nat, dst: nat, length: nat, past: nat)
    requires Find(list, src) < |list| && length < |list|
    ensures (forall t: nat :: var d := Deal(src, dst, t);
                              Verdict(list, d, true, length, past) == STATUS_DONE <==> Covered(list, d))
            <==> list[length].token == list[Find(list, src)].token
  {
    hide Find;
    var x, y := list[length].token, list[Find(list, src)].token;
    if x != y {
      var deal := Deal(src, dst, if x < y then y else x);
      assert (Verdict(list, deal, true, length, past) == STATUS_DONE) != Covered(list, deal);
    }
  }

  /** With any of the lengths 1 to 4 a sender without tokens passes for 5 and is left with 2^32 - 5, and a sender with 9 is
      refused 5 with the length 0. */
  lemma WrongEntry()
    ensures var list := [Entry(1, 0, 0, 0, true), Entry(1, 1, 0, 9, true), Entry(1, 2, 0, 9, true), Entry(1, 3, 0, 9, true),
                         Entry(1, 4, 0, 9, true)];
            var d, e := Deal(0, 1, 5), Deal(1, 0, 5);
            && (forall n :: 1 <= n <= KEY_LEN ==> Verdict(list, d, true, n, 0) == STATUS_DONE)
            && !Covered(list, d) && SettledAll(list, [d])[0].token == WRAP - 5
            && Verdict(list, e, true, 0, 0) == STATUS_LEDGER && Covered(list, e)
  {
    var list := [Entry(1, 0, 0, 0, true), Entry(1, 1, 0, 9, true), Entry(1, 2, 0, 9, true), Entry(1, 3, 0, 9, true),
                 Entry(1, 4, 0, 9, true)];
    var d := Deal(0, 1, 5);
    SettledMore(list, [], d);
    assert [] + [d] == [d];
    QuotientIs(-5, WRAP, -1, WRAP - 5);
    FindFirst(list, 0);
    FindFirst(list, 1);
  }

  lemma FindFirst(list: seq<Entry>, j: nat)
    requires DistinctDevices(list) && j < |list|
    ensures Find(list, list[j].device) == j
  {}

  /** Two deals of 5 tokens, each covered by a balance of 5, leave their sender with 2^32 - 5. */
  lemma SpentTwice()
    ensures var list, d := [Entry(1, 7, 0, 5, true), Entry(1, 8, 0, 0, true)], Deal(7, 8, 5);
            Covered(list, d) && SettledAll(list, [d, d])[0].token == WRAP - 5 && SettledAll(list, [d, d])[1].token == 10
  {
    var list, d := [Entry(1, 7, 0, 5, true), Entry(1, 8, 0, 0, true)], Deal(7, 8, 5);
    var l := [Entry(1, 7, 0, 0, true), Entry(1, 8, 0, 5, true)];
    assert Settled(list, d) == l;
    SettledMore(list, [], d);
    SettledMore(list, [d], d);
    assert [] + [d] == [d] && [d] + [d] == [d, d];
    QuotientIs(-5, WRAP, -1, WRAP - 5);
  }
}
