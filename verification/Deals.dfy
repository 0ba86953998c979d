/** The deals behind queued transactions, and what becomes of every message of a queue. */
module Deals {
  import opened Layer
  import opened Mainchain

  /** The queued transactions with these numbers have been taken. */
  ghost predicate Below(serials: seq<nat>, n: nat) {
    forall i :: 0 <= i < |serials| ==> serials[i] < n
  }

  /** The deals of the queued transactions with these numbers. */
  function DealsOf(taken: seq<Deal>, serials: seq<nat>): (d: seq<Deal>)
    requires forall i :: 0 <= i < |serials| ==> serials[i] < |taken|
    ensures |d| == |serials|
  {
    seq(|serials|, i requires 0 <= i < |serials| => taken[serials[i]])
  }

  lemma DealsAppend(taken: seq<Deal>, a: seq<nat>, b: seq<nat>)
    requires Below(a, |taken|) && Below(b, |taken|)
    ensures Below(a + b, |taken|) && DealsOf(taken, a + b) == DealsOf(taken, a) + DealsOf(taken, b)
  {}

  lemma DealsLater(taken: seq<Deal>, taken': seq<Deal>, a: seq<nat>)
    requires taken <= taken' && Below(a, |taken|)
    ensures Below(a, |taken'|) && DealsOf(taken', a) == DealsOf(taken, a)
  {}

  /** The deals of the transactions in a queue. */
  function DealsIn(q: seq<Message>): seq<Deal> {
    if |q| == 0 then []
    else DealsIn(q[..|q| - 1]) + if q[|q| - 1].Transfer? then [q[|q| - 1].deal] else []
  }

  lemma DealsInMore(q: seq<Message>, m: Message)
    ensures DealsIn([]) == [] && DealsIn(q + [m]) == DealsIn(q) + if m.Transfer? then [m.deal] else []
  {
    assert (q + [m])[..|q|] == q;
  }

  lemma {:induction false} DealsInAppend(q: seq<Message>, r: seq<Message>)
    ensures DealsIn(q + r) == DealsIn(q) + DealsIn(r)
  {
    if |r| == 0 {
      assert q + r == q;
    } else {
      var s := r[..|r| - 1];
      DealsInAppend(q, s);
      assert q + r == (q + s) + [r[|r| - 1]];
      DealsInMore(q + s, r[|r| - 1]);
    }
  }

  lemma {:induction false} NoDealsIn(q: seq<Message>)
    requires forall i :: 0 <= i < |q| ==> !q[i].Transfer?
    ensures DealsIn(q) == []
  {
    if |q| > 0 {
      NoDealsIn(q[..|q| - 1]);
    }
  }

  /** What transaction_recv does with a message: it stays, its transaction enters the graph, or it leaves the queue. */
  datatype Fate = Stays | Enters | Leaves

  /** Only transactions enter; wake-up messages leave, and messages of other kinds stay. */
  predicate MayBe(m: Message, f: Fate) {
    match m
    case Transfer(_) => true
    case Wake => f.Leaves?
    case _ => f.Stays?
  }

  ghost predicate Fated(q: seq<Message>, f: seq<Fate>) {
    |f| == |q| && forall i :: 0 <= i < |q| ==> MayBe(q[i], f[i])
  }

  /** The messages that stay, in order. */
  function Left(q: seq<Message>, f: seq<Fate>): seq<Message>
    requires |f| == |q|
  {
    if |q| == 0 then []
    else Left(q[..|q| - 1], f[..|q| - 1]) + if f[|q| - 1].Stays? then [q[|q| - 1]] else []
  }

  /** The deals that enter, in order. */
  function Entered(q: seq<Message>, f: seq<Fate>): seq<Deal>
    requires |f| == |q|
  {
    if |q| == 0 then []
    else
      Entered(q[..|q| - 1], f[..|q| - 1])
      + if f[|q| - 1].Enters? && q[|q| - 1].Transfer? then [q[|q| - 1].deal] else []
  }

  /** The transactions that leave. */
  function Dropped(q: seq<Message>, f: seq<Fate>): nat
    requires |f| == |q|
  {
    if |q| == 0 then 0
    else Dropped(q[..|q| - 1], f[..|q| - 1]) + if f[|q| - 1].Leaves? && q[|q| - 1].Transfer? then 1 else 0
  }

  /** The notices of a refusal among the messages sent to devices. */
  function Refusals(sent: seq<Delivery>): nat {
    if |sent| == 0 then 0
    else Refusals(sent[..|sent| - 1]) + if IsRefusal(sent[|sent| - 1].message) then 1 else 0
  }

  predicate IsRefusal(m: Message) { m.Notice? && m.status in {STATUS_DEVICE, STATUS_LEDGER} }

  lemma RefusalsMore(sent: seq<Delivery>, d: Delivery)
    ensures Refusals([]) == 0 && Refusals(sent + [d]) == Refusals(sent) + if IsRefusal(d.message) then 1 else 0
  {
    assert (sent + [d])[..|sent|] == sent;
  }

  lemma {:induction false} NoRefusals(sent: seq<Delivery>, more: seq<Delivery>)
    requires forall i :: 0 <= i < |more| ==> !IsRefusal(more[i].message)
    ensures Refusals(sent + more) == Refusals(sent)
  {
    if |more| == 0 {
      assert sent + more == sent;
    } else {
      var m := more[..|more| - 1];
      NoRefusals(sent, m);
      assert sent + more == (sent + m) + [more[|more| - 1]];
      RefusalsMore(sent + m, more[|more| - 1]);
    }
  }

  lemma DroppedMore(q: seq<Message>, f: seq<Fate>, m: Message, x: Fate)
    requires |f| == |q|
    ensures Dropped(q + [m], f + [x]) == Dropped(q, f) + if x.Leaves? && m.Transfer? then 1 else 0
  {
    assert (q + [m])[..|q|] == q && (f + [x])[..|q|] == f;
  }

  lemma FateMore(q: seq<Message>, f: seq<Fate>, m: Message, x: Fate)
    requires Fated(q, f) && MayBe(m, x)
    ensures Fated(q + [m], f + [x])
    ensures Left(q + [m], f + [x]) == Left(q, f) + if x.Stays? then [m] else []
    ensures Entered(q + [m], f + [x]) == Entered(q, f) + if x.Enters? then [m.deal] else []
  {
    assert (q + [m])[..|q|] == q && (f + [x])[..|q|] == f;
  }

  lemma NoFates()
    ensures Fated([], []) && Left([], []) == [] && Entered([], []) == [] && Dropped([], []) == 0
  {}

  /** Every transaction that stays or enters was in the queue, and none does both or enters twice. */
  lemma {:induction false} FatesPart(q: seq<Message>, f: seq<Fate>)
    requires Fated(q, f)
    ensures multiset(DealsIn(Left(q, f))) + multiset(Entered(q, f)) <= multiset(DealsIn(q))
  {
    hide DealsIn, Left, Entered;
    NoFates();
    DealsInMore([], Wake);
    if |q| == 0 {
      assert q == [] && f == [];
    } else {
      var p, g, m, x := q[..|q| - 1], f[..|q| - 1], q[|q| - 1], f[|q| - 1];
      assert q == p + [m] && f == g + [x];
      FatesPart(p, g);
      FateMore(p, g, m, x);
      DealsInMore(p, m);
      DealsInMore(Left(p, g), m);
      assert Left(p, g) + [] == Left(p, g) && Entered(p, g) + [] == Entered(p, g);
      if m.Transfer? {
        OneMore(DealsIn(Left(p, g)), Entered(p, g), DealsIn(p), m.deal);
      }
    }
  }

  lemma OneMore(a: seq<Deal>, b: seq<Deal>, c: seq<Deal>, d: Deal)
    requires multiset(a) + multiset(b) <= multiset(c)
    ensures multiset(a + [d]) + multiset(b) <= multiset(c + [d]) && multiset(a) + multiset(b + [d]) <= multiset(c + [d])
    ensures multiset(a) + multiset(b) <= multiset(c + [d])
  {}

  /** What stays keeps its order and its place among the messages of other kinds. */
  lemma {:induction false} LeftIsPart(q: seq<Message>, f: seq<Fate>)
    requires Fated(q, f)
    ensures forall m :: m in Left(q, f) ==> m in q && !m.Wake?
    ensures ConnectsFirst(q) ==> ConnectsFirst(Left(q, f))
  {
    if |q| > 0 {
      var p, g, m, x := q[..|q| - 1], f[..|q| - 1], q[|q| - 1], f[|q| - 1];
      assert q == p + [m] && f == g + [x];
      LeftIsPart(p, g);
      FateMore(p, g, m, x);
      if ConnectsFirst(q) && m.Connect? {
        LeftConnects(p, g);
      }
    }
  }

  lemma LeftConnects(q: seq<Message>, f: seq<Fate>)
    requires Fated(q, f) && forall i :: 0 <= i < |q| ==> q[i].Connect?
    requires forall m :: m in Left(q, f) ==> m in q
    ensures forall i :: 0 <= i < |Left(q, f)| ==> Left(q, f)[i].Connect?
  {
    forall i | 0 <= i < |Left(q, f)| ensures Left(q, f)[i].Connect? {
      assert Left(q, f)[i] in q;
    }
  }

  lemma KeepLast(q: seq<Message>, r: seq<Message>, kept: seq<nat>, gone: seq<int>)
    requires |q| > 0 && Located(q[..|q| - 1], r, kept, gone)
    ensures Located(q, r + [q[|q| - 1]], kept + [|q| - 1], gone + [|kept|])
  {
    assert q[..|q| - 1] + [q[|q| - 1]] == q;
  }

  lemma SkipLast(q: seq<Message>, r: seq<Message>, kept: seq<nat>, gone: seq<int>)
    requires |q| > 0 && Located(q[..|q| - 1], r, kept, gone)
    ensures Located(q, r + [], kept, gone + [-1])
  {
    assert r + [] == r;
  }

  /** The messages that stay are those whose fate is to stay, in order. */
  lemma {:induction false} LeftAre(q: seq<Message>, f: seq<Fate>) returns (kept: seq<nat>, gone: seq<int>)
    requires |f| == |q|
    ensures Located(q, Left(q, f), kept, gone)
    ensures forall k :: 0 <= k < |q| ==> (gone[k] != -1 <==> f[k].Stays?)
  {
    hide Located;
    if |q| == 0 {
      kept, gone := [], [];
      NonePlaced();
    } else {
      var n := |q| - 1;
      kept, gone := LeftAre(q[..n], f[..n]);
      LocatedLengths(q[..n], Left(q[..n], f[..n]), kept, gone);
      if f[n].Stays? {
        KeepLast(q, Left(q[..n], f[..n]), kept, gone);
        kept, gone := kept + [n], gone + [|kept|];
      } else {
        SkipLast(q, Left(q[..n], f[..n]), kept, gone);
        gone := gone + [-1];
      }
    }
  }

  /** The deals that enter are those of the transactions whose fate is to enter, in order. */
  lemma {:induction false} EnteredAre(q: seq<Message>, f: seq<Fate>) returns (at: seq<nat>)
    requires |f| == |q|
    ensures |at| == |Entered(q, f)|
    ensures forall i :: 0 <= i < |at| ==> at[i] < |q| && q[at[i]].Transfer? && f[at[i]].Enters?
                                          && Entered(q, f)[i] == q[at[i]].deal
    ensures forall i, j :: 0 <= i < j < |at| ==> at[i] < at[j]
    ensures forall k :: 0 <= k < |q| && q[k].Transfer? && f[k].Enters? ==> k in at
  {
    if |q| == 0 {
      at := [];
    } else {
      var n := |q| - 1;
      at := EnteredAre(q[..n], f[..n]);
      if f[n].Enters? && q[n].Transfer? {
        at := at + [n];
      }
    }
  }
}
