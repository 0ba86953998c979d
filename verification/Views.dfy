/** The main chain seen from outside: what a queued transaction may do to the tips and the accounts, on values. */
module Views {
  import opened Layer
  import opened Mainchain
  import opened Accounts
  import opened Balances
  import opened Deals

  /** A heavy node is the device itself or in its group. */
  ghost predicate HasHeavy(list: seq<Entry>, device: nat)
    requires Find(list, device) < |list|
  {
    list[Find(list, device)].heavy || exists j :: 0 <= j < |list|
                                                  && list[j].dagIndex == list[Find(list, device)].dagIndex && list[j].heavy
  }

  /** The heavy node that serves a device: the device itself, or else the first one listed in its group. */
  ghost predicate Serves(list: seq<Entry>, device: nat, j: nat)
    requires Find(list, device) < |list|
  {
    var i := Find(list, device);
    j < |list| && list[j].heavy
    && if list[i].heavy then j == i
       else list[j].dagIndex == list[i].dagIndex
            && forall k :: 0 <= k < j ==> !(list[k].dagIndex == list[i].dagIndex && list[k].heavy)
  }

  /** That node's number, or 0 without one. */
  ghost function HeavyFor(list: seq<Entry>, device: nat): nat
    requires Find(list, device) < |list|
  {
    if exists j: nat :: Serves(list, device, j) then
      var j: nat :| Serves(list, device, j);
      list[j].device
    else 0
  }

  lemma HeavyIs(list: seq<Entry>, device: nat, j: nat)
    requires Find(list, device) < |list| && Serves(list, device, j)
    ensures HeavyFor(list, device) == list[j].device
  {
    hide Find;
    assert forall k: nat :: Serves(list, device, k) ==> k == j;
  }

  /** The sender of a deal has a heavy node to be notified through. */
  ghost predicate Served(list: seq<Entry>, deal: Deal) {
    Parties(list, deal) && HasHeavy(list, deal.src)
  }

  /** A link that can have passed verification: its sender has a heavy node and the two checks allow it. */
  ghost predicate Verified(list: seq<Entry>, deal: Deal) {
    Served(list, deal) && MayAnswer(list, deal, STATUS_DONE)
  }

  /** What transaction_verify can answer, for some outcome of the address check and some length from rsa_enc. */
  ghost predicate MayAnswer(list: seq<Entry>, deal: Deal, status: nat) {
    exists address: bool, length: nat, past: nat :: length <= KEY_LEN && Verdict(list, deal, address, length, past) == status
  }

  /** TIP_NUM, the width of the tips. */
  const TIP_NUM: nat := 5

  /** Why verification refuses a deal. */
  ghost predicate Failed(list: seq<Entry>, deal: Deal, status: nat) {
    status in {STATUS_DEVICE, STATUS_LEDGER} && MayAnswer(list, deal, status)
  }

  /** A refusal: the sender has a heavy node, one of the checks fails, and it is told so. */
  ghost predicate Refuses(list: seq<Entry>, deal: Deal, sent: seq<Delivery>, sent': seq<Delivery>) {
    Served(list, deal)
    && exists status: nat :: Failed(list, deal, status)
                             && sent' == sent + [Delivery(HeavyFor(list, deal.src), Notice(status, deal.src, deal.token))]
  }

  /** The notices of a moved deal that wait in the main chain's own queue. */
  ghost function Notices(list: seq<Entry>, deal: Deal): seq<Message> {
    if !Parties(list, deal) then []
    else
      (if HasHeavy(list, deal.src) then [] else [Notice(STATUS_SRC, deal.src, deal.token)])
      + (if HasHeavy(list, deal.dst) then [] else [Notice(STATUS_DST, deal.dst, deal.token)])
  }

  /** Those that go to the queue of a heavy node. */
  ghost function Deliveries(list: seq<Entry>, deal: Deal): seq<Delivery> {
    if !Parties(list, deal) then []
    else
      (if HasHeavy(list, deal.src) then [Delivery(HeavyFor(list, deal.src), Notice(STATUS_SRC, deal.src, deal.token))] else [])
      + (if HasHeavy(list, deal.dst) then [Delivery(HeavyFor(list, deal.dst), Notice(STATUS_DST, deal.dst, deal.token))] else [])
  }

  /** A tip as verification and seeking see it. */
  datatype Tip = Tip(deal: Deal, flag: bool, status: Status)

  /** The tips from the head of the list on, the device list, and the notices handed to devices. */
  datatype View = View(tips: seq<Tip>, list: seq<Entry>, sent: seq<Delivery>)

  function Fresh(deal: Deal): Tip { Tip(deal, false, TIP) }

  /** The tips that have not moved their tokens. */
  function Unmoved(t: seq<Tip>): seq<Tip> {
    if |t| == 0 then [] else Unmoved(t[..|t| - 1]) + if t[|t| - 1].status == TIP then [t[|t| - 1]] else []
  }

  /** Tips none of which is flagged, narrowed at the full width. */
  function Narrowed(t: seq<Tip>): seq<Tip> { if |t| == TIP_NUM then Unmoved(t) else t }

  /** The tips after those at p and q have become part of the graph. */
  function Joined(t: seq<Tip>, p: nat, q: nat): seq<Tip>
    requires p < |t| && q < |t|
  {
    t[p := t[p].(status := DAG)][q := t[q].(status := DAG)]
  }

  /** The deals whose tokens they move. */
  function Due(t: seq<Tip>, p: nat, q: nat): seq<Deal>
    requires p < |t| && q < |t|
  {
    (if t[p].status == TIP then [t[p].deal] else []) + (if q != p && t[q].status == TIP then [t[q].deal] else [])
  }

  /** The notices about them, in the main chain's queue and to devices. */
  ghost function DueNotices(list: seq<Entry>, t: seq<Tip>, p: nat, q: nat): seq<Message>
    requires p < |t| && q < |t|
  {
    (if t[p].status == TIP then Notices(list, t[p].deal) else [])
    + (if q != p && t[q].status == TIP then Notices(list, t[q].deal) else [])
  }

  ghost function DueDeliveries(list: seq<Entry>, t: seq<Tip>, p: nat, q: nat): seq<Delivery>
    requires p < |t| && q < |t|
  {
    (if t[p].status == TIP then Deliveries(list, t[p].deal) else [])
    + (if q != p && t[q].status == TIP then Deliveries(list, t[q].deal) else [])
  }

  /** No tip is rejected. */
  ghost predicate Clear(t: seq<Tip>) { forall i :: 0 <= i < |t| ==> !t[i].flag }

  /** The first rejected tip is at place k. */
  ghost predicate FirstFlag(t: seq<Tip>, k: nat) { k < |t| && t[k].flag && forall j :: 0 <= j < k ==> !t[j].flag }

  /** A queued transaction meets the tips at p and q, both correct, and different if there are two; n are the notices
      that its acceptance leaves in the queue. */
  ghost predicate Meets(v: View, deal: Deal, fate: Fate, w: View, n: seq<Message>, p: nat, q: nat) {
    && p < |v.tips| && q < |v.tips| && (p == q <==> |v.tips| == 1)
    && var a, b := v.tips[p], v.tips[q];
       match fate
       case Stays =>
         w == v && n == [] && (!Served(v.list, a.deal) || (Verified(v.list, a.deal) && !Served(v.list, b.deal)))
       case Leaves =>
         && w.list == v.list && n == []
         && (|| (Refuses(v.list, a.deal, v.sent, w.sent) && w.tips == v.tips[p := a.(flag := true)])
             || (Verified(v.list, a.deal) && Refuses(v.list, b.deal, v.sent, w.sent)
                 && w.tips == v.tips[q := b.(flag := true)]))
       case Enters =>
         && Verified(v.list, a.deal) && Verified(v.list, b.deal)
         && w.tips == Narrowed([Fresh(deal)] + Joined(v.tips, p, q)) && w.list == SettledAll(v.list, Due(v.tips, p, q))
         && n == DueNotices(v.list, v.tips, p, q) && w.sent == v.sent + DueDeliveries(v.list, v.tips, p, q)
  }

  /** What a queued transaction does: it takes over the first rejected tip, starts the graph, or meets two tips. */
  ghost predicate Takes(v: View, deal: Deal, fate: Fate, w: View, n: seq<Message>) {
    if exists k: nat :: FirstFlag(v.tips, k) then
      fate.Enters? && n == [] && exists k: nat :: FirstFlag(v.tips, k) && w == v.(tips := v.tips[k := Fresh(deal)])
    else if v.tips == [] then fate.Enters? && n == [] && w == v.(tips := [Fresh(deal)])
    else exists p: nat, q: nat :: Meets(v, deal, fate, w, n, p, q)
  }

  lemma {:induction false} SomeFlag(t: seq<Tip>, i: nat) returns (k: nat)
    requires i < |t| && t[i].flag
    ensures FirstFlag(t, k)
  {
    if j: nat :| j < i && t[j].flag {
      k := SomeFlag(t, j);
    } else {
      k := i;
    }
  }

  /** A transaction waits only if no tip is rejected and the sender of one tip has no heavy node, and then nothing
      changes. */
  lemma StaysIs(v: View, deal: Deal, w: View, n: seq<Message>)
    requires Takes(v, deal, Stays, w, n)
    ensures w == v && n == [] && (forall i :: 0 <= i < |v.tips| ==> !v.tips[i].flag)
    ensures exists i :: 0 <= i < |v.tips| && !Served(v.list, v.tips[i].deal)
  {
    hide FirstFlag, Served, Verified, Refuses;
    forall i | 0 <= i < |v.tips| ensures !v.tips[i].flag {
      if v.tips[i].flag {
        var k := SomeFlag(v.tips, i);
      }
    }
    var p: nat, q: nat :| Meets(v, deal, Stays, w, n, p, q);
    assert !Served(v.list, v.tips[p].deal) || !Served(v.list, v.tips[q].deal);
  }

  /** A transaction is dropped only if no tip was rejected, and it leaves exactly one that is. */
  lemma LeavesIs(v: View, deal: Deal, w: View, n: seq<Message>)
    requires Takes(v, deal, Leaves, w, n)
    ensures w.list == v.list && |v.tips| > 0 && forall i :: 0 <= i < |v.tips| ==> !v.tips[i].flag
    ensures exists k :: 0 <= k < |v.tips| && w.tips == v.tips[k := v.tips[k].(flag := true)]
  {
    hide FirstFlag, Served, Verified, Refuses;
    forall i | 0 <= i < |v.tips| ensures !v.tips[i].flag {
      if v.tips[i].flag {
        var k := SomeFlag(v.tips, i);
      }
    }
    var p: nat, q: nat :| Meets(v, deal, Leaves, w, n, p, q);
    assert w.tips == v.tips[p := v.tips[p].(flag := true)] || w.tips == v.tips[q := v.tips[q].(flag := true)];
  }

  /** With a rejected tip, or without tips, a transaction enters. */
  lemma EntersAtOnce(v: View, deal: Deal, fate: Fate, w: View, n: seq<Message>)
    requires Takes(v, deal, fate, w, n) && (|v.tips| == 0 || exists i :: 0 <= i < |v.tips| && v.tips[i].flag)
    ensures fate.Enters?
  {
    hide FirstFlag, Meets;
    if i: nat :| i < |v.tips| && v.tips[i].flag {
      var k := SomeFlag(v.tips, i);
    }
  }

  lemma {:induction false} UnmovedFirst(t: seq<Tip>)
    requires |t| > 0 && t[0].status == TIP
    ensures |Unmoved(t)| > 0 && Unmoved(t)[0] == t[0]
  {
    if |t| == 1 {
      assert Unmoved(t[..0]) == [];
    } else {
      UnmovedFirst(t[..|t| - 1]);
    }
  }

  /** Every tip that has not moved its tokens stays, as often as it was there, and no other does. */
  lemma {:induction false} UnmovedIs(t: seq<Tip>, x: Tip)
    ensures multiset(Unmoved(t))[x] == if x.status == TIP then multiset(t)[x] else 0
  {
    if |t| > 0 {
      UnmovedIs(t[..|t| - 1], x);
      assert t == t[..|t| - 1] + [t[|t| - 1]];
    }
  }

  /** A transaction that enters is a tip from then on: in the place of the first rejected one, or at the head. */
  lemma EntersIs(v: View, deal: Deal, w: View, n: seq<Message>)
    requires Takes(v, deal, Enters, w, n)
    ensures (exists k :: 0 <= k < |v.tips| && v.tips[k].flag && (forall j :: 0 <= j < k ==> !v.tips[j].flag)
                         && w == v.(tips := v.tips[k := Tip(deal, false, TIP)]))
            || ((forall i :: 0 <= i < |v.tips| ==> !v.tips[i].flag) && |w.tips| > 0 && w.tips[0] == Tip(deal, false, TIP))
  {
    hide Served, Verified, Refuses, SettledAll, Joined, Unmoved, DueNotices, DueDeliveries;
    if k: nat :| FirstFlag(v.tips, k) {
    } else {
      forall i | 0 <= i < |v.tips| ensures !v.tips[i].flag {
        if v.tips[i].flag {
          var k := SomeFlag(v.tips, i);
        }
      }
      if v.tips != [] {
        var p: nat, q: nat :| Meets(v, deal, Enters, w, n, p, q);
        UnmovedFirst([Fresh(deal)] + Joined(v.tips, p, q));
      }
    }
  }

  /** Only notices have been appended to the queue. */
  ghost predicate Told(q: seq<Message>, q': seq<Message>) {
    q <= q' && forall i :: |q| <= i < |q'| ==> q'[i].Notice?
  }

  /** One message of a queue: transactions do what they do, and other messages change nothing. */
  ghost predicate Received(v: View, m: Message, fate: Fate, w: View, n: seq<Message>) {
    if m.Transfer? then Takes(v, m.deal, fate, w, n) else w == v && n == [] && MayBe(m, fate)
  }

  /** A queue is worked through: what every message meets and leaves. */
  ghost predicate Receives(q: seq<Message>, f: seq<Fate>, vs: seq<View>, ns: seq<seq<Message>>) {
    && |f| == |ns| == |q| && |vs| == |q| + 1
    && forall j :: 0 <= j < |q| ==> Received(vs[j], q[j], f[j], vs[j + 1], ns[j])
  }

  /** The notices of all messages, one after the other. */
  function Flat(ns: seq<seq<Message>>): seq<Message> {
    if |ns| == 0 then [] else Flat(ns[..|ns| - 1]) + ns[|ns| - 1]
  }

  lemma FlatMore(ns: seq<seq<Message>>, n: seq<Message>)
    ensures Flat([]) == [] && Flat(ns + [n]) == Flat(ns) + n
  {
    assert (ns + [n])[..|ns|] == ns;
  }

  lemma ReceivesMore(q: seq<Message>, f: seq<Fate>, vs: seq<View>, ns: seq<seq<Message>>, m: Message, fate: Fate, w: View,
      n: seq<Message>)
    requires Receives(q, f, vs, ns) && Received(vs[|q|], m, fate, w, n)
    ensures Receives(q + [m], f + [fate], vs + [w], ns + [n])
  {
    hide Received;
    var p, g, us, ms := q + [m], f + [fate], vs + [w], ns + [n];
    forall j | 0 <= j < |p| ensures Received(us[j], p[j], g[j], us[j + 1], ms[j]) {
      assert us[j] == vs[j];
      if j < |q| {
        assert Received(vs[j], q[j], f[j], vs[j + 1], ns[j]);
      }
    }
  }

  lemma NoneReceived(vs: seq<View>)
    requires |vs| == 1
    ensures Receives([], [], vs, [])
  {}

  lemma ReceivesNext(q: seq<Message>, j: nat, f: seq<Fate>, vs: seq<View>, ns: seq<seq<Message>>, fate: Fate, w: View,
      n: seq<Message>)
    requires j < |q| && Receives(q[..j], f, vs, ns) && |vs| == j + 1 && Received(vs[j], q[j], fate, w, n)
    ensures Receives(q[..j + 1], f + [fate], vs + [w], ns + [n])
  {
    hide Receives, Received;
    assert q[..j + 1] == q[..j] + [q[j]];
    ReceivesMore(q[..j], f, vs, ns, q[j], fate, w, n);
  }

  lemma NoticeChangesNothing(v: View, m: Message, fate: Fate, w: View, n: seq<Message>)
    requires m.Notice? && Received(v, m, fate, w, n)
    ensures w == v && n == []
  {}

  /** Between transactions nothing changes. */
  lemma {:induction false} Quiet(q: seq<Message>, f: seq<Fate>, vs: seq<View>, ns: seq<seq<Message>>, i: nat, j: nat)
    requires Receives(q, f, vs, ns) && i <= j <= |q| && forall k :: i <= k < j ==> !q[k].Transfer?
    ensures vs[j] == vs[i]
    decreases j - i
  {
    hide Takes;
    if i < j {
      Quiet(q, f, vs, ns, i, j - 1);
      assert Received(vs[j - 1], q[j - 1], f[j - 1], vs[j], ns[j - 1]);
    }
  }

  /** The first transaction of a chain without tips enters. */
  lemma FirstEnters(q: seq<Message>, f: seq<Fate>, vs: seq<View>, ns: seq<seq<Message>>, j: nat)
    requires Receives(q, f, vs, ns) && |vs[0].tips| == 0 && j < |q| && q[j].Transfer?
    requires forall i :: 0 <= i < j ==> !q[i].Transfer?
    ensures f[j].Enters?
  {
    hide Takes;
    Quiet(q, f, vs, ns, 0, j);
    assert Received(vs[j], q[j], f[j], vs[j + 1], ns[j]);
    EntersAtOnce(vs[j], q[j].deal, f[j], vs[j + 1], ns[j]);
  }

  /** When a transaction has been dropped, the next one enters. */
  lemma DroppedThenEnters(q: seq<Message>, f: seq<Fate>, vs: seq<View>, ns: seq<seq<Message>>, i: nat, j: nat)
    requires Receives(q, f, vs, ns) && i < j < |q| && q[i].Transfer? && q[j].Transfer? && f[i].Leaves?
    requires forall k :: i < k < j ==> !q[k].Transfer?
    ensures f[j].Enters?
  {
    hide Takes;
    assert Received(vs[i], q[i], f[i], vs[i + 1], ns[i]);
    LeavesIs(vs[i], q[i].deal, vs[i + 1], ns[i]);
    var k :| 0 <= k < |vs[i].tips| && vs[i + 1].tips == vs[i].tips[k := vs[i].tips[k].(flag := true)];
    assert vs[i + 1].tips[k].flag;
    Quiet(q, f, vs, ns, i + 1, j);
    assert Received(vs[j], q[j], f[j], vs[j + 1], ns[j]);
    EntersAtOnce(vs[j], q[j].deal, f[j], vs[j + 1], ns[j]);
  }

  /** Devices, groups and node kinds are the same. */
  ghost predicate SameNodes(list: seq<Entry>, list': seq<Entry>) {
    && |list| == |list'|
    && forall i :: 0 <= i < |list| ==> list[i].device == list'[i].device && list[i].dagIndex == list'[i].dagIndex
                                       && list[i].heavy == list'[i].heavy
  }

  lemma {:induction false} SettledNodes(list: seq<Entry>, deals: seq<Deal>)
    ensures SameNodes(list, SettledAll(list, deals))
  {
    if |deals| > 0 {
      SettledNodes(list, deals[..|deals| - 1]);
    }
  }

  /** Every listed device has a heavy node. */
  ghost predicate AllHeavy(list: seq<Entry>) {
    forall device: nat :: Find(list, device) < |list| ==> HasHeavy(list, device)
  }

  lemma HeavyKept(list: seq<Entry>, list': seq<Entry>)
    requires SameNodes(list, list') && AllHeavy(list)
    ensures AllHeavy(list')
  {
    hide Find;
    forall device: nat | Find(list', device) < |list'| ensures HasHeavy(list', device) {
      SameFind(list, list', device);
      assert HasHeavy(list, device);
      if j :| 0 <= j < |list| && list[j].dagIndex == list[Find(list, device)].dagIndex && list[j].heavy {
        assert list'[j].heavy;
      }
    }
  }

  ghost predicate TipParties(v: View) { forall i :: 0 <= i < |v.tips| ==> Parties(v.list, v.tips[i].deal) }

  lemma PartiesSame(list: seq<Entry>, list': seq<Entry>, deal: Deal)
    requires SameNodes(list, list')
    ensures Parties(list', deal) <==> Parties(list, deal)
  {
    hide Find;
    SameFind(list, list', deal.src);
    SameFind(list, list', deal.dst);
  }

  lemma {:induction false} UnmovedMembers(t: seq<Tip>)
    ensures forall x :: x in Unmoved(t) ==> x in t
  {
    if |t| > 0 {
      UnmovedMembers(t[..|t| - 1]);
    }
  }

  /** A transaction between listed devices keeps the list of devices and leaves tips between listed devices. */
  lemma TakesKeeps(v: View, deal: Deal, fate: Fate, w: View, n: seq<Message>)
    requires Takes(v, deal, fate, w, n) && TipParties(v) && Parties(v.list, deal)
    ensures SameNodes(v.list, w.list) && TipParties(w)
  {
    hide Served, Verified, Refuses, SettledAll, Parties, Unmoved, DueNotices, DueDeliveries;
    if exists k: nat :: FirstFlag(v.tips, k) {
    } else if v.tips != [] {
      var p: nat, q: nat :| Meets(v, deal, fate, w, n, p, q);
      if fate.Enters? {
        var t := [Fresh(deal)] + Joined(v.tips, p, q);
        SettledNodes(v.list, Due(v.tips, p, q));
        UnmovedMembers(t);
        forall i | 0 <= i < |w.tips| ensures Parties(w.list, w.tips[i].deal) {
          assert w.tips[i] in t;
          var j :| 0 <= j < |t| && t[j] == w.tips[i];
          PartiesSame(v.list, w.list, t[j].deal);
        }
      }
    }
  }

  lemma {:induction false} ReceivesKeeps(q: seq<Message>, f: seq<Fate>, vs: seq<View>, ns: seq<seq<Message>>, j: nat)
    requires Receives(q, f, vs, ns) && j <= |q| && TipParties(vs[0]) && AllHeavy(vs[0].list)
    requires forall i :: 0 <= i < |q| && q[i].Transfer? ==> Parties(vs[0].list, q[i].deal)
    ensures TipParties(vs[j]) && AllHeavy(vs[j].list) && SameNodes(vs[0].list, vs[j].list)
  {
    hide Takes, Parties, AllHeavy;
    if j > 0 {
      ReceivesKeeps(q, f, vs, ns, j - 1);
      assert Received(vs[j - 1], q[j - 1], f[j - 1], vs[j], ns[j - 1]);
      if q[j - 1].Transfer? {
        PartiesSame(vs[0].list, vs[j - 1].list, q[j - 1].deal);
        TakesKeeps(vs[j - 1], q[j - 1].deal, f[j - 1], vs[j], ns[j - 1]);
        HeavyKept(vs[j - 1].list, vs[j].list);
      }
    }
  }

  /** Where every device has a heavy node, no transaction waits. */
  lemma NoneWaits(q: seq<Message>, f: seq<Fate>, vs: seq<View>, ns: seq<seq<Message>>, j: nat)
    requires Receives(q, f, vs, ns) && TipParties(vs[0]) && AllHeavy(vs[0].list)
    requires forall i :: 0 <= i < |q| && q[i].Transfer? ==> Parties(vs[0].list, q[i].deal)
    requires j < |q| && q[j].Transfer?
    ensures !f[j].Stays?
  {
    hide Takes, Find, HasHeavy;
    ReceivesKeeps(q, f, vs, ns, j);
    assert Received(vs[j], q[j], f[j], vs[j + 1], ns[j]);
    if f[j].Stays? {
      StaysIs(vs[j], q[j].deal, vs[j + 1], ns[j]);
    }
  }

  /** The main chain between two turns: its queue, its tips, list and notices sent, dag_number, and the transactions
      taken. */
  datatype Shot = Shot(queue: seq<Message>, view: View, number: nat, taken: seq<Deal>)

  /** A turn of transaction_recv and the wake-up message: behind the messages that stay are the new notices. */
  ghost predicate Worked(s: Shot, s': Shot, f: seq<Fate>, vs: seq<View>, ns: seq<seq<Message>>) {
    && Receives(s.queue, f, vs, ns) && vs[0] == s.view && vs[|s.queue|] == s'.view
    && s'.taken == s.taken + Entered(s.queue, f) && s'.number == s.number
    && s'.queue == Left(s.queue, f) + Flat(ns) + [Wake]
  }

  /** A turn of connect_recv. */
  ghost predicate Connected(s: Shot, s': Shot) {
    && s'.view.tips == s.view.tips && s'.view.sent == s.view.sent && s'.taken == s.taken
    && SameAccounts(s.view.list, s'.view.list)
    && (Numbers(s'.view.list), s'.number) == ConnectAll(s.view.list, Numbers(s.view.list), s.number, Handled(s.queue))
    && Roles(s'.view.list) == RolesAll(s.view.list, Handled(s.queue))
    && s'.queue == Others(s.queue) + [Wake]
  }

  /** A turn of ledger_recv: the queue is cut at the notice that is delivered, if there is one. */
  ghost predicate Delivered(s: Shot, s': Shot, k: nat, device: nat) {
    && k <= |s.queue| && (k < |s.queue| ==> s.queue[k].Notice?)
    && s'.queue == s.queue[..k] && s'.number == s.number && s'.taken == s.taken
    && s'.view == s.view.(sent := s.view.sent + if k < |s.queue| then [Delivery(device, s.queue[k])] else [])
  }

  /** A turn of the main chain, by the message at the head of the queue. */
  ghost predicate Turns(s: Shot, s': Shot) {
    if |s.queue| == 0 then s' == s
    else match s.queue[0]
      case Connect(_) => Connected(s, s')
      case Notice(_, _, _) => exists k: nat, device: nat :: Delivered(s, s', k, device)
      case _ => exists f: seq<Fate>, vs: seq<View>, ns: seq<seq<Message>> :: Worked(s, s', f, vs, ns)
  }

  lemma {:induction false} EnteredFirst(q: seq<Message>, f: seq<Fate>, j: nat)
    requires |f| == |q| && j < |q| && q[j].Transfer? && f[j].Enters?
    requires forall i :: 0 <= i < j ==> !q[i].Transfer?
    ensures |Entered(q, f)| > 0 && Entered(q, f)[0] == q[j].deal
  {
    if j == |q| - 1 {
      NoneEntered(q[..j], f[..j]);
    } else {
      EnteredFirst(q[..|q| - 1], f[..|q| - 1], j);
    }
  }

  lemma {:induction false} NoneEntered(q: seq<Message>, f: seq<Fate>)
    requires |f| == |q| && forall i :: 0 <= i < |q| ==> !q[i].Transfer?
    ensures Entered(q, f) == []
  {
    if |q| > 0 {
      NoneEntered(q[..|q| - 1], f[..|q| - 1]);
    }
  }

  /** A chain without tips takes the first transaction of its queue in its next turn. */
  lemma FirstTaken(s: Shot, s': Shot, j: nat)
    requires Turns(s, s') && |s.view.tips| == 0 && j < |s.queue| && s.queue[j].Transfer?
    requires !s.queue[0].Connect? && !s.queue[0].Notice? && forall i :: 0 <= i < j ==> !s.queue[i].Transfer?
    ensures |s'.taken| > |s.taken| && s'.taken[..|s.taken|] == s.taken && s'.taken[|s.taken|] == s.queue[j].deal
  {
    hide Receives, Entered;
    var f: seq<Fate>, vs: seq<View>, ns: seq<seq<Message>> :| Worked(s, s', f, vs, ns);
    ReceivesLength(s.queue, f, vs, ns);
    FirstEnters(s.queue, f, vs, ns, j);
    EnteredFirst(s.queue, f, j);
  }

  lemma ReceivesLength(q: seq<Message>, f: seq<Fate>, vs: seq<View>, ns: seq<seq<Message>>)
    requires Receives(q, f, vs, ns)
    ensures |f| == |ns| == |q| && |vs| == |q| + 1
  {}

  lemma {:induction false} LeftMembers(q: seq<Message>, f: seq<Fate>, m: Message) returns (i: nat)
    requires |f| == |q| && m in Left(q, f)
    ensures i < |q| && q[i] == m && f[i].Stays?
  {
    var n := |q| - 1;
    if m in Left(q[..n], f[..n]) {
      i := LeftMembers(q[..n], f[..n], m);
    } else {
      i := n;
    }
  }

  lemma TakesNotices(v: View, deal: Deal, fate: Fate, w: View, n: seq<Message>)
    requires Takes(v, deal, fate, w, n)
    ensures forall m :: m in n ==> m.Notice?
  {
    hide HasHeavy, Served, Verified, Refuses, SettledAll, Parties, Narrowed;
  }

  lemma {:induction false} FlatFrom(ns: seq<seq<Message>>, m: Message) returns (j: nat)
    requires m in Flat(ns)
    ensures j < |ns| && m in ns[j]
  {
    var k := |ns| - 1;
    if m in ns[k] {
      j := k;
    } else {
      j := FlatFrom(ns[..k], m);
    }
  }

  /** Only notices are added. */
  lemma ReceivesNotices(q: seq<Message>, f: seq<Fate>, vs: seq<View>, ns: seq<seq<Message>>, m: Message)
    requires Receives(q, f, vs, ns) && m in Flat(ns)
    ensures m.Notice?
  {
    hide Takes, Flat;
    var j := FlatFrom(ns, m);
    assert Received(vs[j], q[j], f[j], vs[j + 1], ns[j]);
    if q[j].Transfer? {
      TakesNotices(vs[j], q[j].deal, f[j], vs[j + 1], ns[j]);
    }
  }

  /** Where every device has a heavy node, no transaction is left in the queue after a turn over it. */
  lemma NoneLeft(s: Shot, s': Shot)
    requires Turns(s, s') && |s.queue| > 0 && !s.queue[0].Connect? && !s.queue[0].Notice?
    requires TipParties(s.view) && AllHeavy(s.view.list)
    requires forall i :: 0 <= i < |s.queue| && s.queue[i].Transfer? ==> Parties(s.view.list, s.queue[i].deal)
    ensures forall m :: m in s'.queue ==> !m.Transfer?
  {
    hide Receives, Entered, TipParties, AllHeavy, Parties, Left, Flat;
    var f: seq<Fate>, vs: seq<View>, ns: seq<seq<Message>> :| Worked(s, s', f, vs, ns);
    ReceivesLength(s.queue, f, vs, ns);
    forall m | m in s'.queue ensures !m.Transfer? {
      if m.Transfer? {
        if m in Flat(ns) {
          ReceivesNotices(s.queue, f, vs, ns, m);
        }
        var i := LeftMembers(s.queue, f, m);
        NoneWaits(s.queue, f, vs, ns, i);
      }
    }
  }
}
