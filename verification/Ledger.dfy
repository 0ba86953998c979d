/** transaction_recv: how queued transactions enter the graph and when their tokens move. */
module Ledger {
  import opened Modular
  import opened Layer
  import Groups
  import opened Mainchain
  import opened Accounts
  import opened Balances
  import opened Deals
  import opened Views

  ghost predicate Distinct(nodes: seq<Transaction>) {
    forall i, j :: 0 <= i < j < |nodes| ==> nodes[i] != nodes[j]
  }

  /** The links of every node lead to nodes made before it. */
  ghost predicate EarlierLinks(nodes: seq<Transaction>) {
    forall i :: 0 <= i < |nodes| ==> Children(nodes[i]) <= Elements(nodes[..i])
  }

  /** The nodes made before node i are closed under links. */
  lemma PrefixClosed(nodes: seq<Transaction>, i: nat)
    requires EarlierLinks(nodes) && i <= |nodes|
    ensures Closed(Elements(nodes[..i]))
  {
    hide EarlierLinks;
    forall x | x in Elements(nodes[..i]) ensures Children(x) <= Elements(nodes[..i]) {
      var j :| 0 <= j < i && nodes[j] == x;
      LinksOf(nodes, j);
      assert nodes[..j] <= nodes[..i];
    }
    ChildrenClosed(Elements(nodes[..i]));
  }

  lemma LinksOf(nodes: seq<Transaction>, j: nat)
    requires EarlierLinks(nodes) && j < |nodes|
    ensures Children(nodes[j]) <= Elements(nodes[..j])
  {}

  lemma ChildrenClosed(c: set<Transaction>)
    requires forall x :: x in c ==> Children(x) <= c
    ensures Closed(c)
  {}

  /** The graph has no cycle: no node can be reached from the nodes it links to. */
  lemma Acyclic(nodes: seq<Transaction>, x: Transaction, t: Transaction)
    requires Distinct(nodes) && EarlierLinks(nodes) && x in nodes && t in Children(x)
    ensures Closed(Elements(nodes)) && t in nodes && x !in Reach(t, Elements(nodes))
  {
    hide EarlierLinks, Closed;
    var i :| 0 <= i < |nodes| && nodes[i] == x;
    PrefixClosed(nodes, i);
    PrefixClosed(nodes, |nodes|);
    assert nodes[..|nodes|] == nodes;
    LinksOf(nodes, i);
    var c := Elements(nodes[..i]);
    assert t in c && c <= Elements(nodes) && x !in c;
  }

  ghost function Serials(nodes: seq<Transaction>): (s: seq<nat>)
    reads nodes`serial
    ensures |s| == |nodes| && forall i :: 0 <= i < |nodes| ==> s[i] == nodes[i].serial
  {
    if |nodes| == 0 then [] else Serials(nodes[..|nodes| - 1]) + [nodes[|nodes| - 1].serial]
  }

  ghost function Statuses(nodes: seq<Transaction>): (s: seq<Status>)
    reads nodes`status
    ensures |s| == |nodes| && forall i :: 0 <= i < |nodes| ==> s[i] == nodes[i].status
  {
    if |nodes| == 0 then [] else Statuses(nodes[..|nodes| - 1]) + [nodes[|nodes| - 1].status]
  }

  /** Every queued transaction has moved its tokens at most once, and only the tips still may. */
  ghost predicate Once(serials: seq<nat>, statuses: seq<Status>, moved: seq<nat>, n: nat) {
    && |serials| == |statuses|
    && (forall i :: 0 <= i < |serials| ==> serials[i] < n)
    && (forall i, j :: 0 <= i < j < |serials| ==> serials[i] != serials[j])
    && (forall i :: 0 <= i < |moved| ==> moved[i] < n)
    && (forall i, j :: 0 <= i < j < |moved| ==> moved[i] != moved[j])
    && (forall i :: 0 <= i < |serials| ==> (statuses[i] == TIP <==> serials[i] !in moved))
  }

  /** A node is given to a new queued transaction. */
  lemma OnceReused(serials: seq<nat>, statuses: seq<Status>, moved: seq<nat>, n: nat, i: nat)
    requires Once(serials, statuses, moved, n) && i < |serials|
    ensures Once(serials[i := n], statuses[i := TIP], moved, n + 1)
  {}

  /** A node is made for a new queued transaction. */
  lemma OnceAdded(serials: seq<nat>, statuses: seq<Status>, moved: seq<nat>, n: nat)
    requires Once(serials, statuses, moved, n)
    ensures Once(serials + [n], statuses + [TIP], moved, n + 1)
  {}

  /** A tip's tokens are moved. */
  lemma OnceMoved(serials: seq<nat>, statuses: seq<Status>, moved: seq<nat>, n: nat, i: nat)
    requires Once(serials, statuses, moved, n) && i < |serials| && statuses[i] == TIP
    ensures Once(serials, statuses[i := DAG], moved + [serials[i]], n)
  {}

  /** The parties of every node's deal are listed. */
  ghost predicate AllParties(list: seq<Entry>, nodes: seq<Transaction>)
    reads nodes`deal
  {
    forall x :: x in nodes ==> Parties(list, x.deal)
  }

  /** Every node carries the deal that was queued under its number. */
  ghost predicate Recorded(nodes: seq<Transaction>, taken: seq<Deal>)
    reads nodes`serial, nodes`deal
  {
    forall x :: x in nodes ==> x.serial < |taken| && taken[x.serial] == x.deal
  }

  /** The invariant of the graph and the accounts. */
  ghost predicate Valid(chain: Chain)
    reads chain, chain.list, chain.nodes, chain.tips
  {
    && Distinct(chain.nodes) && EarlierLinks(chain.nodes) && Linked(chain.dag, chain.tips)
    && (forall x :: x in chain.tips ==> x in chain.nodes)
    && Once(Serials(chain.nodes), Statuses(chain.nodes), chain.moved, |chain.taken|)
    && AllParties(chain.list[..], chain.nodes) && Recorded(chain.nodes, chain.taken)
  }

  lemma PlaceOfNode(nodes: seq<Transaction>, x: Transaction) returns (i: nat)
    requires x in nodes
    ensures i < |nodes| && nodes[i] == x
  {
    i :| 0 <= i < |nodes| && nodes[i] == x;
  }

  /** The search for a tip with a flag. */
  method ErrorTip(dag: Transaction?, ghost tips: seq<Transaction>) returns (x: Transaction?, ghost k: nat)
    requires Linked(dag, tips)
    ensures x == null ==> forall y :: y in tips ==> !y.flag
    ensures x != null ==> k < |tips| && x == tips[k] && x.flag && forall j :: 0 <= j < k ==> !tips[j].flag
  {
    x := dag;
    k := 0;
    while x != null && !x.flag
      invariant k <= |tips| && x == (if k < |tips| then tips[k] else null)
      invariant forall j :: 0 <= j < k ==> !tips[j].flag
      decreases |tips| - k
    {
      NextIs(dag, tips, k);
      x := x.next;
      k := k + 1;
    }
  }

  /** A node as others see it. */
  ghost function TipOf(x: Transaction): Tip
    reads x
  {
    Tip(x.deal, x.flag, x.status)
  }

  ghost function TipsOf(tips: seq<Transaction>): (t: seq<Tip>)
    reads tips
    ensures |t| == |tips| && forall i :: 0 <= i < |t| ==> t[i] == TipOf(tips[i])
  {
    if |tips| == 0 then [] else TipsOf(tips[..|tips| - 1]) + [TipOf(tips[|tips| - 1])]
  }

  ghost function ViewOf(chain: Chain): View
    reads chain`tips, chain`sent, chain.list, chain.tips
  {
    View(TipsOf(chain.tips), chain.list[..], chain.sent)
  }

  /** Changing one node changes one place. */
  lemma OneSerial(nodes: seq<Transaction>, i: nat, s: seq<nat>)
    requires i < |nodes| == |s| && forall j :: 0 <= j < |nodes| && j != i ==> nodes[j].serial == s[j]
    ensures Serials(nodes) == s[i := nodes[i].serial]
  {
    hide Serials;
  }

  lemma OneStatus(nodes: seq<Transaction>, i: nat, s: seq<Status>)
    requires i < |nodes| == |s| && forall j :: 0 <= j < |nodes| && j != i ==> nodes[j].status == s[j]
    ensures Statuses(nodes) == s[i := nodes[i].status]
  {
    hide Statuses;
  }

  lemma OtherNodes(nodes: seq<Transaction>, i: nat)
    requires Distinct(nodes) && i < |nodes|
    ensures forall j :: 0 <= j < |nodes| && j != i ==> nodes[j] != nodes[i]
  {}

  /** A rejected tip is overwritten with the queued transaction. */
  method Reuse(chain: Chain, x: Transaction, deal: Deal, ghost k: nat)
    requires Valid(chain) && x in chain.tips && Parties(chain.list[..], deal)
    requires k < |chain.tips| && chain.tips[k] == x && x.flag && forall j :: 0 <= j < k ==> !chain.tips[j].flag
    modifies chain`taken, x
    ensures Valid(chain) && x.deal == deal && x.status == TIP && !x.flag && x.serial == |old(chain.taken)|
            && chain.taken == old(chain.taken) + [deal]
    ensures x.next == old(x.next)
    ensures Takes(old(ViewOf(chain)), deal, Enters, ViewOf(chain), [])
  {
    hide Once, Linked, Parties, EarlierLinks, Serials, Statuses, Distinct, Takes, TipsOf;
    ghost var nodes, t := chain.nodes, TipsOf(chain.tips);
    ghost var i := PlaceOfNode(nodes, x);
    TipsDiffer(chain);
    OtherNodes(chain.tips, k);
    OtherNodes(nodes, i);
    ghost var ss, st := Serials(nodes), Statuses(nodes);
    OnceReused(ss, st, chain.moved, |chain.taken|, i);
    x.deal := deal;
    x.status := TIP;
    x.flag := false;
    x.serial := |chain.taken|;
    chain.taken := chain.taken + [deal];
    OneSerial(nodes, i, ss);
    OneStatus(nodes, i, st);
    ReusedTakes(chain.tips, t, k, chain.list[..], chain.sent, deal);
  }

  ghost function ShotOf(chain: Chain): Shot
    reads chain`queue, chain`tips, chain`dagNumber, chain`taken, chain`sent, chain.list, chain.tips
  {
    Shot(chain.queue, ViewOf(chain), chain.dagNumber, chain.taken)
  }

  lemma PartiesKept(list: seq<Entry>, list': seq<Entry>, deal: Deal)
    requires SameDevices(list, list')
    ensures Parties(list, deal) <==> Parties(list', deal)
  {
    hide Find;
    SameFind(list, list', deal.src);
    SameFind(list, list', deal.dst);
  }

  lemma AllPartiesKept(list: seq<Entry>, list': seq<Entry>, nodes: seq<Transaction>)
    requires SameDevices(list, list') && AllParties(list, nodes)
    ensures AllParties(list', nodes)
  {
    hide Parties, SameDevices;
    forall x | x in nodes ensures Parties(list', x.deal) {
      PartiesKept(list, list', x.deal);
    }
  }

  /** "modify trunk/branch with dag": a node that is not yet in the graph moves its tokens. */
  method MoveTokens(chain: Chain, x: Transaction)
    requires Valid(chain) && x in chain.nodes && x.status == TIP
    modifies x`status, chain`moved, chain.list
    ensures Valid(chain) && x.status == DAG
    ensures chain.list[..] == Settled(old(chain.list[..]), x.deal) && chain.moved == old(chain.moved) + [x.serial]
  {
    hide Once, Linked, Parties, EarlierLinks, Serials, Statuses, Distinct, Settled, AllParties, SameDevices;
    ghost var nodes, l := chain.nodes, chain.list[..];
    ghost var i := PlaceOfNode(nodes, x);
    OtherNodes(nodes, i);
    ghost var ss, st := Serials(nodes), Statuses(nodes);
    OnceMoved(ss, st, chain.moved, |chain.taken|, i);
    x.status := DAG;
    OneStatus(nodes, i, st);
    Settle(chain.list, x.deal);
    SettledDevices(l, x.deal);
    AllPartiesKept(l, chain.list[..], nodes);
    chain.moved := chain.moved + [x.serial];
  }

  lemma LinkedFront(x: Transaction, head: Transaction?, tips: seq<Transaction>)
    requires Linked(head, tips) && x !in tips && x.next == head
    ensures Linked(x, [x] + tips)
  {
    var t := [x] + tips;
    LinkedIs(head, tips);
    forall i | 0 <= i < |t| ensures t[i].next == if i + 1 < |t| then t[i + 1] else null {
      if i > 0 {
        NextIs(head, tips, i - 1);
        assert t[i] == tips[i - 1];
      }
    }
    assert Linked(x, t);
  }

  lemma AllPartiesMore(list: seq<Entry>, nodes: seq<Transaction>, x: Transaction)
    requires AllParties(list, nodes) && Parties(list, x.deal)
    ensures AllParties(list, nodes + [x])
  {
    hide Parties;
  }

  lemma MoreNodes(nodes: seq<Transaction>, x: Transaction)
    requires Distinct(nodes) && EarlierLinks(nodes) && x !in nodes && Children(x) <= Elements(nodes)
    ensures Distinct(nodes + [x]) && EarlierLinks(nodes + [x])
  {
    hide Children, Elements;
    var m := nodes + [x];
    forall i | 0 <= i < |m| ensures Children(m[i]) <= Elements(m[..i]) {
      if i < |nodes| {
        assert m[..i] == nodes[..i];
      } else {
        assert m[..i] == nodes;
      }
    }
  }

  lemma SerialsMore(nodes: seq<Transaction>, x: Transaction)
    ensures Serials(nodes + [x]) == Serials(nodes) + [x.serial] && Statuses(nodes + [x]) == Statuses(nodes) + [x.status]
  {
    assert (nodes + [x])[..|nodes|] == nodes;
  }

  /** "add in tip": a new node with the links found, at the front of the list. */
  method AddTip(chain: Chain, trunk: Transaction?, branch: Transaction?, deal: Deal) returns (x: Transaction)
    requires Valid(chain) && Parties(chain.list[..], deal)
    requires (trunk != null ==> trunk in chain.nodes) && (branch != null ==> branch in chain.nodes)
    modifies chain`taken, chain`nodes, chain`tips, chain`dag
    ensures Valid(chain) && fresh(x) && chain.nodes == old(chain.nodes) + [x] && chain.tips == [x] + old(chain.tips)
    ensures x.trunk == trunk && x.branch == branch && x.deal == deal && x.status == TIP && !x.flag
            && x.serial == |old(chain.taken)|
    ensures chain.taken == old(chain.taken) + [deal]
  {
    hide Once, Linked, Parties, EarlierLinks, Serials, Statuses, Distinct, AllParties, Children, Elements, Recorded;
    ghost var nodes, tips, dag := chain.nodes, chain.tips, chain.dag;
    x := new Transaction(trunk, branch, deal, |chain.taken|);
    x.next := chain.dag;
    TipFits(chain.list[..], x, dag, tips, nodes, chain.moved, chain.taken);
    chain.dag := x;
    chain.tips := [x] + tips;
    chain.nodes := nodes + [x];
    chain.taken := chain.taken + [deal];
  }

  /** What makes up the invariant, with one more node. */
  lemma TipFits(list: seq<Entry>, x: Transaction, dag: Transaction?, tips: seq<Transaction>, nodes: seq<Transaction>,
      moved: seq<nat>, taken: seq<Deal>)
    requires Distinct(nodes) && EarlierLinks(nodes) && Linked(dag, tips) && (forall y :: y in tips ==> y in nodes)
    requires Once(Serials(nodes), Statuses(nodes), moved, |taken|) && AllParties(list, nodes) && Recorded(nodes, taken)
    requires x !in nodes && x.next == dag && x.serial == |taken| && x.status == TIP && Parties(list, x.deal)
    requires (x.trunk != null ==> x.trunk in nodes) && (x.branch != null ==> x.branch in nodes)
    ensures Distinct(nodes + [x]) && EarlierLinks(nodes + [x]) && Linked(x, [x] + tips)
    ensures Once(Serials(nodes + [x]), Statuses(nodes + [x]), moved, |taken| + 1)
    ensures AllParties(list, nodes + [x]) && Recorded(nodes + [x], taken + [x.deal])
  {
    hide Once, Linked, Parties, EarlierLinks, Serials, Statuses, Distinct, AllParties, Children, Elements, Recorded;
    LinkedFront(x, dag, tips);
    ChildrenWithin(x, nodes);
    MoreNodes(nodes, x);
    SerialsMore(nodes, x);
    OnceAdded(Serials(nodes), Statuses(nodes), moved, |taken|);
    AllPartiesMore(list, nodes, x);
    RecordedMore(nodes, taken, x);
  }

  lemma RecordedMore(nodes: seq<Transaction>, taken: seq<Deal>, x: Transaction)
    requires Recorded(nodes, taken) && x.serial == |taken|
    ensures Recorded(nodes + [x], taken + [x.deal])
  {}

  lemma ChildrenWithin(x: Transaction, nodes: seq<Transaction>)
    requires (x.trunk != null ==> x.trunk in nodes) && (x.branch != null ==> x.branch in nodes)
    ensures Children(x) <= Elements(nodes)
  {}

  /** The tips that have not moved their tokens. */
  ghost function OnlyTips(tips: seq<Transaction>): (t: seq<Transaction>)
    reads tips`status
    ensures forall x :: x in t ==> x in tips
  {
    if |tips| == 0 then []
    else OnlyTips(tips[..|tips| - 1]) + (if tips[|tips| - 1].status == TIP then [tips[|tips| - 1]] else [])
  }

  /** The nodes kept so far are linked from dag and lead to the node under inspection. */
  ghost predicate Kept(dag: Transaction?, kept: seq<Transaction>, cur: Transaction?)
    reads kept`next
  {
    && dag == (if |kept| == 0 then cur else kept[0])
    && (forall i :: 0 <= i < |kept| ==> kept[i].next == if i + 1 < |kept| then kept[i + 1] else cur)
    && (forall i, j :: 0 <= i < j < |kept| ==> kept[i] != kept[j])
  }

  /** The rest of the list is still linked. */
  ghost predicate Rest(tips: seq<Transaction>, i: nat)
    reads tips`next
  {
    forall j :: i <= j < |tips| ==> tips[j].next == if j + 1 < |tips| then tips[j + 1] else null
  }

  lemma KeptNext(dag: Transaction?, kept: seq<Transaction>, cur: Transaction?, i: nat)
    requires Kept(dag, kept, cur) && i < |kept|
    ensures kept[i].next == if i + 1 < |kept| then kept[i + 1] else cur
  {}

  lemma KeptMore(dag: Transaction?, kept: seq<Transaction>, x: Transaction)
    requires Kept(dag, kept, x) && x !in kept
    ensures Kept(dag, kept + [x], x.next)
  {
    var k, n := kept + [x], |kept|;
    forall i | 0 <= i < |k| ensures k[i].next == if i + 1 < |k| then k[i + 1] else x.next {
      if i < n {
        KeptNext(dag, kept, x, i);
        assert k[i] == kept[i];
      }
    }
    assert Kept(dag, k, x.next);
  }

  lemma OnlyTipsStep(tips: seq<Transaction>, i: nat)
    requires i < |tips|
    ensures OnlyTips(tips[..i + 1]) == OnlyTips(tips[..i]) + (if tips[i].status == TIP then [tips[i]] else [])
  {
    assert tips[..i + 1][..i] == tips[..i];
  }

  lemma RestIs(head: Transaction?, tips: seq<Transaction>)
    requires Linked(head, tips)
    ensures Rest(tips, 0)
  {}

  lemma RestNext(tips: seq<Transaction>, i: nat)
    requires Rest(tips, i) && i < |tips|
    ensures Rest(tips, i + 1) && tips[i].next == if i + 1 < |tips| then tips[i + 1] else null
  {}

  lemma NotEarlier(tips: seq<Transaction>, i: nat)
    requires i < |tips| && forall j, k :: 0 <= j < k < |tips| ==> tips[j] != tips[k]
    ensures tips[i] !in tips[..i] && forall j :: i <= j < |tips| ==> tips[j] !in tips[..i]
  {}

  /** Unlinks one node: dag or the last kept node now leads to the node after it. */
  method Unlink(chain: Chain, point: Transaction?, x: Transaction, ghost kept: seq<Transaction>,
      ghost tips: seq<Transaction>, ghost i: nat)
    requires Kept(chain.dag, kept, x) && x !in kept && (|kept| > 0 ==> point == kept[|kept| - 1])
    requires i < |tips| && x == tips[i] && Rest(tips, i) && forall j :: i <= j < |tips| ==> tips[j] !in kept
    modifies chain`dag, (if point == null then {} else {point})`next
    ensures Kept(chain.dag, kept, x.next) && Rest(tips, i) && x.next == old(x.next)
  {
    if x == chain.dag {
      chain.dag := chain.dag.next;
    } else {
      point.next := x.next;
    }
  }

  /** "add into dag if width enough": nodes that have moved their tokens leave the list. */
  method RemoveDags(chain: Chain)
    requires Linked(chain.dag, chain.tips)
    modifies chain`dag, chain`tips, Elements(chain.tips)`next
    ensures chain.tips == OnlyTips(old(chain.tips)) && Linked(chain.dag, chain.tips)
  {
    hide Kept, Rest, OnlyTips, Linked;
    ghost var tips := chain.tips;
    LinkedIs(chain.dag, tips);
    RestIs(chain.dag, tips);
    var transaction, point: Transaction? := chain.dag, null;
    ghost var i := 0;
    ghost var kept: seq<Transaction> := [];
    KeptStart(chain.dag);
    OnlyTipsNone(tips);
    while transaction != null
      invariant i <= |tips| && transaction == (if i < |tips| then tips[i] else null)
      invariant kept == OnlyTips(tips[..i]) && (forall x :: x in kept ==> x in tips[..i])
      invariant Kept(chain.dag, kept, transaction) && Rest(tips, i) && chain.tips == tips
      invariant if |kept| > 0 then point == kept[|kept| - 1] else point == null
      decreases |tips| - i
    {
      NotEarlier(tips, i);
      OnlyTipsStep(tips, i);
      if transaction.status == DAG {
        assert point != null ==> point in kept && point in tips;
        Unlink(chain, point, transaction, kept, tips, i);
      } else {
        point := transaction;
        KeptMore(chain.dag, kept, transaction);
        kept := kept + [transaction];
      }
      RestNext(tips, i);
      assert tips[..i + 1] == tips[..i] + [tips[i]];
      transaction := transaction.next;
      i := i + 1;
    }
    assert tips[..i] == tips;
    chain.tips := kept;
    KeptIsLinked(chain.dag, kept);
  }

  lemma KeptStart(dag: Transaction?)
    ensures Kept(dag, [], dag)
  {}

  lemma OnlyTipsNone(tips: seq<Transaction>)
    ensures OnlyTips(tips[..0]) == []
  {}

  lemma KeptIsLinked(dag: Transaction?, kept: seq<Transaction>)
    requires Kept(dag, kept, null)
    ensures Linked(dag, kept)
  {}

  /** transaction_seek: two different correct tips picked at random, the only one twice, or none. */
  method TransactionSeek(dag: Transaction?, ghost tips: seq<Transaction>) returns (trunk: Transaction?, branch: Transaction?)
    requires Linked(dag, tips)
    ensures Correct(tips) == {} ==> trunk == null && branch == null
    ensures Correct(tips) != {} ==> trunk != null && branch != null && trunk in Correct(tips) && branch in Correct(tips)
                                    && (trunk == branch <==> |Correct(tips)| == 1)
  {
    hide Linked, Correct;
    trunk, branch := null, null;
    var n := TipNum(dag, tips);
    if n == 0 {
      return;
    }
    var j, k := 0, 0;
    if n > 1 {
      assert 0 < n && 1 < n && 0 != 1;
      j, k :| 0 <= j < n && 0 <= k < n && j != k;
    }
    ghost var p, q;
    trunk, branch, p, q := PickTips(dag, j, k, tips);
    LinkedIs(dag, tips);
    CorrectPlaces(tips, p, q, j, k, n);
  }

  lemma CorrectPlaces(tips: seq<Transaction>, p: nat, q: nat, j: nat, k: nat, n: nat)
    requires p < |tips| && q < |tips| && |Correct(tips[..p])| == j && |Correct(tips[..q])| == k && n == |Correct(tips)|
    requires (if n > 1 then j != k else j == k) && !tips[p].flag && !tips[q].flag
    requires forall i, j :: 0 <= i < j < |tips| ==> tips[i] != tips[j]
    ensures tips[p] in Correct(tips) && tips[q] in Correct(tips) && (n > 1 ==> tips[p] != tips[q])
            && (n <= 1 ==> tips[p] == tips[q] && n == 1)
  {
    if n <= 1 {
      assert {tips[p]} <= Correct(tips) && {tips[q]} <= Correct(tips);
      if tips[p] != tips[q] {
        assert {tips[p], tips[q]} <= Correct(tips);
        SmallerSet({tips[p], tips[q]}, Correct(tips));
      }
      SmallerSet({tips[p]}, Correct(tips));
    }
  }

  /** The loop of transaction_seek: the j-th and the k-th correct tip. */
  method PickTips(dag: Transaction?, j: nat, k: nat, ghost tips: seq<Transaction>)
      returns (trunk: Transaction?, branch: Transaction?, ghost p: nat, ghost q: nat)
    requires Linked(dag, tips) && j < |Correct(tips)| && k < |Correct(tips)|
    ensures p < |tips| && trunk == tips[p] && !tips[p].flag && |Correct(tips[..p])| == j
    ensures q < |tips| && branch == tips[q] && !tips[q].flag && |Correct(tips[..q])| == k
  {
    hide Linked, Correct;
    LinkedIs(dag, tips);
    NoneCorrect(tips);
    trunk, branch, p, q := null, null, 0, 0;
    var transaction, i := dag, 0;
    ghost var m := 0;
    while transaction != null
      invariant m <= |tips| && transaction == (if m < |tips| then tips[m] else null) && i == |Correct(tips[..m])|
      invariant i > j ==> p < |tips| && trunk == tips[p] && !tips[p].flag && |Correct(tips[..p])| == j
      invariant i > k ==> q < |tips| && branch == tips[q] && !tips[q].flag && |Correct(tips[..q])| == k
      decreases |tips| - m
    {
      CorrectStep(tips, m);
      if !transaction.flag {
        if j == i {
          trunk, p := transaction, m;
        }
        if k == i {
          branch, q := transaction, m;
        }
        i := i + 1;
      }
      NextIs(dag, tips, m);
      transaction := transaction.next;
      m := m + 1;
    }
    assert tips[..m] == tips;
  }

  /** transaction_device. */
  method FindHeavy(list: array<Entry>, device: nat) returns (missing: bool, index: nat)
    requires Find(list[..], device) < list.Length
    ensures missing <==> !HasHeavy(list[..], device)
    ensures !missing ==> index == HeavyFor(list[..], device)
  {
    hide Find, HeavyFor;
    var i := Seek(list, device);
    if list[i].heavy {
      HeavyIs(list[..], device, i);
      return false, list[i].device;
    }
    var j := 0;
    while j < list.Length && !(list[i].dagIndex == list[j].dagIndex && list[j].heavy)
      invariant j <= list.Length && forall k :: 0 <= k < j ==> !(list[i].dagIndex == list[k].dagIndex && list[k].heavy)
    {
      j := j + 1;
    }
    if j == list.Length {
      return true, 0;
    }
    HeavyIs(list[..], device, j);
    return false, list[j].device;
  }

  /** "notify device". */
  method Notify(chain: Chain, deal: Deal)
    requires Parties(chain.list[..], deal)
    modifies chain`queue, chain`sent
    ensures chain.queue == old(chain.queue) + Notices(chain.list[..], deal)
    ensures chain.sent == old(chain.sent) + Deliveries(chain.list[..], deal)
    ensures old(chain.queue) <= chain.queue && old(chain.sent) <= chain.sent
            && |chain.queue| + |chain.sent| == |old(chain.queue)| + |old(chain.sent)| + 2
    ensures if HasHeavy(chain.list[..], deal.src)
            then |chain.sent| > |old(chain.sent)|
                 && chain.sent[|old(chain.sent)|] == Delivery(HeavyFor(chain.list[..], deal.src), Notice(3, deal.src, deal.token))
            else |chain.queue| > |old(chain.queue)| && chain.queue[|old(chain.queue)|] == Notice(3, deal.src, deal.token)
    ensures if HasHeavy(chain.list[..], deal.dst)
            then |chain.sent| > |old(chain.sent)|
                 && chain.sent[|chain.sent| - 1] == Delivery(HeavyFor(chain.list[..], deal.dst), Notice(4, deal.dst, deal.token))
            else |chain.queue| > |old(chain.queue)| && chain.queue[|chain.queue| - 1] == Notice(4, deal.dst, deal.token)
  {
    hide HasHeavy, Find, HeavyFor;
    NotifyOne(chain, deal.src, Notice(STATUS_SRC, deal.src, deal.token));
    NotifyOne(chain, deal.dst, Notice(STATUS_DST, deal.dst, deal.token));
  }

  /** A notice to one device goes to its heavy node, or waits in the main chain's queue. */
  method NotifyOne(chain: Chain, device: nat, notice: Message)
    requires Find(chain.list[..], device) < chain.list.Length && notice.Notice?
    modifies chain`queue, chain`sent
    ensures chain.queue == old(chain.queue) + if HasHeavy(chain.list[..], device) then [] else [notice]
    ensures chain.sent == old(chain.sent) + if HasHeavy(chain.list[..], device)
                                            then [Delivery(HeavyFor(chain.list[..], device), notice)] else []
  {
    hide HasHeavy, Find, HeavyFor;
    var missing, index := FindHeavy(chain.list, device);
    if missing {
      chain.Insert(notice);
    } else {
      chain.sent := chain.sent + [Delivery(index, notice)];
    }
  }

  /** What becomes of a queued transaction. */
  datatype Outcome = Waiting | Rejected | Reused | Added

  /** The deals whose tokens move when a transaction with these links is accepted. */
  ghost function Settling(trunk: Transaction?, branch: Transaction?): seq<Deal>
    reads if trunk == null then {} else {trunk}, if branch == null then {} else {branch}
  {
    (if trunk != null && trunk.status == TIP then [trunk.deal] else [])
    + (if branch != null && branch != trunk && branch.status == TIP then [branch.deal] else [])
  }

  /** The queued transactions these deals belong to. */
  ghost function Moving(trunk: Transaction?, branch: Transaction?): seq<nat>
    reads if trunk == null then {} else {trunk}, if branch == null then {} else {branch}
  {
    (if trunk != null && trunk.status == TIP then [trunk.serial] else [])
    + (if branch != null && branch != trunk && branch.status == TIP then [branch.serial] else [])
  }

  lemma PartyOf(chain: Chain, x: Transaction)
    requires Valid(chain) && x in chain.nodes
    ensures Parties(chain.list[..], x.deal)
  {}

  /** Both links of an accepted transaction become part of the graph. */
  method MoveLinks(chain: Chain, trunk: Transaction?, branch: Transaction?)
    requires Valid(chain) && (trunk != null ==> trunk in chain.nodes) && (branch != null ==> branch in chain.nodes)
    modifies chain`moved, chain`queue, chain`sent, chain.list, chain.nodes`status
    ensures old(chain.sent) <= chain.sent && Refusals(chain.sent) == Refusals(old(chain.sent))
    ensures Valid(chain) && (trunk != null ==> trunk.status == DAG) && (branch != null ==> branch.status == DAG)
            && Told(old(chain.queue), chain.queue)
    ensures forall x :: x in old(chain.nodes) && x != trunk && x != branch ==> x.status == old(x.status)
    ensures chain.list[..] == SettledAll(old(chain.list[..]), old(Settling(trunk, branch)))
    ensures chain.moved == old(chain.moved) + old(Moving(trunk, branch))
    ensures chain.queue == old(chain.queue) + old(LinkNotices(chain.list[..], trunk, branch))
            && chain.sent == old(chain.sent) + old(LinkDeliveries(chain.list[..], trunk, branch))
  {
    hide Valid, Settled, Parties, Notices, Deliveries, SettledAll, Refusals;
    ghost var l := chain.list[..];
    ghost var d := Settling(trunk, branch);
    if trunk != null && branch != null {
      SettledNotices(l, trunk.deal, branch.deal);
    }
    if trunk != null && trunk.status != DAG {
      NotifyMoved(chain, trunk);
      SettledMore(l, [], trunk.deal);
      assert [] + [trunk.deal] == [trunk.deal];
    }
    ghost var e: seq<Deal> := if old(trunk != null && trunk.status == TIP) then [trunk.deal] else [];
    SettledMore(l, [], Deal(0, 0, 0));
    if branch != null && branch.status != DAG && trunk != branch {
      NotifyMoved(chain, branch);
      SettledMore(l, e, branch.deal);
      assert d == e + [branch.deal];
    } else {
      assert d == e + [] == e;
    }
  }

  /** One link moves its tokens and the parties are told. */
  method NotifyMoved(chain: Chain, x: Transaction)
    requires Valid(chain) && x in chain.nodes && x.status == TIP
    modifies x`status, chain`moved, chain`queue, chain`sent, chain.list
    ensures Valid(chain) && x.status == DAG
    ensures chain.list[..] == Settled(old(chain.list[..]), x.deal) && chain.moved == old(chain.moved) + [x.serial]
    ensures Told(old(chain.queue), chain.queue) && Parties(chain.list[..], x.deal)
    ensures chain.sent == old(chain.sent) + Deliveries(old(chain.list[..]), x.deal)
            && Refusals(chain.sent) == Refusals(old(chain.sent))
    ensures chain.queue == old(chain.queue) + Notices(old(chain.list[..]), x.deal)
  {
    hide Once, Linked, Parties, EarlierLinks, Serials, Statuses, Distinct, Settled, AllParties, Recorded, Deliveries, Refusals,
         Notices;
    ghost var sent, l := chain.sent, chain.list[..];
    MoveTokens(chain, x);
    PartyOf(chain, x);
    Notify(chain, x.deal);
    OnlyNotices(chain.list[..], x.deal);
    NoRefusals(sent, Deliveries(chain.list[..], x.deal));
    SettledNotices(l, x.deal, x.deal);
  }

  /** Settling a deal changes no notices. */
  lemma SettledNotices(list: seq<Entry>, deal: Deal, d: Deal)
    ensures Notices(Settled(list, deal), d) == Notices(list, d) && Deliveries(Settled(list, deal), d) == Deliveries(list, d)
  {
    hide Settled, Find, Parties, Notices, Deliveries;
    SettledNodes(list, [deal]);
    SettledMore(list, [], deal);
    assert [] + [deal] == [deal];
    SameNotices(list, Settled(list, deal), d);
  }

  lemma SameNotices(list: seq<Entry>, list': seq<Entry>, d: Deal)
    requires SameNodes(list, list')
    ensures Notices(list', d) == Notices(list, d) && Deliveries(list', d) == Deliveries(list, d)
  {
    hide Find, HasHeavy, HeavyFor, SameNodes;
    PartiesSame(list, list', d);
    if Parties(list, d) {
      SameHeavy(list, list', d.src);
      SameHeavy(list, list', d.dst);
    }
  }

  lemma SameHeavy(list: seq<Entry>, list': seq<Entry>, device: nat)
    requires SameNodes(list, list') && Find(list, device) < |list|
    ensures Find(list', device) < |list'| && (HasHeavy(list', device) <==> HasHeavy(list, device))
    ensures HeavyFor(list', device) == HeavyFor(list, device)
  {
    hide Find;
    SameFind(list, list', device);
    if j: nat :| Serves(list, device, j) {
      HeavyIs(list, device, j);
      assert Serves(list', device, j);
      HeavyIs(list', device, j);
    } else {
      forall j: nat ensures !Serves(list', device, j) {
        assert !Serves(list, device, j);
      }
    }
  }

  /** The notices about both links. */
  ghost function LinkNotices(list: seq<Entry>, trunk: Transaction?, branch: Transaction?): seq<Message>
    reads if trunk == null then {} else {trunk}, if branch == null then {} else {branch}
  {
    (if trunk != null && trunk.status == TIP then Notices(list, trunk.deal) else [])
    + (if branch != null && branch != trunk && branch.status == TIP then Notices(list, branch.deal) else [])
  }

  ghost function LinkDeliveries(list: seq<Entry>, trunk: Transaction?, branch: Transaction?): seq<Delivery>
    reads if trunk == null then {} else {trunk}, if branch == null then {} else {branch}
  {
    (if trunk != null && trunk.status == TIP then Deliveries(list, trunk.deal) else [])
    + (if branch != null && branch != trunk && branch.status == TIP then Deliveries(list, branch.deal) else [])
  }

  lemma OnlyNotices(list: seq<Entry>, deal: Deal)
    requires Parties(list, deal)
    ensures forall m :: m in Notices(list, deal) ==> m.Notice?
    ensures forall i :: 0 <= i < |Deliveries(list, deal)| ==> !IsRefusal(Deliveries(list, deal)[i].message)
  {
    hide HasHeavy, Find, HeavyFor;
  }

  /** At the full width of correct tips, the nodes that have moved their tokens leave the list. */
  method Narrow(chain: Chain)
    requires Valid(chain)
    modifies chain`dag, chain`tips, Elements(chain.tips)`next
    ensures Valid(chain)
    ensures chain.tips == if |Correct(old(chain.tips))| == TIP_NUM then OnlyTips(old(chain.tips)) else old(chain.tips)
  {
    hide Once, Linked, Parties, EarlierLinks, Serials, Statuses, Distinct, AllParties, Correct, OnlyTips;
    var n := TipNum(chain.dag, chain.tips);
    if n == TIP_NUM {
      RemoveDags(chain);
    }
  }

  lemma TipsAreNodes(chain: Chain)
    requires Valid(chain)
    ensures Linked(chain.dag, chain.tips) && Elements(chain.tips) <= Elements(chain.nodes)
    ensures forall x :: x in chain.tips ==> x in chain.nodes
  {}

  /** A verified transaction enters the graph: a new tip, the links moved, and the list narrowed at the full width. */
  method Accept(chain: Chain, trunk: Transaction?, branch: Transaction?, deal: Deal) returns (x: Transaction)
    requires Valid(chain) && Parties(chain.list[..], deal)
    requires (trunk != null ==> trunk in chain.nodes) && (branch != null ==> branch in chain.nodes)
    modifies chain, chain.list, Elements(chain.nodes)
    ensures Valid(chain) && fresh(x) && chain.nodes == old(chain.nodes) + [x] && chain.taken == old(chain.taken) + [deal]
    ensures x.trunk == trunk && x.branch == branch && x.deal == deal && x.status == TIP && !x.flag
    ensures chain.list[..] == SettledAll(old(chain.list[..]), old(Settling(trunk, branch)))
    ensures chain.moved == old(chain.moved) + old(Moving(trunk, branch))
    ensures (trunk != null ==> trunk.status == DAG) && (branch != null ==> branch.status == DAG)
            && Told(old(chain.queue), chain.queue) && old(chain.sent) <= chain.sent
            && Refusals(chain.sent) == Refusals(old(chain.sent))
    ensures chain.queue == old(chain.queue) + old(LinkNotices(chain.list[..], trunk, branch))
            && chain.sent == old(chain.sent) + old(LinkDeliveries(chain.list[..], trunk, branch))
    ensures chain.dagNumber == old(chain.dagNumber)
    ensures forall y :: y in old(chain.nodes) ==> y.deal == old(y.deal) && y.flag == old(y.flag) && y.serial == old(y.serial)
    ensures forall y :: y in old(chain.nodes) && y != trunk && y != branch ==> y.status == old(y.status)
    ensures var tips := [x] + old(chain.tips);
            chain.tips == if |Correct(tips)| == TIP_NUM then OnlyTips(tips) else tips
  {
    hide Valid, Linked, Parties, Settled, SettledAll, Correct, OnlyTips,
      Settling, Moving, Told, Refusals, LinkNotices, LinkDeliveries;
    TipsAreNodes(chain);
    x := AddTip(chain, trunk, branch, deal);
    MoveLinks(chain, trunk, branch);
    Narrow(chain);
  }

  /** What holds of the accounts after any step: the deals of the newly moved transactions, all between listed devices,
      have been settled, and nothing else. */
  ghost predicate Booked(list: seq<Entry>, list': seq<Entry>, taken: seq<Deal>, moved: seq<nat>, moved': seq<nat>) {
    && moved <= moved' && Below(moved'[|moved|..], |taken|)
    && var deals := DealsOf(taken, moved'[|moved|..]);
       list' == SettledAll(list, deals) && forall i :: 0 <= i < |deals| ==> Parties(list, deals[i])
  }

  lemma BookedNothing(list: seq<Entry>, taken: seq<Deal>, moved: seq<nat>)
    ensures Booked(list, list, taken, moved, moved)
  {
    assert moved[|moved|..] == [] && DealsOf(taken, []) == [];
  }

  lemma BookedSome(list: seq<Entry>, deals: seq<Deal>, taken: seq<Deal>, taken': seq<Deal>, moved: seq<nat>, more: seq<nat>)
    requires taken <= taken' && Below(more, |taken|) && DealsOf(taken, more) == deals
    requires forall i :: 0 <= i < |deals| ==> Parties(list, deals[i])
    ensures Booked(list, SettledAll(list, deals), taken', moved, moved + more)
  {
    hide SettledAll, Parties;
    assert (moved + more)[|moved|..] == more;
    DealsLater(taken, taken', more);
  }

  lemma BookedTwice(l: seq<Entry>, m: seq<Entry>, n: seq<Entry>, t: seq<Deal>, t': seq<Deal>, a: seq<nat>, b: seq<nat>,
      c: seq<nat>)
    requires Booked(l, m, t, a, b) && Booked(m, n, t', b, c) && t <= t'
    ensures Booked(l, n, t', a, c)
  {
    hide SettledAll, Parties;
    var x, y := b[|a|..], c[|b|..];
    assert c[|a|..] == x + y;
    DealsLater(t, t', x);
    DealsAppend(t', x, y);
    var d, e := DealsOf(t', x), DealsOf(t', y);
    SettledAllDevices(l, d);
    SettledAllAppend(l, d, e);
    forall i | 0 <= i < |d + e| ensures Parties(l, (d + e)[i]) {
      if i >= |d| {
        PartiesKept(l, m, e[i - |d|]);
      }
    }
  }

  /** The sum of all tokens modulo 2^32 never changes, and every device keeps its place. */
  lemma BookedTotal(list: seq<Entry>, list': seq<Entry>, taken: seq<Deal>, moved: seq<nat>, moved': seq<nat>)
    requires Booked(list, list', taken, moved, moved')
    ensures SameDevices(list, list')
    ensures DistinctDevices(list) ==> Total(list') % WRAP == Total(list) % WRAP
  {
    hide SettledAll, Parties, Total;
    var deals := DealsOf(taken, moved'[|moved|..]);
    SettledAllDevices(list, deals);
    if DistinctDevices(list) {
      AllConserved(list, deals);
    }
  }

  lemma SettlingParties(chain: Chain, trunk: Transaction?, branch: Transaction?)
    requires Valid(chain) && (trunk != null ==> trunk in chain.nodes) && (branch != null ==> branch in chain.nodes)
    ensures forall i :: 0 <= i < |Settling(trunk, branch)| ==> Parties(chain.list[..], Settling(trunk, branch)[i])
    ensures Below(Moving(trunk, branch), |chain.taken|) && DealsOf(chain.taken, Moving(trunk, branch)) == Settling(trunk, branch)
  {
    hide Parties, Once, Linked, EarlierLinks, Serials, Statuses, Distinct;
  }

  /** Up to two deals are covered in turn. */
  ghost predicate LinksCovered(list: seq<Entry>, deals: seq<Deal>)
    requires |deals| <= 2 && forall i :: 0 <= i < |deals| ==> Parties(list, deals[i])
  {
    (|deals| > 0 ==> OneCovered(list, deals[0])) && (|deals| == 2 ==> NextCovered(list, deals[0], deals[1]))
  }

  /** Whatever verification has compared, the links of an accepted transaction move their tokens without wrap-around
      exactly if their senders cover them in turn. */
  lemma LinksExactIff(chain: Chain, trunk: Transaction?, branch: Transaction?)
    requires Valid(chain) && (trunk != null ==> trunk in chain.nodes) && (branch != null ==> branch in chain.nodes)
    requires DistinctDevices(chain.list[..]) && Total(chain.list[..]) < WRAP
    ensures forall i :: 0 <= i < |Settling(trunk, branch)| ==> Parties(chain.list[..], Settling(trunk, branch)[i])
    ensures AllExact(chain.list[..], Settling(trunk, branch)) <==> LinksCovered(chain.list[..], Settling(trunk, branch))
  {
    hide Valid, Total, Parties, OneCovered, NextCovered, AllExact;
    var l, d := chain.list[..], Settling(trunk, branch);
    SettlingParties(chain, trunk, branch);
    if |d| == 2 {
      assert d == [d[0], d[1]];
      PairExactIff(l, d[0], d[1]);
    } else if |d| == 1 {
      assert d == [d[0]];
      OneExactIff(l, d[0]);
    } else {
      NoDeals(l, d);
    }
  }

  /** The links are two correct tips, different if there are two, or both missing if there is none. */
  ghost predicate Picked(correct: set<Transaction>, trunk: Transaction?, branch: Transaction?) {
    if correct == {} then trunk == null && branch == null
    else trunk in correct && branch in correct && (trunk == branch <==> |correct| == 1)
  }

  /** A node as transaction_recv makes it. */
  ghost predicate IsNew(x: Transaction, trunk: Transaction?, branch: Transaction?, deal: Deal)
    reads x
  {
    x.trunk == trunk && x.branch == branch && x.deal == deal && x.status == TIP && !x.flag
  }

  /** "find 2 tips" and what follows: the address checks may come out either way, the balance checks may read any of the
      first entries, and any two correct tips may be picked. */
  method Enter(chain: Chain, deal: Deal)
    returns (outcome: Outcome, trunk: Transaction?, branch: Transaction?, ghost n: seq<Message>)
    requires Valid(chain) && Parties(chain.list[..], deal)
    modifies chain, chain.list, Elements(chain.nodes)
    ensures Valid(chain) && outcome in {Waiting, Rejected, Added} && chain.dagNumber == old(chain.dagNumber)
    ensures old(chain.nodes) <= chain.nodes && forall y :: y in chain.nodes ==> y in old(chain.nodes) || fresh(y)
    ensures !outcome.Added? ==> trunk != null && branch != null && chain.nodes == old(chain.nodes)
                                && chain.tips == old(chain.tips)
    ensures !outcome.Added? ==> chain.list[..] == old(chain.list[..]) && chain.moved == old(chain.moved)
                                && chain.queue == old(chain.queue)
    ensures (trunk != null ==> trunk in old(chain.nodes)) && (branch != null ==> branch in old(chain.nodes))
    ensures Picked(old(Correct(chain.tips)), trunk, branch)
    ensures forall y :: y in old(chain.nodes) ==> y.deal == old(y.deal) && y.serial == old(y.serial)
                                                  && (y != trunk && y != branch ==> y.status == old(y.status)
                                                                                    && y.flag == old(y.flag))
    ensures !outcome.Added? ==> forall y :: y in old(chain.nodes) ==> y.status == old(y.status)
    ensures outcome.Waiting? ==> Unserved(chain.list[..], trunk, branch)
                                 && forall y :: y in old(chain.nodes) ==> y.flag == old(y.flag)
    ensures outcome.Rejected? ==> (trunk.flag || branch.flag) && (trunk.flag && branch.flag ==> trunk == branch)
                                  && TurnedDown(chain.list[..], trunk, branch)
    ensures (trunk != null ==> !outcome.Added? || trunk.status == DAG)
            && (branch != null ==> !outcome.Added? || branch.status == DAG)
    ensures outcome.Added? ==> forall y :: y in old(chain.nodes) ==> y.flag == old(y.flag)
    ensures outcome.Added? && trunk != null ==> Verified(old(chain.list[..]), old(trunk.deal))
                                                && Verified(old(chain.list[..]), old(branch.deal))
    ensures outcome.Added? ==> |chain.nodes| == |old(chain.nodes)| + 1 && chain.nodes[..|old(chain.nodes)|] == old(chain.nodes)
                               && fresh(chain.nodes[|old(chain.nodes)|])
                                   && IsNew(chain.nodes[|old(chain.nodes)|], trunk, branch, deal)
    ensures outcome.Added? ==> chain.list[..] == SettledAll(old(chain.list[..]), old(Settling(trunk, branch)))
                               && chain.moved == old(chain.moved) + old(Moving(trunk, branch))
    ensures old(chain.sent) <= chain.sent
            && Refusals(chain.sent) == Refusals(old(chain.sent)) + if outcome.Rejected? then 1 else 0
    ensures outcome.Added? ==> Told(old(chain.queue), chain.queue)
                               && Booked(old(chain.list[..]), chain.list[..], chain.taken, old(chain.moved), chain.moved)
    ensures outcome.Waiting? ==> chain.sent == old(chain.sent)
    ensures outcome.Rejected? ==> Refused(chain.list[..], old(chain.sent), chain.sent, trunk, branch)
    ensures outcome.Added? ==> var tips := [chain.nodes[|old(chain.nodes)|]] + old(chain.tips);
                               chain.tips == if |Correct(tips)| == TIP_NUM then OnlyTips(tips) else tips
    ensures chain.taken == old(chain.taken) + if outcome.Added? then [deal] else []
    ensures Clear(old(ViewOf(chain)).tips)
            ==> Takes(old(ViewOf(chain)), deal, FateOf(outcome), ViewOf(chain), n)
    ensures chain.queue == old(chain.queue) + n
  {
    hide Valid, Linked, Parties, Settled, SettledAll, Correct, OnlyTips, Booked, Settling, Moving, Told, Served, Refused, Picked,
         Verified, Refusals, Unserved, TurnedDown, Takes, TipsOf, IsNew, Distinct, Clear, LinkNotices;
    TipsAreNodes(chain);
    TipsDiffer(chain);
    AllCorrect(chain.tips);
    outcome, trunk, branch := Pick(chain, deal);
    n := [];
    if outcome.Added? {
      n := LinkNotices(chain.list[..], trunk, branch);
      Admit(chain, trunk, branch, deal);
    }
  }

  lemma {:induction false} ElementsCount(tips: seq<Transaction>)
    requires Distinct(tips)
    ensures |Elements(tips)| == |tips|
  {
    if |tips| > 0 {
      var n := |tips| - 1;
      ElementsCount(tips[..n]);
      assert Elements(tips) == Elements(tips[..n]) + {tips[n]};
    }
  }

  lemma AllCorrect(tips: seq<Transaction>)
    requires Distinct(tips)
    ensures Clear(TipsOf(tips)) ==> Correct(tips) == Elements(tips) && |Correct(tips)| == |tips|
    ensures (forall y :: y in tips ==> !y.flag) <==> Clear(TipsOf(tips))
  {
    hide TipsOf;
    ElementsCount(tips);
    if Clear(TipsOf(tips)) {
      forall y | y in tips ensures !y.flag {
        var i :| 0 <= i < |tips| && tips[i] == y;
        assert TipsOf(tips)[i] == TipOf(y);
      }
    }
  }

  lemma PickedPlaces(tips: seq<Transaction>, trunk: Transaction?, branch: Transaction?) returns (p: nat, q: nat)
    requires Distinct(tips)
    requires Picked(Elements(tips), trunk, branch) && |Elements(tips)| == |tips| && trunk != null
    ensures p < |tips| && q < |tips| && trunk == tips[p] && branch == tips[q] && (p == q <==> |tips| == 1)
  {
    p :| 0 <= p < |tips| && tips[p] == trunk;
    q :| 0 <= q < |tips| && tips[q] == branch;
  }

  lemma PickedNone(tips: seq<Transaction>, branch: Transaction?)
    requires Picked(Elements(tips), null, branch) && |Elements(tips)| == |tips|
    ensures tips == [] && branch == null
  {
    assert Elements(tips) == {};
  }

  lemma AllDue(tips: seq<Transaction>, l: seq<Entry>)
    requires Distinct(tips)
    ensures forall i, j :: 0 <= i < |tips| && 0 <= j < |tips| ==> Settling(tips[i], tips[j]) == Due(TipsOf(tips), i, j)
    ensures forall i, j :: 0 <= i < |tips| && 0 <= j < |tips| ==>
              LinkNotices(l, tips[i], tips[j]) == DueNotices(l, TipsOf(tips), i, j)
              && LinkDeliveries(l, tips[i], tips[j]) == DueDeliveries(l, TipsOf(tips), i, j)
    ensures Settling(null, null) == [] && LinkNotices(l, null, null) == [] && LinkDeliveries(l, null, null) == []
  {
    hide TipsOf, Notices, Deliveries;
  }

  lemma NoFirstFlag(t: seq<Tip>)
    requires forall i :: 0 <= i < |t| ==> !t[i].flag
    ensures forall k: nat :: !FirstFlag(t, k)
  {}

  /** A transaction that waits or is dropped, as others see it. */
  lemma PickedTakes(tips: seq<Transaction>, v: View, sent: seq<Delivery>, trunk: Transaction?, branch: Transaction?,
      deal: Deal, outcome: Outcome)
    requires Distinct(tips) && |v.tips| == |tips| && Clear(v.tips)
    requires forall i :: 0 <= i < |tips| ==> tips[i].deal == v.tips[i].deal && tips[i].status == v.tips[i].status
    requires Picked(Elements(tips), trunk, branch) && trunk != null && branch != null
    requires forall i :: 0 <= i < |tips| && tips[i] != trunk && tips[i] != branch ==> !tips[i].flag
    requires outcome in {Waiting, Rejected}
    requires outcome.Waiting? ==> Unserved(v.list, trunk, branch) && !trunk.flag && !branch.flag && sent == v.sent
    requires outcome.Rejected? ==> TurnedDown(v.list, trunk, branch) && Refused(v.list, v.sent, sent, trunk, branch)
    ensures Takes(v, deal, FateOf(outcome), View(TipsOf(tips), v.list, sent), [])
  {
    hide Served, Verified, TipsOf, Picked, Meets, Takes, Clear, Refused, TurnedDown, Unserved;
    ElementsCount(tips);
    var p, q := PickedPlaces(tips, trunk, branch);
    if outcome.Waiting? {
      WaitingMeets(tips, v, trunk, branch, deal, p, q);
    } else {
      RejectedMeets(tips, v, sent, trunk, branch, deal, p, q);
    }
    MeetsTakes(v, deal, FateOf(outcome), View(TipsOf(tips), v.list, sent), [], p, q);
  }

  lemma MeetsTakes(v: View, deal: Deal, fate: Fate, w: View, n: seq<Message>, p: nat, q: nat)
    requires Clear(v.tips) && Meets(v, deal, fate, w, n, p, q)
    ensures Takes(v, deal, fate, w, n)
  {
    NoFirstFlag(v.tips);
    var a := v.tips[p];
    hide Meets;
  }

  lemma WaitingMeets(tips: seq<Transaction>, v: View, trunk: Transaction, branch: Transaction, deal: Deal, p: nat, q: nat)
    requires |v.tips| == |tips| && Clear(v.tips)
    requires forall i :: 0 <= i < |tips| ==> tips[i].deal == v.tips[i].deal && tips[i].status == v.tips[i].status
    requires p < |tips| && q < |tips| && trunk == tips[p] && branch == tips[q] && (p == q <==> |tips| == 1)
    requires forall i :: 0 <= i < |tips| && tips[i] != trunk && tips[i] != branch ==> !tips[i].flag
    requires Unserved(v.list, trunk, branch) && !trunk.flag && !branch.flag
    ensures Meets(v, deal, Stays, View(TipsOf(tips), v.list, v.sent), [], p, q)
  {
    hide Served, Verified, TipsOf;
    assert TipsOf(tips) == v.tips;
  }

  lemma RejectedMeets(tips: seq<Transaction>, v: View, sent: seq<Delivery>, trunk: Transaction, branch: Transaction,
      deal: Deal, p: nat, q: nat)
    requires Distinct(tips) && |v.tips| == |tips| && Clear(v.tips)
    requires forall i :: 0 <= i < |tips| ==> tips[i].deal == v.tips[i].deal && tips[i].status == v.tips[i].status
    requires p < |tips| && q < |tips| && trunk == tips[p] && branch == tips[q] && (p == q <==> |tips| == 1)
    requires forall i :: 0 <= i < |tips| && tips[i] != trunk && tips[i] != branch ==> !tips[i].flag
    requires TurnedDown(v.list, trunk, branch) && Refused(v.list, v.sent, sent, trunk, branch)
    ensures Meets(v, deal, Leaves, View(TipsOf(tips), v.list, sent), [], p, q)
  {
    var k := if trunk.flag then p else q;
    RefusalIs(v.list, v.sent, sent, trunk, branch);
    OthersUnflagged(tips, trunk, branch, p, q);
    hide Served, Verified, Refuses, Refused, TipsOf, Distinct, RefusedDeal, Meets, Clear;
    OneFlag(tips, v.tips, k);
    DealRefused(trunk, branch);
    LeavesMeets(v, View(TipsOf(tips), v.list, sent), deal, p, q, trunk.flag);
  }

  lemma LeavesMeets(v: View, w: View, deal: Deal, p: nat, q: nat, first: bool)
    requires p < |v.tips| && q < |v.tips| && (p == q <==> |v.tips| == 1) && w.list == v.list
    requires var k := if first then p else q;
             w.tips == v.tips[k := v.tips[k].(flag := true)] && Refuses(v.list, v.tips[k].deal, v.sent, w.sent)
    requires !first ==> Verified(v.list, v.tips[p].deal)
    ensures Meets(v, deal, Leaves, w, [], p, q)
  {
    hide Refuses, Verified;
  }

  lemma DealRefused(trunk: Transaction, branch: Transaction)
    ensures RefusedDeal(trunk, branch) == if trunk.flag then trunk.deal else branch.deal
  {}

  lemma OthersUnflagged(tips: seq<Transaction>, trunk: Transaction, branch: Transaction, p: nat, q: nat)
    requires Distinct(tips) && p < |tips| && q < |tips| && trunk == tips[p] && branch == tips[q]
    requires forall i :: 0 <= i < |tips| && tips[i] != trunk && tips[i] != branch ==> !tips[i].flag
    requires trunk.flag && branch.flag ==> trunk == branch
    ensures forall i :: 0 <= i < |tips| && i != (if trunk.flag then p else q) ==> !tips[i].flag
  {}

  lemma OneFlag(tips: seq<Transaction>, t: seq<Tip>, k: nat)
    requires |t| == |tips| && Clear(t) && k < |t| && tips[k].flag
    requires forall i :: 0 <= i < |tips| ==> tips[i].deal == t[i].deal && tips[i].status == t[i].status
    requires forall i :: 0 <= i < |tips| && i != k ==> !tips[i].flag
    ensures TipsOf(tips) == t[k := t[k].(flag := true)]
  {
    hide TipsOf;
  }

  lemma RefusalIs(list: seq<Entry>, sent: seq<Delivery>, sent': seq<Delivery>, trunk: Transaction, branch: Transaction)
    requires TurnedDown(list, trunk, branch) && Refused(list, sent, sent', trunk, branch)
    ensures Refuses(list, RefusedDeal(trunk, branch), sent, sent')
  {
    hide Find, HeavyFor, HasHeavy, Failed;
  }

  lemma {:induction false} OnlyTipsView(tips: seq<Transaction>)
    ensures TipsOf(OnlyTips(tips)) == Unmoved(TipsOf(tips))
  {
    if |tips| > 0 {
      var n := |tips| - 1;
      OnlyTipsView(tips[..n]);
      assert TipsOf(tips)[..n] == TipsOf(tips[..n]);
      var o := OnlyTips(tips[..n]);
      assert tips[n].status == TIP ==> OnlyTips(tips) == o + [tips[n]] && TipsOf(o + [tips[n]]) == TipsOf(o) + [TipOf(tips[n])];
    }
  }

  lemma NarrowedView(all: seq<Transaction>, tips: seq<Transaction>)
    requires Distinct(all) && forall i :: 0 <= i < |all| ==> !all[i].flag
    requires tips == if |Correct(all)| == TIP_NUM then OnlyTips(all) else all
    ensures TipsOf(tips) == Narrowed(TipsOf(all))
  {
    hide OnlyTips, TipsOf, Unmoved, Correct;
    AllCorrect(all);
    OnlyTipsView(all);
  }

  /** A transaction that enters, as others see it. */
  lemma AdmittedTakes(tips: seq<Transaction>, v: View, w: View, x: Transaction, tips': seq<Transaction>, trunk: Transaction,
      branch: Transaction, deal: Deal, p: nat, q: nat, n: seq<Message>)
    requires Distinct(tips) && x !in tips && TipOf(x) == Fresh(deal)
    requires |v.tips| == |tips| && Clear(v.tips)
      && forall i :: 0 <= i < |tips| ==> tips[i].deal == v.tips[i].deal && !tips[i].flag
    requires tips' == if |Correct([x] + tips)| == TIP_NUM then OnlyTips([x] + tips) else [x] + tips
    requires p < |tips| && q < |tips| && trunk == tips[p] && branch == tips[q] && (p == q <==> |tips| == 1)
    requires w.tips == TipsOf(tips') && w.list == SettledAll(v.list, Due(v.tips, p, q))
    requires n == DueNotices(v.list, v.tips, p, q) && w.sent == v.sent + DueDeliveries(v.list, v.tips, p, q)
    requires trunk.status == DAG && branch.status == DAG && Verified(v.list, trunk.deal) && Verified(v.list, branch.deal)
    requires forall i :: 0 <= i < |tips| && i != p && i != q ==> tips[i].status == v.tips[i].status
    ensures Takes(v, deal, Enters, w, n)
  {
    hide Verified, TipsOf, Narrowed, SettledAll, OnlyTips, Correct, Due, DueNotices, DueDeliveries, Takes;
    NarrowedView([x] + tips, tips');
    JoinedView(tips, v.tips, x, deal, p, q);
    hide Joined;
    assert Meets(v, deal, Enters, w, n, p, q);
    MeetsTakes(v, deal, Enters, w, n, p, q);
  }

  lemma JoinedView(tips: seq<Transaction>, t: seq<Tip>, x: Transaction, deal: Deal, p: nat, q: nat)
    requires |t| == |tips| && Clear(t) && forall i :: 0 <= i < |t| ==> tips[i].deal == t[i].deal && !tips[i].flag
    requires p < |tips| && q < |tips| && tips[p].status == DAG && tips[q].status == DAG && TipOf(x) == Fresh(deal)
    requires forall i :: 0 <= i < |tips| && i != p && i != q ==> tips[i].status == t[i].status
    ensures TipsOf([x] + tips) == [Fresh(deal)] + Joined(t, p, q)
  {
    hide TipsOf;
    var a, b := TipsOf([x] + tips), [Fresh(deal)] + Joined(t, p, q);
    forall i | 0 <= i < |a| ensures a[i] == b[i] {
      if i > 0 {
        assert ([x] + tips)[i] == tips[i - 1];
      }
    }
  }

  /** Likewise the first one of all. */
  lemma StartTakes(v: View, l': seq<Entry>, x: Transaction, tips': seq<Transaction>, deal: Deal)
    requires v.tips == [] && TipOf(x) == Fresh(deal) && l' == SettledAll(v.list, [])
    requires tips' == if |Correct([x] + [])| == TIP_NUM then OnlyTips([x] + []) else [x] + []
    ensures Takes(v, deal, Enters, View(TipsOf(tips'), l', v.sent + []), [])
  {
    hide TipsOf, Narrowed, OnlyTips, Correct, SettledAll;
    NoFirstFlag([]);
    assert [x] + [] == [x] && v.sent + [] == v.sent;
    NarrowedView([x], tips');
    assert TipsOf([x]) == [Fresh(deal)];
    FreshAlone(deal);
    NothingDue(v.list);
  }

  lemma FreshAlone(deal: Deal)
    ensures Narrowed([Fresh(deal)]) == [Fresh(deal)]
  {}

  lemma NothingDue(l: seq<Entry>)
    ensures SettledAll(l, []) == l
  {}

  function FateOf(outcome: Outcome): Fate {
    match outcome
    case Waiting => Stays
    case Rejected => Leaves
    case _ => Enters
  }

  lemma TipsDiffer(chain: Chain)
    requires Valid(chain)
    ensures Distinct(chain.tips)
  {
    hide Once, EarlierLinks, Serials, Statuses, AllParties, Recorded;
    LinkedIs(chain.dag, chain.tips);
  }

  /** "find 2 tips", and their verification if there are any. */
  method Pick(chain: Chain, ghost deal: Deal) returns (outcome: Outcome, trunk: Transaction?, branch: Transaction?)
    requires Valid(chain)
    modifies Elements(chain.nodes)`flag, chain`sent
    ensures Valid(chain) && outcome in {Waiting, Rejected, Added} && Picked(old(Correct(chain.tips)), trunk, branch)
    ensures (trunk != null ==> trunk in old(chain.nodes)) && (branch != null ==> branch in old(chain.nodes))
    ensures !outcome.Added? ==> trunk != null && branch != null
    ensures forall y :: y in old(chain.nodes) && y != trunk && y != branch ==> y.flag == old(y.flag)
    ensures old(chain.sent) <= chain.sent && Settling(trunk, branch) == old(Settling(trunk, branch))
            && Moving(trunk, branch) == old(Moving(trunk, branch))
    ensures outcome.Waiting? ==> chain.sent == old(chain.sent) && Unserved(chain.list[..], trunk, branch)
    ensures !outcome.Rejected? ==> forall y :: y in old(chain.nodes) ==> y.flag == old(y.flag)
    ensures outcome.Rejected? ==> TurnedDown(chain.list[..], trunk, branch)
    ensures outcome.Rejected? ==> (trunk.flag || branch.flag) && (trunk.flag && branch.flag ==> trunk == branch)
                                  && Refused(chain.list[..], old(chain.sent), chain.sent, trunk, branch)
    ensures outcome.Added? && trunk != null
            ==> branch != null && Verified(chain.list[..], trunk.deal) && Verified(chain.list[..], branch.deal)
    ensures Refusals(chain.sent) == Refusals(old(chain.sent)) + if outcome.Rejected? then 1 else 0
    ensures outcome.Added? ==> ViewOf(chain) == old(ViewOf(chain))
    ensures !outcome.Added? && Clear(old(ViewOf(chain)).tips)
            ==> Takes(old(ViewOf(chain)), deal, FateOf(outcome), ViewOf(chain), [])
  {
    hide Valid, Linked, Parties, Correct, Settling, Moving, Served, Refused, Verified, Refusals, Takes, TipsOf, Unserved,
         TurnedDown, Distinct, Clear;
    ghost var tips, t, v := chain.tips, TipsOf(chain.tips), ViewOf(chain);
    TipsAreNodes(chain);
    TipsDiffer(chain);
    AllCorrect(tips);
    CorrectTips(tips);
    trunk, branch := TransactionSeek(chain.dag, chain.tips);
    outcome := Added;
    if trunk != null {
      outcome := VerifyLinks(chain, trunk, branch);
    }
    if outcome.Added? {
      SameView(tips, t);
    } else if Clear(t) {
      PickedTakes(tips, v, chain.sent, trunk, branch, deal, outcome);
    }
  }

  lemma SameView(tips: seq<Transaction>, t: seq<Tip>)
    requires |t| == |tips| && forall i :: 0 <= i < |t| ==> t[i] == TipOf(tips[i])
    ensures TipsOf(tips) == t
  {
    hide TipsOf, TipOf;
  }

  /** Accepting a transaction is booked: the deals of its links are settled. */
  method Admit(chain: Chain, trunk: Transaction?, branch: Transaction?, deal: Deal)
    requires Valid(chain) && Parties(chain.list[..], deal)
    requires (trunk != null ==> trunk in chain.nodes) && (branch != null ==> branch in chain.nodes)
    modifies chain, chain.list, Elements(chain.nodes)
    ensures Valid(chain) && chain.taken == old(chain.taken) + [deal] && chain.dagNumber == old(chain.dagNumber)
    ensures |chain.nodes| == |old(chain.nodes)| + 1 && chain.nodes[..|old(chain.nodes)|] == old(chain.nodes)
            && fresh(chain.nodes[|old(chain.nodes)|]) && IsNew(chain.nodes[|old(chain.nodes)|], trunk, branch, deal)
    ensures old(chain.nodes) <= chain.nodes && forall y :: y in chain.nodes ==> y in old(chain.nodes) || fresh(y)
    ensures chain.list[..] == SettledAll(old(chain.list[..]), old(Settling(trunk, branch)))
            && chain.moved == old(chain.moved) + old(Moving(trunk, branch))
    ensures Told(old(chain.queue), chain.queue) && old(chain.sent) <= chain.sent
            && Refusals(chain.sent) == Refusals(old(chain.sent))
            && Booked(old(chain.list[..]), chain.list[..], chain.taken, old(chain.moved), chain.moved)
    ensures chain.queue == old(chain.queue) + old(LinkNotices(chain.list[..], trunk, branch))
            && chain.sent == old(chain.sent) + old(LinkDeliveries(chain.list[..], trunk, branch))
    ensures forall y :: y in old(chain.nodes) ==> y.deal == old(y.deal) && y.flag == old(y.flag) && y.serial == old(y.serial)
    ensures forall y :: y in old(chain.nodes) && y != trunk && y != branch ==> y.status == old(y.status)
    ensures (trunk != null ==> trunk.status == DAG) && (branch != null ==> branch.status == DAG)
    ensures var tips := [chain.nodes[|old(chain.nodes)|]] + old(chain.tips);
            chain.tips == if |Correct(tips)| == TIP_NUM then OnlyTips(tips) else tips
    ensures Clear(old(ViewOf(chain)).tips) && Picked(Elements(old(chain.tips)), trunk, branch)
            && (trunk != null && branch != null
                ==> Verified(old(chain.list[..]), old(trunk.deal)) && Verified(old(chain.list[..]), old(branch.deal)))
            ==> Takes(old(ViewOf(chain)), deal, Enters, ViewOf(chain), old(LinkNotices(chain.list[..], trunk, branch)))
  {
    hide Valid, Linked, Parties, Settled, SettledAll, Correct, OnlyTips, Booked, Settling, Moving, Told, Served, Refusals,
         Takes, TipsOf, Verified, Picked, Distinct, LinkNotices, LinkDeliveries, DueNotices, DueDeliveries, Due;
    SettlingParties(chain, trunk, branch);
    ghost var l, t, m, d, e := chain.list[..], chain.taken, chain.moved, Settling(trunk, branch), Moving(trunk, branch);
    ghost var tips, v, sent := chain.tips, TipsOf(chain.tips), chain.sent;
    ghost var n, dd := LinkNotices(l, trunk, branch), LinkDeliveries(l, trunk, branch);
    TipsAreNodes(chain);
    TipsDiffer(chain);
    AllDue(tips, l);
    ghost var clear := Clear(v) && Picked(Elements(tips), trunk, branch)
                       && (trunk != null && branch != null ==> Verified(l, trunk.deal) && Verified(l, branch.deal));
    var x := Accept(chain, trunk, branch, deal);
    BookedSome(l, d, t, chain.taken, m, e);
    if clear {
      AdmitTakes(chain, tips, View(v, l, sent), deal, trunk, branch, x, d, n, dd);
    }
  }

  /** A transaction that enters with correct tips, as others see it. tips, t and l are the tips and the list before it
      came, x the node made for it. */
  lemma AdmitTakes(chain: Chain, tips: seq<Transaction>, v: View, deal: Deal, trunk: Transaction?, branch: Transaction?,
      x: Transaction, due: seq<Deal>, n: seq<Message>, dd: seq<Delivery>)
    requires Distinct(tips)
    requires |v.tips| == |tips| && Clear(v.tips)
      && forall i :: 0 <= i < |tips| ==> tips[i].deal == v.tips[i].deal && !tips[i].flag
    requires forall i :: 0 <= i < |tips| && tips[i] != trunk && tips[i] != branch ==> tips[i].status == v.tips[i].status
    requires Picked(Elements(tips), trunk, branch) && x !in tips && IsNew(x, trunk, branch, deal)
    requires chain.tips == if |Correct([x] + tips)| == TIP_NUM then OnlyTips([x] + tips) else [x] + tips
    requires chain.list[..] == SettledAll(v.list, due) && chain.sent == v.sent + dd
    requires trunk != null && branch != null
             ==> trunk.status == DAG && branch.status == DAG && Verified(v.list, trunk.deal) && Verified(v.list, branch.deal)
    requires trunk == null && branch == null ==> due == [] && n == [] && dd == []
    requires forall i, j :: 0 <= i < |tips| && 0 <= j < |tips| && tips[i] == trunk && tips[j] == branch ==>
               due == Due(v.tips, i, j) && n == DueNotices(v.list, v.tips, i, j) && dd == DueDeliveries(v.list, v.tips, i, j)
    ensures Takes(v, deal, Enters, ViewOf(chain), n)
  {
    hide Takes, TipsOf, Picked, Verified, OnlyTips, SettledAll, Due, Correct, DueNotices, DueDeliveries, Clear;
    ElementsCount(tips);
    if trunk == null {
      PickedNone(tips, branch);
      StartTakes(v, chain.list[..], x, chain.tips, deal);
    } else {
      var p, q := PickedPlaces(tips, trunk, branch);
      AdmittedTakes(tips, v, View(TipsOf(chain.tips), chain.list[..], chain.sent), x, chain.tips, trunk, branch, deal, p, q, n);
    }
  }

  /** One queued transaction: it overwrites a rejected tip if there is one, and otherwise tries to enter the graph. */
  method HandleTransfer(chain: Chain, deal: Deal)
      returns (outcome: Outcome, trunk: Transaction?, branch: Transaction?, ghost tip: Transaction?, ghost n: seq<Message>)
    requires Valid(chain) && Parties(chain.list[..], deal)
    modifies chain, chain.list, Elements(chain.nodes)
    ensures Valid(chain) && Booked(old(chain.list[..]), chain.list[..], chain.taken, old(chain.moved), chain.moved)
    ensures Told(old(chain.queue), chain.queue) && chain.dagNumber == old(chain.dagNumber)
    ensures chain.taken == old(chain.taken) + if outcome.Reused? || outcome.Added? then [deal] else []
    ensures old(chain.moved) <= chain.moved && old(chain.nodes) <= chain.nodes
            && forall x :: x in chain.nodes ==> x in old(chain.nodes) || fresh(x)
    ensures !outcome.Added? ==> chain.nodes == old(chain.nodes) && chain.tips == old(chain.tips)
    ensures !outcome.Added? ==> chain.list[..] == old(chain.list[..]) && chain.moved == old(chain.moved)
                                && chain.queue == old(chain.queue)
    ensures outcome.Reused? <==> tip != null
    ensures tip == null ==> forall y :: y in old(chain.tips) ==> !old(y.flag)
    ensures tip != null ==> tip in old(chain.tips) && old(tip.flag) && !tip.flag && tip.status == TIP
                            && tip.deal == deal && tip.serial == |old(chain.taken)|
    ensures tip != null ==> forall y :: y in old(chain.nodes) && y != tip
                                        ==> y.deal == old(y.deal) && y.flag == old(y.flag) && y.status == old(y.status)
    ensures !outcome.Reused?
            ==> forall y :: y in old(chain.nodes)
                            ==> && y.deal == old(y.deal)
                                && (y != trunk && y != branch ==> y.status == old(y.status) && y.flag == old(y.flag))
    ensures !outcome.Reused? ==> Picked(old(Correct(chain.tips)), trunk, branch)
    ensures Refusals(chain.sent) == Refusals(old(chain.sent)) + if outcome.Rejected? then 1 else 0
    ensures old(chain.sent) <= chain.sent && (outcome.Waiting? || outcome.Reused? ==> chain.sent == old(chain.sent))
    ensures outcome.Rejected? ==> Refused(chain.list[..], old(chain.sent), chain.sent, trunk, branch)
    ensures outcome.Waiting? ==> trunk != null && branch != null && Unserved(chain.list[..], trunk, branch)
    ensures Takes(old(ViewOf(chain)), deal, FateOf(outcome), ViewOf(chain), n) && chain.queue == old(chain.queue) + n
    ensures outcome.Rejected? ==> trunk != null && branch != null && (trunk.flag || branch.flag)
                                  && (trunk.flag && branch.flag ==> trunk == branch)
    ensures outcome.Added? ==> |chain.nodes| == |old(chain.nodes)| + 1
                               && IsNew(chain.nodes[|old(chain.nodes)|], trunk, branch, deal)
  {
    hide Valid, Linked, Parties, Settled, SettledAll, Correct, OnlyTips, Booked, Settling, Moving, Told, Served, Picked, Refused,
         IsNew, Refusals, Takes, TipsOf, Unserved;
    TipsAreNodes(chain);
    ToldNothing(chain.queue);
    ghost var l, m := chain.list[..], chain.moved;
    var error, k := ErrorTip(chain.dag, chain.tips);
    if error != null {
      Reuse(chain, error, deal, k);
      BookedNothing(l, chain.taken, m);
      return Reused, null, null, error, [];
    }
    tip := null;
    outcome, trunk, branch, n := Enter(chain, deal);
    if !outcome.Added? {
      BookedNothing(l, chain.taken, m);
    }
  }

  /** A transaction that takes over a rejected tip, as others see it. */
  lemma ReusedTakes(tips: seq<Transaction>, t: seq<Tip>, k: nat, l: seq<Entry>, sent: seq<Delivery>, deal: Deal)
    requires |t| == |tips| && k < |t| && t[k].flag && TipOf(tips[k]) == Fresh(deal)
    requires forall i :: 0 <= i < |t| && i != k ==> TipOf(tips[i]) == t[i]
    requires forall i :: 0 <= i < k ==> !t[i].flag
    ensures Takes(View(t, l, sent), deal, Enters, View(TipsOf(tips), l, sent), [])
  {
    hide TipsOf, TipOf;
    assert FirstFlag(t, k);
    assert TipsOf(tips) == t[k := Fresh(deal)];
  }

  lemma CorrectTips(tips: seq<Transaction>)
    ensures forall x :: x in Correct(tips) ==> x in tips && !x.flag
  {}

  /** The deal of the link that was refused. */
  ghost function RefusedDeal(trunk: Transaction, branch: Transaction): Deal
    reads trunk, branch
  {
    if trunk.flag then trunk.deal else branch.deal
  }

  /** The sender of the flagged link has been told through its heavy node why it was refused. */
  ghost predicate Refused(list: seq<Entry>, sent: seq<Delivery>, sent': seq<Delivery>, trunk: Transaction?, branch: Transaction?)
    reads if trunk == null then {} else {trunk}, if branch == null then {} else {branch}
  {
    trunk != null && branch != null
    && Find(list, RefusedDeal(trunk, branch).src) < |list|
    && exists status: nat :: Failed(list, RefusedDeal(trunk, branch), status)
                             && Sends(list, sent, sent', RefusedDeal(trunk, branch), status)
  }

  ghost predicate Sends(list: seq<Entry>, sent: seq<Delivery>, sent': seq<Delivery>, deal: Deal, status: nat)
    requires Find(list, deal.src) < |list|
  {
    sent' == sent + [Delivery(HeavyFor(list, deal.src), Notice(status, deal.src, deal.token))]
  }

  /** Why a transaction waits: a link has no heavy node, and the one before it has passed. */
  ghost predicate Unserved(list: seq<Entry>, trunk: Transaction, branch: Transaction)
    reads trunk, branch
  {
    !Served(list, trunk.deal) || (Verified(list, trunk.deal) && !Served(list, branch.deal))
  }

  /** Which link has been refused. */
  ghost predicate TurnedDown(list: seq<Entry>, trunk: Transaction, branch: Transaction)
    reads trunk, branch
  {
    if trunk.flag then Served(list, trunk.deal) && (branch.flag ==> branch == trunk)
    else branch.flag && Verified(list, trunk.deal) && Served(list, branch.deal)
  }

  /** Both links must have a heavy node and pass verification; the first that fails is flagged and its sender told. */
  method VerifyLinks(chain: Chain, trunk: Transaction, branch: Transaction) returns (outcome: Outcome)
    requires Valid(chain) && trunk in chain.nodes && branch in chain.nodes && !trunk.flag && !branch.flag
    modifies trunk`flag, branch`flag, chain`sent
    ensures Valid(chain) && outcome in {Waiting, Rejected, Added}
    ensures !outcome.Rejected? ==> !trunk.flag && !branch.flag && chain.sent == old(chain.sent)
    ensures outcome.Rejected? ==> (trunk.flag || branch.flag) && (trunk.flag && branch.flag ==> trunk == branch)
                                  && Refused(chain.list[..], old(chain.sent), chain.sent, trunk, branch)
    ensures old(chain.sent) <= chain.sent && Settling(trunk, branch) == old(Settling(trunk, branch))
            && Moving(trunk, branch) == old(Moving(trunk, branch))
    ensures outcome.Waiting? ==> Unserved(chain.list[..], trunk, branch)
    ensures outcome.Rejected? ==> TurnedDown(chain.list[..], trunk, branch)
    ensures outcome.Added? ==> Verified(chain.list[..], trunk.deal) && Verified(chain.list[..], branch.deal)
    ensures Refusals(chain.sent) == Refusals(old(chain.sent)) + if outcome.Rejected? then 1 else 0
  {
    hide Once, Linked, EarlierLinks, Serials, Statuses, Distinct, AllParties, HasHeavy, HeavyFor, Sends, Recorded, Find, Refused,
         Failed, MayAnswer, Refusals;
    PartyOf(chain, trunk);
    PartyOf(chain, branch);
    var status;
    ghost var l, sent := chain.list[..], chain.sent;
    outcome, status := VerifyLink(chain, trunk);
    if !outcome.Added? {
      if outcome.Rejected? {
        RefusedBy(l, sent, chain.sent, trunk, branch, status);
      }
      return;
    }
    outcome, status := VerifyLink(chain, branch);
    if outcome.Rejected? {
      RefusedBy(l, sent, chain.sent, trunk, branch, status);
    }
  }

  lemma RefusedBy(list: seq<Entry>, sent: seq<Delivery>, sent': seq<Delivery>, trunk: Transaction, branch: Transaction,
      status: nat)
    requires Parties(list, RefusedDeal(trunk, branch)) && Failed(list, RefusedDeal(trunk, branch), status)
             && Sends(list, sent, sent', RefusedDeal(trunk, branch), status)
    ensures Refused(list, sent, sent', trunk, branch) && sent <= sent' && Refusals(sent') == Refusals(sent) + 1
  {
    hide Find, HeavyFor, RefusedDeal, Refusals, MayAnswer;
    var deal := RefusedDeal(trunk, branch);
    RefusalsMore(sent, Delivery(HeavyFor(list, deal.src), Notice(status, deal.src, deal.token)));
  }

  /** transaction_verify, for an outcome of the address check, a length from rsa_enc, and what lies past the list. */
  method TransactionVerify(list: array<Entry>, deal: Deal, address: bool, length: nat, past: nat) returns (status: nat)
    requires Parties(list[..], deal) && length <= KEY_LEN
    ensures status == Verdict(list[..], deal, address, length, past)
  {
    hide Find;
    var i := Seek(list, deal.src);
    i := length;
    if !address {
      return STATUS_DEVICE;
    }
    var token := if i < list.Length then list[i].token else past;
    if deal.token > token {
      return STATUS_LEDGER;
    }
    return STATUS_DONE;
  }

  lemma VerdictIsOne(list: seq<Entry>, deal: Deal, address: bool, length: nat, past: nat)
    ensures Verdict(list, deal, address, length, past) in {STATUS_DONE, STATUS_DEVICE, STATUS_LEDGER}
  {}

  /** transaction_device, transaction_verify, and the notice of a refusal. */
  method VerifyLink(chain: Chain, x: Transaction) returns (outcome: Outcome, status: nat)
    requires Parties(chain.list[..], x.deal)
    modifies x`flag, chain`sent
    ensures outcome in {Waiting, Rejected, Added}
    ensures outcome.Waiting? <==> !Served(chain.list[..], x.deal)
    ensures outcome.Added? ==> MayAnswer(chain.list[..], x.deal, STATUS_DONE)
    ensures x.flag == (old(x.flag) || outcome.Rejected?)
    ensures if outcome.Rejected? then Failed(chain.list[..], x.deal, status)
                                      && Sends(chain.list[..], old(chain.sent), chain.sent, x.deal, status)
            else chain.sent == old(chain.sent)
  {
    hide HasHeavy, Find, HeavyFor, Verdict;
    status := STATUS_DONE;
    var missing, index := FindHeavy(chain.list, x.deal.src);
    if missing {
      return Waiting, STATUS_DONE;
    }
    var address: bool, length: nat, past: nat :| length <= KEY_LEN;
    status := TransactionVerify(chain.list, x.deal, address, length, past);
    VerdictIsOne(chain.list[..], x.deal, address, length, past);
    if status != STATUS_DONE {
      x.flag := true;
      chain.sent := chain.sent + [Delivery(index, Notice(status, x.deal.src, x.deal.token))];
      return Rejected, status;
    }
    return Added, STATUS_DONE;
  }

  /** The parties of every queued deal are listed. */
  ghost predicate QueueParties(list: seq<Entry>, q: seq<Message>) {
    forall m :: m in q && m.Transfer? ==> Parties(list, m.deal)
  }

  lemma QueuePartiesKept(list: seq<Entry>, list': seq<Entry>, q: seq<Message>)
    requires SameDevices(list, list') && QueueParties(list, q)
    ensures QueueParties(list', q)
  {
    hide Parties, SameDevices;
    forall m | m in q && m.Transfer? ensures Parties(list', m.deal) {
      PartiesKept(list, list', m.deal);
    }
  }

  lemma ToldNothing(q: seq<Message>)
    ensures Told(q, q)
  {}

  /** A queue without the message at place i. */
  function Less(q: seq<Message>, i: nat): seq<Message>
    requires i < |q|
  {
    q[..i] + q[i + 1..]
  }

  lemma ToldWithout(q: seq<Message>, q': seq<Message>, i: nat)
    requires Told(q, q') && i < |q|
    ensures i < |q'| && Told(Less(q, i), Less(q', i))
  {
    assert q' == q + q'[|q|..];
    assert Less(q', i) == Less(q, i) + q'[|q|..];
  }

  /** A transaction stays in the queue, or it is taken out of it: into the graph, or dropped because a tip is rejected.
      It stays only if no tip was rejected and a sender of the two correct tips picked has no heavy node; it enters in
      the place of a rejected tip, or as a new node linked to the tips picked. */
  method RecvTransfer(chain: Chain, i: nat, deal: Deal)
    returns (fate: Fate, ghost trunk: Transaction?, ghost branch: Transaction?, ghost tip: Transaction?,
      ghost n: seq<Message>)
    requires Valid(chain) && Parties(chain.list[..], deal) && i < |chain.queue| && chain.queue[i] == Transfer(deal)
    modifies chain, chain.list, Elements(chain.nodes)
    ensures Valid(chain) && Booked(old(chain.list[..]), chain.list[..], chain.taken, old(chain.moved), chain.moved)
    ensures old(chain.nodes) <= chain.nodes && old(chain.sent) <= chain.sent && chain.dagNumber == old(chain.dagNumber)
    ensures forall x :: x in chain.nodes ==> x in old(chain.nodes) || fresh(x)
    ensures fate.Stays? ==> chain.queue == old(chain.queue) && chain.nodes == old(chain.nodes)
                            && chain.list[..] == old(chain.list[..])
    ensures !fate.Stays? ==> Told(Less(old(chain.queue), i), chain.queue)
    ensures chain.taken == old(chain.taken) + if fate.Enters? then [deal] else []
    ensures fate.Leaves? ==> exists x :: x in old(chain.tips) && !old(x.flag) && x.flag
    ensures Refusals(chain.sent) == Refusals(old(chain.sent)) + if fate.Leaves? then 1 else 0
    ensures Takes(old(ViewOf(chain)), deal, fate, ViewOf(chain), n)
    ensures chain.queue == (if fate.Stays? then old(chain.queue) else Less(old(chain.queue), i)) + n
    ensures if tip == null then forall y :: y in old(chain.tips) ==> !old(y.flag) else tip in old(chain.tips) && old(tip.flag)
    ensures tip != null ==> fate.Enters? && tip.deal == deal && !tip.flag && tip.status == TIP
    ensures tip == null && old(Correct(chain.tips)) == {} ==> fate.Enters? && trunk == null && branch == null
    ensures tip == null && old(Correct(chain.tips)) != {}
            ==> trunk in old(Correct(chain.tips)) && branch in old(Correct(chain.tips))
                && (trunk == branch <==> |old(Correct(chain.tips))| == 1)
    ensures fate.Stays? ==> trunk != null && branch != null
                            && !(Served(chain.list[..], trunk.deal) && Served(chain.list[..], branch.deal))
    ensures fate.Enters? && tip == null
            ==> |chain.nodes| == |old(chain.nodes)| + 1
                && var x := chain.nodes[|old(chain.nodes)|];
                   x.trunk == trunk && x.branch == branch && x.deal == deal && x.status == TIP && !x.flag
  {
    hide Once, Linked, EarlierLinks, Serials, Statuses, Distinct, AllParties, Booked, Told, Recorded, Refused, Refusals,
         Parties, Settling, Moving, SettledAll, Served, Takes, TipsOf, ViewOf, TipOf, Correct, Verified;
    ghost var q, l := chain.queue, chain.list[..];
    CorrectTips(chain.tips);
    var outcome;
    outcome, trunk, branch, tip, n := HandleTransfer(chain, deal);
    if outcome.Waiting? {
      fate := Stays;
    } else {
      fate := if outcome.Rejected? then Leaves else Enters;
      ToldWithout(q, chain.queue, i);
      chain.queue := chain.queue[..i] + chain.queue[i + 1..];
    }
  }

  /** One message of the loop of transaction_recv. */
  method RecvOne(chain: Chain, i: nat) returns (fate: Fate, ghost n: seq<Message>)
    requires Valid(chain) && i < |chain.queue|
    requires chain.queue[i].Transfer? ==> Parties(chain.list[..], chain.queue[i].deal)
    modifies chain, chain.list, Elements(chain.nodes)
    ensures Valid(chain) && Booked(old(chain.list[..]), chain.list[..], chain.taken, old(chain.moved), chain.moved)
    ensures old(chain.nodes) <= chain.nodes && old(chain.sent) <= chain.sent && chain.dagNumber == old(chain.dagNumber)
    ensures forall x :: x in chain.nodes ==> x in old(chain.nodes) || fresh(x)
    ensures MayBe(old(chain.queue)[i], fate)
    ensures fate.Stays? ==> chain.queue == old(chain.queue)
    ensures !fate.Stays? ==> Told(Less(old(chain.queue), i), chain.queue)
    ensures chain.taken == old(chain.taken) + if fate.Enters? then [old(chain.queue)[i].deal] else []
    ensures Refusals(chain.sent) == Refusals(old(chain.sent)) + if fate.Leaves? && old(chain.queue)[i].Transfer? then 1 else 0
    ensures Received(old(ViewOf(chain)), old(chain.queue)[i], fate, ViewOf(chain), n)
    ensures chain.queue == (if fate.Stays? then old(chain.queue) else Less(old(chain.queue), i)) + n
  {
    hide Once, Linked, EarlierLinks, Serials, Statuses, Distinct, AllParties, Booked, Told, Recorded, Parties, Refusals, Takes,
         ViewOf, Correct, Served;
    n := [];
    match chain.queue[i] {
      case Wake =>
        BookedNothing(chain.list[..], chain.taken, chain.moved);
        chain.queue := chain.queue[..i] + chain.queue[i + 1..];
        ToldNothing(chain.queue);
        fate := Leaves;
      case Transfer(deal) =>
        ghost var trunk, branch, tip;
        fate, trunk, branch, tip, n := RecvTransfer(chain, i, deal);
      case _ =>
        BookedNothing(chain.list[..], chain.taken, chain.moved);
        fate := Stays;
    }
  }

  /** The queue of transaction_recv after its first j messages: those that stay, the rest, and the new notices. */
  ghost predicate Midway(q: seq<Message>, j: nat, f: seq<Fate>, q': seq<Message>, i: nat) {
    && j <= |q| && |f| == j && Fated(q[..j], f) && Told(Left(q[..j], f) + q[j..], q')
    && |Left(q[..j], f)| <= i <= |q'| && (j < |q| ==> i == |Left(q[..j], f)|)
  }

  lemma MidwayStart(q: seq<Message>)
    ensures Midway(q, 0, [], q, 0)
  {
    NoFates();
    assert q[..0] == [] && [] + q[0..] == q;
  }

  lemma MidwayMessage(q: seq<Message>, j: nat, f: seq<Fate>, q': seq<Message>, i: nat)
    requires Midway(q, j, f, q', i) && i < |q'|
    ensures if j < |q| then q'[i] == q[j] else q'[i].Notice?
  {
    hide Fated, Left;
    var r := Left(q[..j], f) + q[j..];
    if j < |q| {
      assert r[i] == q[j];
    }
  }

  /** One more message has met its fate. */
  lemma MidwayNext(q: seq<Message>, j: nat, f: seq<Fate>, q': seq<Message>, i: nat, q'': seq<Message>, fate: Fate)
    requires Midway(q, j, f, q', i) && j < |q| && i < |q'| && MayBe(q[j], fate)
    requires if fate.Stays? then q'' == q' else Told(Less(q', i), q'')
    ensures Midway(q, j + 1, f + [fate], q'', if fate.Stays? then i + 1 else i)
            && (if fate.Stays? then i + 1 else i) <= |q''|
  {
    hide Fated, Left, Entered;
    var p := q[..j];
    FateMore(p, f, q[j], fate);
    assert q[..j + 1] == p + [q[j]] && q[j..] == [q[j]] + q[j + 1..];
    var r := Left(p, f) + q[j..];
    if fate.Stays? {
      assert Left(p, f) + [q[j]] + q[j + 1..] == r;
    } else {
      ToldWithout(r, q', i);
      assert Less(r, i) == Left(p, f) + q[j + 1..];
      assert Left(p, f) + [] == Left(p, f);
      ToldTwice(Less(r, i), Less(q', i), q'');
    }
  }

  lemma ToldTwice(q: seq<Message>, r: seq<Message>, s: seq<Message>)
    requires Told(q, r) && Told(r, s)
    ensures Told(q, s)
  {
    assert forall i :: |q| <= i < |r| ==> s[i] == r[i];
  }

  lemma MidwayEnd(q: seq<Message>, j: nat, f: seq<Fate>, q': seq<Message>, i: nat)
    requires Midway(q, j, f, q', i) && i == |q'|
    ensures j == |q| == |f| && Fated(q, f) && Told(Left(q, f), q')
  {
    hide Fated, Left;
    assert j == |q| && q[..j] == q;
    assert Left(q, f) + q[j..] == Left(q, f);
  }

  lemma InQueue(list: seq<Entry>, list': seq<Entry>, q: seq<Message>, j: nat)
    requires QueueParties(list, q) && SameDevices(list, list') && j < |q| && q[j].Transfer?
    ensures Parties(list', q[j].deal)
  {
    hide Parties, SameDevices;
    PartiesKept(list, list', q[j].deal);
  }

  /** transaction_recv ends, and every message of the queue meets one fate: it stays in its place, its transaction
      enters the graph, or it leaves.  Behind those that stay there are only notices. */
  method TransactionRecv(chain: Chain) returns (ghost f: seq<Fate>, ghost vs: seq<View>, ghost ns: seq<seq<Message>>)
    requires Valid(chain) && QueueParties(chain.list[..], chain.queue)
    modifies chain, chain.list, Elements(chain.nodes)
    ensures Valid(chain) && Booked(old(chain.list[..]), chain.list[..], chain.taken, old(chain.moved), chain.moved)
    ensures old(chain.nodes) <= chain.nodes && old(chain.sent) <= chain.sent && chain.dagNumber == old(chain.dagNumber)
    ensures forall x :: x in chain.nodes ==> x in old(chain.nodes) || fresh(x)
    ensures |f| == |old(chain.queue)| && Fated(old(chain.queue), f) && Told(Left(old(chain.queue), f), chain.queue)
    ensures chain.taken == old(chain.taken) + Entered(old(chain.queue), f)
    ensures Refusals(chain.sent) == Refusals(old(chain.sent)) + Dropped(old(chain.queue), f)
    ensures Receives(old(chain.queue), f, vs, ns) && vs[0] == old(ViewOf(chain)) && vs[|old(chain.queue)|] == ViewOf(chain)
    ensures chain.queue == Left(old(chain.queue), f) + Flat(ns)
  {
    hide Valid, Booked, Told, Parties, Fated, Left, Entered, QueueParties, SameDevices, Midway, MayBe,
      Refusals, Dropped, Receives, Received, ViewOf, Flat, Reading;
    ghost var l, q, t, m := chain.list[..], chain.queue, chain.taken, chain.moved;
    BookedNothing(l, t, m);
    var i: nat := 0;
    ghost var j: nat := 0;
    f, vs, ns := [], [ViewOf(chain)], [];
    MidwayStart(q);
    ReadingStart(q, vs);
    assert q[..0] == [];
    NoFates();
    while i < |chain.queue|
      invariant Valid(chain) && Booked(l, chain.list[..], chain.taken, m, chain.moved) && Midway(q, j, f, chain.queue, i)
      invariant old(chain.nodes) <= chain.nodes && old(chain.sent) <= chain.sent && chain.dagNumber == old(chain.dagNumber)
      invariant forall x :: x in chain.nodes ==> x in old(chain.nodes) || fresh(x)
      invariant i <= |chain.queue| && j <= |q| && |f| == j && chain.taken == t + Entered(q[..j], f)
      invariant Refusals(chain.sent) == Refusals(old(chain.sent)) + Dropped(q[..j], f)
      invariant Reading(q, j, f, vs, ns, chain.queue) && |vs| == j + 1 && vs[0] == old(ViewOf(chain)) && vs[j] == ViewOf(chain)
      decreases |q| - j, |chain.queue| - i
    {
      ghost var n, r, u, v := chain.list[..], chain.queue, chain.taken, chain.moved;
      BookedTotal(l, n, u, m, v);
      MidwayMessage(q, j, f, r, i);
      if j < |q| && q[j].Transfer? {
        InQueue(l, n, q, j);
      }
      ghost var told: seq<Message>;
      var fate;
      fate, told := RecvOne(chain, i);
      BookedTwice(l, n, chain.list[..], u, chain.taken, m, v, chain.moved);
      if j < |q| {
        MidwayNext(q, j, f, r, i, chain.queue, fate);
        MidwayEnters(q, j, f, fate, r, i);
        ReadingNext(q, j, f, vs, ns, r, i, fate, ViewOf(chain), told, chain.queue);
        f, vs, ns := f + [fate], vs + [ViewOf(chain)], ns + [told];
        j := j + 1;
      } else {
        NoticeStays(r[i], fate);
        NoticeChangesNothing(vs[j], r[i], fate, ViewOf(chain), told);
        assert r + [] == r;
        MidwayOver(q, j, f, r, i);
      }
      i := if fate.Stays? then i + 1 else i;
    }
    MidwayEnd(q, j, f, chain.queue, i);
    assert q[..j] == q;
    ReadingEnd(q, f, vs, ns, chain.queue);
  }

  /** What the first j messages have met, and the queue after them. */
  ghost predicate Reading(q: seq<Message>, j: nat, f: seq<Fate>, vs: seq<View>, ns: seq<seq<Message>>, r: seq<Message>) {
    j <= |q| && Receives(q[..j], f, vs, ns) && |f| == j && r == Left(q[..j], f) + q[j..] + Flat(ns)
  }

  lemma ReadingStart(q: seq<Message>, vs: seq<View>)
    requires |vs| == 1
    ensures Reading(q, 0, [], vs, [], q)
  {
    NoneReceived(vs);
    NoFates();
    FlatMore([], []);
    assert q[..0] == [] && q == [] + q[0..] + [];
  }

  lemma ReadingNext(q: seq<Message>, j: nat, f: seq<Fate>, vs: seq<View>, ns: seq<seq<Message>>, r: seq<Message>, i: nat,
      fate: Fate, w: View, n: seq<Message>, r': seq<Message>)
    requires Reading(q, j, f, vs, ns, r) && j < |q| && |vs| == j + 1 && Received(vs[j], q[j], fate, w, n)
    requires Midway(q, j, f, r, i) && MayBe(q[j], fate) && i < |r|
    requires r' == (if fate.Stays? then r else Less(r, i)) + n
    ensures Reading(q, j + 1, f + [fate], vs + [w], ns + [n], r')
  {
    hide Receives, Received, Midway, Left, Flat, Less, MayBe;
    ReceivesNext(q, j, f, vs, ns, fate, w, n);
    QueueNext(q, j, f, Flat(ns), r, i, fate, n, r');
    FlatMore(ns, n);
  }

  lemma ReadingEnd(q: seq<Message>, f: seq<Fate>, vs: seq<View>, ns: seq<seq<Message>>, r: seq<Message>)
    requires Reading(q, |q|, f, vs, ns, r)
    ensures Receives(q, f, vs, ns) && |f| == |q| && r == Left(q, f) + Flat(ns)
  {
    hide Receives, Left, Flat;
    assert q[..|q|] == q && Left(q, f) + [] == Left(q, f);
  }

  /** The queue after one more message has met its fate. */
  lemma QueueNext(q: seq<Message>, j: nat, f: seq<Fate>, told: seq<Message>, r: seq<Message>, i: nat, fate: Fate,
      n: seq<Message>, r': seq<Message>)
    requires Midway(q, j, f, r, i) && j < |q| && |f| == j && r == Left(q[..j], f) + q[j..] + told && MayBe(q[j], fate)
    requires i < |r| && r' == (if fate.Stays? then r else Less(r, i)) + n
    ensures |q[..j + 1]| == |f + [fate]| && r' == Left(q[..j + 1], f + [fate]) + q[j + 1..] + (told + n)
  {
    hide Fated, Left, Entered, Told;
    FateMore(q[..j], f, q[j], fate);
    assert q[..j + 1] == q[..j] + [q[j]] && q[j..] == [q[j]] + q[j + 1..];
    var l := Left(q[..j], f);
    Rearranged(l, q[j], q[j + 1..], told, n);
    assert l + [] == l;
  }

  lemma Rearranged(l: seq<Message>, m: Message, rest: seq<Message>, told: seq<Message>, n: seq<Message>)
    ensures |l| < |l + ([m] + rest) + told|
    ensures l + ([m] + rest) + told + n == l + [m] + rest + (told + n)
    ensures Less(l + ([m] + rest) + told, |l|) + n == l + rest + (told + n)
  {}

  lemma MidwayEnters(q: seq<Message>, j: nat, f: seq<Fate>, fate: Fate, q': seq<Message>, i: nat)
    requires Midway(q, j, f, q', i) && j < |q| && MayBe(q[j], fate)
    ensures |f| == j && |q[..j + 1]| == |f + [fate]|
    ensures Entered(q[..j + 1], f + [fate]) == Entered(q[..j], f) + if fate.Enters? then [q[j].deal] else []
    ensures Dropped(q[..j + 1], f + [fate]) == Dropped(q[..j], f) + if fate.Leaves? && q[j].Transfer? then 1 else 0
  {
    hide Left, Entered, Dropped;
    FateMore(q[..j], f, q[j], fate);
    DroppedMore(q[..j], f, q[j], fate);
    assert q[..j + 1] == q[..j] + [q[j]];
  }

  lemma NoticeStays(m: Message, fate: Fate)
    requires m.Notice? && MayBe(m, fate)
    ensures fate.Stays?
  {}

  lemma MidwayOver(q: seq<Message>, j: nat, f: seq<Fate>, q': seq<Message>, i: nat)
    requires Midway(q, j, f, q', i) && j == |q| && i < |q'|
    ensures Midway(q, j, f, q', i + 1)
  {
    hide Fated, Left;
  }

  /** What every step of the main chain keeps. */
  ghost predicate Running(chain: Chain)
    reads chain, chain.list, chain.nodes, chain.tips
  {
    && Valid(chain) && QueueParties(chain.list[..], chain.queue) && AllKnown(chain.list[..], chain.queue)
    && Groups.Numbered(Numbers(chain.list[..]), chain.dagNumber) && DistinctDevices(chain.list[..]) && ConnectsFirst(chain.queue)
  }

  lemma {:induction false} SettledAllNumbers(list: seq<Entry>, deals: seq<Deal>)
    ensures Numbers(SettledAll(list, deals)) == Numbers(list)
  {
    if |deals| > 0 {
      SettledAllNumbers(list, deals[..|deals| - 1]);
      var most := SettledAll(list, deals[..|deals| - 1]);
      assert forall i :: 0 <= i < |list| ==> Numbers(SettledAll(list, deals))[i] == Numbers(most)[i];
    }
  }

  /** Settling deals and taking transactions out keeps the groups, the devices and what is known of the queue. */
  lemma BookedKeeps(list: seq<Entry>, list': seq<Entry>, taken: seq<Deal>, moved: seq<nat>, moved': seq<nat>,
      q: seq<Message>, f: seq<Fate>, q': seq<Message>)
    requires Booked(list, list', taken, moved, moved') && DistinctDevices(list)
    requires AllKnown(list, q) && QueueParties(list, q) && ConnectsFirst(q)
    requires |f| == |q| && Fated(q, f) && Told(Left(q, f), q')
    ensures Numbers(list') == Numbers(list) && DistinctDevices(list') && SameDevices(list, list')
            && Total(list') % WRAP == Total(list) % WRAP
    ensures AllKnown(list', q') && QueueParties(list', q') && ConnectsFirst(q')
  {
    hide SettledAll, Parties, Total, Numbers, Known, Find, Left, Fated;
    var deals := DealsOf(taken, moved'[|moved|..]);
    SettledAllNumbers(list, deals);
    AllConserved(list, deals);
    LeftIsPart(q, f);
    ToldMembers(Left(q, f), q');
    forall m | m in q' && m.Connect? ensures Known(list', m.report) {
      KnownKept(list, list', m.report);
    }
    forall m | m in q' && m.Transfer? ensures Parties(list', m.deal) {
      PartiesKept(list, list', m.deal);
    }
  }

  lemma ToldMembers(q: seq<Message>, q': seq<Message>)
    requires Told(q, q')
    ensures forall m :: m in q' ==> m in q || m.Notice?
    ensures ConnectsFirst(q) ==> ConnectsFirst(q')
  {}

  /** The tokens of list' are those of list after the deals of the newly moved transactions, all between listed devices. */
  ghost predicate Tied(list: seq<Entry>, list': seq<Entry>, taken: seq<Deal>, moved: seq<nat>, moved': seq<nat>) {
    && moved <= moved' && Below(moved'[|moved|..], |taken|)
    && var deals := DealsOf(taken, moved'[|moved|..]);
       SameAccounts(SettledAll(list, deals), list') && forall i :: 0 <= i < |deals| ==> Parties(list, deals[i])
  }

  lemma BookedIsTied(list: seq<Entry>, list': seq<Entry>, taken: seq<Deal>, moved: seq<nat>, moved': seq<nat>)
    requires Booked(list, list', taken, moved, moved')
    ensures Tied(list, list', taken, moved, moved')
  {
    hide SettledAll, Parties;
  }

  lemma TiedNothing(list: seq<Entry>, list': seq<Entry>, taken: seq<Deal>, moved: seq<nat>)
    requires SameAccounts(list, list')
    ensures Tied(list, list', taken, moved, moved)
  {
    assert moved[|moved|..] == [] && DealsOf(taken, []) == [];
  }

  lemma {:induction false} SettledSame(l: seq<Entry>, m: seq<Entry>, deals: seq<Deal>)
    requires SameAccounts(l, m)
    ensures SameAccounts(SettledAll(l, deals), SettledAll(m, deals))
  {
    if |deals| > 0 {
      SettledSame(l, m, deals[..|deals| - 1]);
    }
  }

  lemma TiedTwice(l: seq<Entry>, m: seq<Entry>, n: seq<Entry>, t: seq<Deal>, t': seq<Deal>, a: seq<nat>, b: seq<nat>,
      c: seq<nat>)
    requires Tied(l, m, t, a, b) && Tied(m, n, t', b, c) && t <= t'
    ensures Tied(l, n, t', a, c)
  {
    hide SettledAll, Parties, SameAccounts, SameDevices;
    var x, y := b[|a|..], c[|b|..];
    assert c[|a|..] == x + y;
    DealsLater(t, t', x);
    DealsAppend(t', x, y);
    var d, e := DealsOf(t', x), DealsOf(t', y);
    SettledAllAppend(l, d, e);
    SettledSame(SettledAll(l, d), m, e);
    AccountsTwice(SettledAll(l, d + e), SettledAll(m, e), n);
    SettledAllDevices(l, d);
    AccountsAreDevices(SettledAll(l, d), m);
    forall i | 0 <= i < |d + e| ensures Parties(l, (d + e)[i]) {
      if i >= |d| {
        PartiesKept(l, SettledAll(l, d), e[i - |d|]);
        PartiesKept(SettledAll(l, d), m, e[i - |d|]);
      }
    }
  }

  lemma AccountsTwice(l: seq<Entry>, m: seq<Entry>, n: seq<Entry>)
    requires SameAccounts(l, m) && SameAccounts(m, n)
    ensures SameAccounts(l, n)
  {}

  /** Every transaction that has been taken or is queued was so before, and none more often. */
  ghost predicate NoneTwice(taken: seq<Deal>, q: seq<Message>, taken': seq<Deal>, q': seq<Message>) {
    multiset(taken') + multiset(DealsIn(q')) <= multiset(taken) + multiset(DealsIn(q))
  }

  lemma FatedDeals(taken: seq<Deal>, q: seq<Message>, f: seq<Fate>, q': seq<Message>)
    requires |f| == |q| && Fated(q, f) && Told(Left(q, f), q')
    ensures NoneTwice(taken, q, taken + Entered(q, f), q' + [Wake])
  {
    hide Fated, Left, Entered, DealsIn;
    FatesPart(q, f);
    var r := Left(q, f);
    var n := q'[|r|..] + [Wake];
    assert q' + [Wake] == r + n;
    DealsInAppend(r, n);
    NoDealsIn(n);
    assert DealsIn(r) + [] == DealsIn(r);
    assert multiset(taken + Entered(q, f)) == multiset(taken) + multiset(Entered(q, f));
  }

  lemma {:induction false} OthersDeals(q: seq<Message>)
    ensures DealsIn(Others(q)) == DealsIn(q)
  {
    hide DealsIn;
    if |q| > 0 {
      var r := q[1..];
      assert q == [q[0]] + r;
      OthersDeals(r);
      DealsInAppend([q[0]], r);
      if q[0].Connect? {
        NoDealsIn([q[0]]);
        assert [] + DealsIn(r) == DealsIn(r);
        assert [] + Others(r) == Others(r);
      } else {
        DealsInAppend([q[0]], Others(r));
      }
    }
  }

  lemma CutDeals(taken: seq<Deal>, q: seq<Message>, k: nat)
    requires k <= |q|
    ensures NoneTwice(taken, q, taken, q[..k])
  {
    hide DealsIn;
    assert q == q[..k] + q[k..];
    DealsInAppend(q[..k], q[k..]);
  }

  lemma KnownKept(list: seq<Entry>, list': seq<Entry>, report: seq<Neighbour>)
    requires SameDevices(list, list') && Known(list, report)
    ensures Known(list', report)
  {
    hide Find;
    forall i | 0 <= i < |report| ensures Find(list', report[i].device) < |list'| {
      SameFind(list, list', report[i].device);
    }
  }

  lemma {:induction false} SameTotal(list: seq<Entry>, list': seq<Entry>)
    requires SameAccounts(list, list')
    ensures Total(list) == Total(list')
  {
    if |list| > 0 {
      SameTotal(list[..|list| - 1], list'[..|list| - 1]);
    }
  }

  lemma {:induction false} OthersAre(q: seq<Message>)
    ensures forall m :: m in Others(q) ==> m in q && !m.Connect?
  {
    if |q| > 0 {
      OthersAre(q[1..]);
    }
  }

  /** What connect_recv leaves behind keeps the invariant. */
  lemma ConnectedKeeps(list: seq<Entry>, list': seq<Entry>, nodes: seq<Transaction>, q: seq<Message>, q': seq<Message>)
    requires SameAccounts(list, list') && AllParties(list, nodes) && QueueParties(list, q) && DistinctDevices(list)
    requires q' == Others(q) || q' == Others(q) + [Wake]
    ensures AllParties(list', nodes) && QueueParties(list', q') && DistinctDevices(list') && AllKnown(list', q')
            && Total(list) == Total(list')
  {
    hide Total, Others, Parties, Known;
    OthersAre(q);
    SameTotal(list, list');
    assert SameDevices(list, list');
    AllPartiesKept(list, list', nodes);
    QueuePartiesKept(list, list', q);
  }

  lemma NoneConnects(q: seq<Message>, q': seq<Message>)
    requires q' == Others(q) || q' == Others(q) + [Wake]
    ensures ConnectsFirst(q')
  {
    OthersAre(q);
    assert forall i :: 0 <= i < |q'| ==> q'[i] in Others(q) || q'[i] == Wake;
  }

  lemma AccountsAreDevices(list: seq<Entry>, list': seq<Entry>)
    requires SameAccounts(list, list')
    ensures SameDevices(list, list')
  {}

  /** What the search for a heavy node answers. */
  datatype Answer = Missing | Found(device: nat)

  /** The place, from i on, of the first notice for which a heavy node is found. */
  function FirstDelivered(q: seq<Message>, answers: nat -> Answer, i: nat): (k: nat)
    requires i <= |q|
    ensures i <= k <= |q| && (k < |q| ==> q[k].Notice? && answers(k).Found?)
    ensures forall j :: i <= j < k ==> !(q[j].Notice? && answers(j).Found?)
    decreases |q| - i
  {
    if i == |q| || (q[i].Notice? && answers(i).Found?) then i else FirstDelivered(q, answers, i + 1)
  }

  /** ledger_recv: queue_insert puts the notice itself, not its copy, at the end of a device's queue, which clears its
      link; unlinking it from the main chain's queue then cuts off every message behind it. */
  method LedgerRecv(chain: Chain, answers: nat -> Answer)
    modifies chain`queue, chain`sent
    ensures var q := old(chain.queue);
            var k := FirstDelivered(q, answers, 0);
            && chain.queue == q[..k]
            && chain.sent == old(chain.sent) + if k < |q| then [Delivery(answers(k).device, q[k])] else []
  {
    ghost var q := chain.queue;
    var i := 0;
    while i < |chain.queue|
      invariant 0 <= i <= |q|
      invariant if chain.queue == q then FirstDelivered(q, answers, 0) == FirstDelivered(q, answers, i)
                                         && chain.sent == old(chain.sent)
                else i == |chain.queue| && i == FirstDelivered(q, answers, 0) < |q| && chain.queue == q[..i]
                     && chain.sent == old(chain.sent) + [Delivery(answers(i).device, q[i])]
      decreases |chain.queue| - i
    {
      if chain.queue[i].Notice? && answers(i).Found? {
        chain.sent := chain.sent + [Delivery(answers(i).device, chain.queue[i])];
        chain.queue := chain.queue[..i];
      } else {
        i := i + 1;
      }
    }
  }

  /** Delivering a notice loses no transaction exactly if none is queued behind it. */
  lemma NothingLostIff(q: seq<Message>, answers: nat -> Answer)
    ensures var k := FirstDelivered(q, answers, 0);
            DealsIn(q[..k]) == DealsIn(q) <==> forall j :: k < j < |q| ==> !q[j].Transfer?
  {
    hide *;
    CutOff(q, FirstDelivered(q, answers, 0));
  }

  /** Cutting a queue off at a message that is no transaction. */
  lemma CutOff(q: seq<Message>, k: nat)
    requires k <= |q| && (k < |q| ==> !q[k].Transfer?)
    ensures DealsIn(q[..k]) == DealsIn(q) <==> forall j :: k < j < |q| ==> !q[j].Transfer?
  {
    hide *;
    assert q == q[..k] + q[k..];
    DealsInAppend(q[..k], q[k..]);
    if forall j :: k < j < |q| ==> !q[j].Transfer? {
      NoDealsIn(q[k..]);
      assert DealsIn(q[..k]) + [] == DealsIn(q[..k]);
    } else {
      var j :| k < j < |q| && q[j].Transfer?;
      SomeDealIn(q[k..], j - k);
      assert |DealsIn(q)| > |DealsIn(q[..k])|;
    }
  }

  lemma SomeDealIn(q: seq<Message>, j: nat)
    requires j < |q| && q[j].Transfer?
    ensures |DealsIn(q)| > 0
  {
    hide DealsIn;
    assert q == (q[..j] + [q[j]]) + q[j + 1..];
    DealsInAppend(q[..j] + [q[j]], q[j + 1..]);
    DealsInMore(q[..j], q[j]);
  }

  /** A transaction queued behind such a notice is lost. */
  lemma TransferLost(deal: Deal)
    ensures var q := [Notice(0, 1, 1), Transfer(deal)];
            q[..FirstDelivered(q, _ => Found(2), 0)] == []
  {}

  /** process_mainchain: a turn by the message at the head of the queue. Every turn keeps the invariant, settles the deals
      of the transactions it moves and nothing else, and takes or keeps no transaction that was not there. */
  method Process(chain: Chain)
    requires Running(chain)
    modifies chain, chain.list, Elements(chain.nodes)
    ensures Running(chain) && Total(chain.list[..]) % WRAP == old(Total(chain.list[..])) % WRAP
    ensures Tied(old(chain.list[..]), chain.list[..], chain.taken, old(chain.moved), chain.moved)
    ensures old(chain.taken) <= chain.taken && NoneTwice(old(chain.taken), old(chain.queue), chain.taken, chain.queue)
    ensures SameDevices(old(chain.list[..]), chain.list[..]) && forall x :: x in chain.nodes ==> x in old(chain.nodes) || fresh(x)
    ensures old(chain.nodes) <= chain.nodes && old(chain.sent) <= chain.sent
    ensures Turns(old(ShotOf(chain)), ShotOf(chain))
    ensures |old(chain.queue)| > 0 && old(chain.queue[0]).Transfer? && |old(chain.tips)| == 0
            ==> |chain.taken| > |old(chain.taken)| && chain.taken[|old(chain.taken)|] == old(chain.queue[0]).deal
    ensures |old(chain.queue)| > 0 && (old(chain.queue[0]).Transfer? || old(chain.queue[0]).Wake?)
            && AllHeavy(old(chain.list[..]))
            ==> forall m :: m in chain.queue ==> !m.Transfer?
  {
    hide Once, Linked, EarlierLinks, Serials, Statuses, Distinct, AllParties, QueueParties, Booked, Parties, Recorded, Tied,
         Known, AllKnown, Groups.Numbered, Numbers, DistinctDevices, Total, Others, ConnectsFirst, SameDevices, NoneTwice,
         ViewOf, Turns, AllHeavy;
    AccountsAreDevices(chain.list[..], chain.list[..]);
    TiedNothing(chain.list[..], chain.list[..], chain.taken, chain.moved);
    SameDeals(chain.taken, chain.queue);
    ghost var s := ShotOf(chain);
    if |chain.queue| == 0 {
      NoTurn(s);
      return;
    }
    TipsAndQueue(chain);
    match chain.queue[0] {
      case Connect(_) =>
        ConnectMessages(chain);
      case Transfer(_) =>
        TransactionMessages(chain);
        TurnTakes(s, ShotOf(chain));
      case Wake =>
        TransactionMessages(chain);
        TurnTakes(s, ShotOf(chain));
      case Notice(_, _, _) =>
        LedgerMessages(chain);
    }
  }

  lemma NoTurn(s: Shot)
    requires |s.queue| == 0
    ensures Turns(s, s)
  {}

  /** The deals of the tips and of the queued transactions are between listed devices. */
  lemma TipsAndQueue(chain: Chain)
    requires Running(chain)
    ensures var s := ShotOf(chain);
            TipParties(s.view) && forall i :: 0 <= i < |s.queue| && s.queue[i].Transfer? ==> Parties(s.view.list, s.queue[i].deal)
    ensures |ShotOf(chain).view.tips| == |chain.tips| && ShotOf(chain).view.list == chain.list[..]
  {
    hide Once, Linked, EarlierLinks, Serials, Statuses, Distinct, Known, AllKnown, Groups.Numbered, Numbers, DistinctDevices,
         Parties, TipsOf, Recorded, ConnectsFirst;
    forall i | 0 <= i < |chain.tips| ensures Parties(chain.list[..], TipsOf(chain.tips)[i].deal) {
      assert chain.tips[i] in chain.tips;
    }
  }

  /** What a turn over transactions makes sure of. */
  lemma TurnTakes(s: Shot, s': Shot)
    requires Turns(s, s') && |s.queue| > 0 && (s.queue[0].Transfer? || s.queue[0].Wake?)
    requires TipParties(s.view)
      && forall i :: 0 <= i < |s.queue| && s.queue[i].Transfer? ==> Parties(s.view.list, s.queue[i].deal)
    ensures s.queue[0].Transfer? && |s.view.tips| == 0
            ==> |s'.taken| > |s.taken| && s'.taken[|s.taken|] == s.queue[0].deal
    ensures AllHeavy(s.view.list) ==> forall m :: m in s'.queue ==> !m.Transfer?
  {
    hide Turns, TipParties, AllHeavy, Parties;
    if s.queue[0].Transfer? && |s.view.tips| == 0 {
      FirstTaken(s, s', 0);
    }
    if AllHeavy(s.view.list) {
      NoneLeft(s, s');
    }
  }

  lemma SameDeals(taken: seq<Deal>, q: seq<Message>)
    ensures NoneTwice(taken, q, taken, q)
  {}

  /** ledger_recv, whatever the search for heavy nodes answers. */
  method LedgerMessages(chain: Chain)
    requires Running(chain)
    modifies chain`queue, chain`sent
    ensures Running(chain) && NoneTwice(chain.taken, old(chain.queue), chain.taken, chain.queue)
    ensures old(chain.sent) <= chain.sent
    ensures |old(chain.queue)| > 0 && old(chain.queue[0]).Notice? ==> Turns(old(ShotOf(chain)), ShotOf(chain))
  {
    hide Once, Linked, EarlierLinks, Serials, Statuses, Distinct, AllParties, Known, Parties, DistinctDevices, Recorded,
         Groups.Numbered, Numbers, AllKnown, QueueParties, ConnectsFirst, NoneTwice, TipsOf, Turns;
    var answers: nat -> Answer := *;
    ghost var q, s := chain.queue, ShotOf(chain);
    LedgerRecv(chain, answers);
    if |q| > 0 && q[0].Notice? {
      ghost var k: nat := FirstDelivered(q, answers, 0);
      ghost var device: nat := 0;
      if k < |q| {
        device := answers(k).device;
      }
      TurnDelivers(s, ShotOf(chain), k, device);
    }
    CutKeeps(chain.list[..], q, FirstDelivered(q, answers, 0));
    CutDeals(chain.taken, q, FirstDelivered(q, answers, 0));
  }

  lemma TurnDelivers(s: Shot, s': Shot, k: nat, device: nat)
    requires |s.queue| > 0 && s.queue[0].Notice? && Delivered(s, s', k, device)
    ensures Turns(s, s')
  {
    hide Delivered;
  }

  lemma CutKeeps(list: seq<Entry>, q: seq<Message>, k: nat)
    requires k <= |q|
    ensures AllKnown(list, q) ==> AllKnown(list, q[..k])
    ensures QueueParties(list, q) ==> QueueParties(list, q[..k])
    ensures ConnectsFirst(q) ==> ConnectsFirst(q[..k])
  {
    hide Known, Parties;
  }

  method ConnectMessages(chain: Chain)
    requires Running(chain)
    modifies chain, chain.list
    ensures Running(chain) && Total(chain.list[..]) % WRAP == old(Total(chain.list[..])) % WRAP
    ensures SameDevices(old(chain.list[..]), chain.list[..]) && NoneTwice(chain.taken, old(chain.queue), chain.taken, chain.queue)
    ensures Tied(old(chain.list[..]), chain.list[..], chain.taken, chain.moved, chain.moved)
    ensures chain.moved == old(chain.moved) && chain.nodes == old(chain.nodes) && chain.taken == old(chain.taken)
            && chain.sent == old(chain.sent)
    ensures |old(chain.queue)| > 0 && old(chain.queue[0]).Connect? ==> Turns(old(ShotOf(chain)), ShotOf(chain))
  {
    hide Once, Linked, EarlierLinks, Serials, Statuses, Distinct, AllParties, QueueParties, Parties, Known, AllKnown, Recorded,
         Groups.Numbered, Numbers, DistinctDevices, Total, Others, ConnectAll, Handled, SameAccounts, SameDevices, ConnectsFirst,
         Tied, NoneTwice, Roles, RolesAll, TipsOf;
    ghost var l, q := chain.list[..], chain.queue;
    var at, kept := chain.ConnectRecv();
    assert Others(q) + [] == Others(q);
    ConnectedKeeps(l, chain.list[..], chain.nodes, q, chain.queue);
    NoneConnects(q, chain.queue);
    AccountsAreDevices(l, chain.list[..]);
    TiedNothing(l, chain.list[..], chain.taken, chain.moved);
    ConnectedDeals(chain.taken, q, chain.queue);
  }

  lemma ConnectedDeals(taken: seq<Deal>, q: seq<Message>, q': seq<Message>)
    requires q' == Others(q) || q' == Others(q) + [Wake]
    ensures NoneTwice(taken, q, taken, q')
  {
    hide DealsIn, Others;
    OthersDeals(q);
    DealsInMore(Others(q), Wake);
    assert DealsIn(q) + [] == DealsIn(q);
  }

  /** transaction_recv, then transaction_send's wake-up message. */
  method TransactionMessages(chain: Chain)
    requires Running(chain)
    modifies chain, chain.list, Elements(chain.nodes)
    ensures Running(chain) && Total(chain.list[..]) % WRAP == old(Total(chain.list[..])) % WRAP
    ensures SameDevices(old(chain.list[..]), chain.list[..]) && forall x :: x in chain.nodes ==> x in old(chain.nodes) || fresh(x)
    ensures Tied(old(chain.list[..]), chain.list[..], chain.taken, old(chain.moved), chain.moved)
    ensures old(chain.taken) <= chain.taken && NoneTwice(old(chain.taken), old(chain.queue), chain.taken, chain.queue)
    ensures old(chain.nodes) <= chain.nodes && old(chain.sent) <= chain.sent
    ensures |old(chain.queue)| > 0 && (old(chain.queue[0]).Transfer? || old(chain.queue[0]).Wake?)
            ==> Turns(old(ShotOf(chain)), ShotOf(chain))
  {
    hide Once, Linked, EarlierLinks, Serials, Statuses, Distinct, AllParties, QueueParties, Booked, Parties, Recorded, Tied,
         Known, AllKnown, Groups.Numbered, Numbers, DistinctDevices, Total, SameDevices, ConnectsFirst, Fated, Left, Entered,
         NoneTwice, Told, Receives, ViewOf, Refusals, Dropped, Turns;
    ghost var l, q, m, t, s := chain.list[..], chain.queue, chain.moved, chain.taken, ShotOf(chain);
    ghost var f, vs, ns := TransactionRecv(chain);
    BookedKeeps(l, chain.list[..], chain.taken, m, chain.moved, q, f, chain.queue);
    BookedIsTied(l, chain.list[..], chain.taken, m, chain.moved);
    FatedDeals(t, q, f, chain.queue);
    WakeKeeps(chain.list[..], chain.queue);
    chain.Insert(Wake);
    if |q| > 0 && (q[0].Transfer? || q[0].Wake?) {
      TurnWorks(s, ShotOf(chain), f, vs, ns);
    }
  }

  lemma TurnWorks(s: Shot, s': Shot, f: seq<Fate>, vs: seq<View>, ns: seq<seq<Message>>)
    requires |s.queue| > 0 && (s.queue[0].Transfer? || s.queue[0].Wake?) && Worked(s, s', f, vs, ns)
    ensures Turns(s, s')
  {
    hide Worked;
  }

  lemma WakeKeeps(list: seq<Entry>, q: seq<Message>)
    requires AllKnown(list, q) && QueueParties(list, q)
    ensures AllKnown(list, q + [Wake]) && QueueParties(list, q + [Wake])
  {
    hide Known, Parties;
  }

  /** What a run is made of: a device puts a message into the queue, or the main chain takes its turn. */
  datatype Event = Arrive(message: Message) | Turn

  /** Reports name listed devices, and so do the deals of transactions. */
  ghost predicate Admissible(list: seq<Entry>, m: Message) {
    (m.Connect? ==> Known(list, m.report)) && (m.Transfer? ==> Parties(list, m.deal))
  }

  lemma AdmissibleKept(list: seq<Entry>, list': seq<Entry>, m: Message)
    requires SameDevices(list, list') && Admissible(list, m)
    ensures Admissible(list', m)
  {
    hide SameDevices, Known, Parties;
    if m.Connect? {
      KnownKept(list, list', m.report);
    }
    if m.Transfer? {
      PartiesKept(list, list', m.deal);
    }
  }

  lemma InsertedKeeps(list: seq<Entry>, q: seq<Message>, m: Message)
    requires AllKnown(list, q) && QueueParties(list, q) && Admissible(list, m)
    ensures AllKnown(list, Inserted(q, m)) && QueueParties(list, Inserted(q, m))
  {
    hide Known, Parties;
  }

  lemma SameDevicesTwice(l: seq<Entry>, m: seq<Entry>, n: seq<Entry>)
    requires SameDevices(l, m) && SameDevices(m, n)
    ensures SameDevices(l, n)
  {}

  /** The groups, the devices and the queue of a chain that has not started. */
  lemma StartIsRunning(chain: Chain)
    requires chain.queue == [] && chain.dagNumber == 0 && chain.dag == null && chain.tips == [] && chain.nodes == []
             && chain.taken == [] && chain.sent == [] && chain.moved == []
    requires DistinctDevices(chain.list[..]) && forall i :: 0 <= i < chain.list.Length ==> chain.list[i].dagIndex == 0
    ensures Running(chain)
  {
    hide Known, Parties, DistinctDevices;
    assert Groups.Numbered(Numbers(chain.list[..]), 0);
  }

  /** The deals of the transactions that arrive. */
  function Arrived(events: seq<Event>): seq<Deal> {
    if |events| == 0 then []
    else
      var e := events[|events| - 1];
      Arrived(events[..|events| - 1]) + if e.Arrive? && e.message.Transfer? then [e.message.deal] else []
  }

  lemma ArrivedMore(events: seq<Event>, i: nat)
    requires i < |events|
    ensures Arrived(events[..0]) == []
    ensures Arrived(events[..i + 1]) == Arrived(events[..i])
            + if events[i].Arrive? && events[i].message.Transfer? then [events[i].message.deal] else []
  {
    assert events[..i + 1][..i] == events[..i];
  }

  /** The transactions taken and those still queued are among those that arrived, none of them twice. */
  ghost predicate OnlyArrived(taken: seq<Deal>, q: seq<Message>, arrived: seq<Deal>) {
    multiset(taken) + multiset(DealsIn(q)) <= multiset(arrived)
  }

  lemma ArriveDeals(taken: seq<Deal>, q: seq<Message>, m: Message, arrived: seq<Deal>)
    requires OnlyArrived(taken, q, arrived)
    ensures OnlyArrived(taken, Inserted(q, m), arrived + if m.Transfer? then [m.deal] else [])
  {
    hide DealsIn;
    if m.Connect? {
      DealsInAppend([m], q);
      NoDealsIn([m]);
      assert [] + DealsIn(q) == DealsIn(q) && arrived + [] == arrived;
    } else {
      DealsInMore(q, m);
      assert multiset(arrived + if m.Transfer? then [m.deal] else [])
          == multiset(arrived) + multiset(if m.Transfer? then [m.deal] else []);
    }
  }

  lemma TurnDeals(taken: seq<Deal>, q: seq<Message>, taken': seq<Deal>, q': seq<Message>, arrived: seq<Deal>)
    requires OnlyArrived(taken, q, arrived) && NoneTwice(taken, q, taken', q')
    ensures OnlyArrived(taken', q', arrived)
  {}

  lemma NoneArrived()
    ensures OnlyArrived([], [], [])
  {}

  /** One event of a run, as others see it. */
  ghost predicate Follows(s: Shot, e: Event, s': Shot) {
    match e
    case Arrive(m) => s' == s.(queue := if m.Connect? then [m] + s.queue else s.queue + [m])
    case Turn => Turns(s, s')
  }

  lemma ArriveFollows(s: Shot, m: Message, s': Shot)
    requires s' == s.(queue := Inserted(s.queue, m))
    ensures Follows(s, Event.Arrive(m), s')
  {}

  lemma TurnFollows(s: Shot, s': Shot)
    requires Turns(s, s')
    ensures Follows(s, Turn, s')
  {
    hide Turns;
  }

  /** What a run from list l has kept so far. */
  ghost predicate Carried(l: seq<Entry>, list: seq<Entry>, taken: seq<Deal>, moved: seq<nat>, q: seq<Message>,
      arrived: seq<Deal>)
  {
    && SameDevices(l, list) && Total(list) % WRAP == Total(l) % WRAP
    && Tied(l, list, taken, [], moved) && OnlyArrived(taken, q, arrived)
  }

  lemma CarriedStart(l: seq<Entry>)
    ensures Carried(l, l, [], [], [], [])
  {
    hide Total;
    AccountsAreDevices(l, l);
    TiedNothing(l, l, [], []);
    NoneArrived();
  }

  lemma CarriedArrive(l: seq<Entry>, list: seq<Entry>, taken: seq<Deal>, moved: seq<nat>, q: seq<Message>, m: Message,
      arrived: seq<Deal>)
    requires Carried(l, list, taken, moved, q, arrived) && Admissible(l, m)
    ensures Admissible(list, m)
    ensures Carried(l, list, taken, moved, Inserted(q, m), arrived + if m.Transfer? then [m.deal] else [])
  {
    hide Total, Tied, SameDevices, OnlyArrived, Admissible;
    AdmissibleKept(l, list, m);
    ArriveDeals(taken, q, m, arrived);
  }

  lemma CarriedTurn(l: seq<Entry>, list: seq<Entry>, list': seq<Entry>, taken: seq<Deal>, taken': seq<Deal>, moved: seq<nat>,
      moved': seq<nat>, q: seq<Message>, q': seq<Message>, arrived: seq<Deal>)
    requires Carried(l, list, taken, moved, q, arrived) && SameDevices(list, list') && taken <= taken'
    requires Total(list') % WRAP == Total(list) % WRAP && Tied(list, list', taken', moved, moved')
    requires NoneTwice(taken, q, taken', q')
    ensures Carried(l, list', taken', moved', q', arrived)
  {
    hide Total, Tied, SameDevices, OnlyArrived, NoneTwice;
    SameDevicesTwice(l, list, list');
    TiedTwice(l, list, list', taken, taken', [], moved, moved');
    TurnDeals(taken, q, taken', q', arrived);
  }

  lemma CarriedEnd(l: seq<Entry>, list: seq<Entry>, taken: seq<Deal>, moved: seq<nat>, q: seq<Message>, arrived: seq<Deal>)
    requires Carried(l, list, taken, moved, q, arrived) && DistinctDevices(l)
    ensures Total(list) % WRAP == Total(l) % WRAP && OnlyArrived(taken, q, arrived)
    ensures Below(moved, |taken|) && SameAccounts(SettledAll(l, DealsOf(taken, moved)), list)
    ensures Total(l) < WRAP && AllCovered(l, DealsOf(taken, moved)) ==> Total(list) == Total(l)
  {
    hide Total, Tied, SameDevices, OnlyArrived, SettledAll, AllCovered, SameAccounts, Parties, DistinctDevices;
    FromStart(l, list, taken, moved);
    CoveredTotal(l, DealsOf(taken, moved), list);
  }

  /** The first shots of a run. */
  ghost predicate Traced(shots: seq<Shot>, events: seq<Event>) {
    0 < |shots| <= |events| + 1 && forall j :: 0 <= j < |shots| - 1 ==> Follows(shots[j], events[j], shots[j + 1])
  }

  lemma TracedStart(shots: seq<Shot>, events: seq<Event>)
    requires |shots| == 1
    ensures Traced(shots, events)
  {}

  lemma TracedMore(shots: seq<Shot>, events: seq<Event>, s: Shot)
    requires 0 < |shots| <= |events| && Traced(shots, events) && Follows(shots[|shots| - 1], events[|shots| - 1], s)
    ensures Traced(shots + [s], events)
  {
    hide Follows;
    var t := shots + [s];
    forall j | 0 <= j < |t| - 1 ensures Follows(t[j], events[j], t[j + 1]) {
      if j < |shots| - 1 {
        assert Follows(shots[j], events[j], shots[j + 1]);
      }
    }
  }

  lemma TracedIs(shots: seq<Shot>, events: seq<Event>)
    requires Traced(shots, events) && |shots| == |events| + 1
    ensures forall i :: 0 <= i < |events| ==> Follows(shots[i], events[i], shots[i + 1])
  {
    hide Follows;
  }

  lemma StartView(chain: Chain)
    requires chain.queue == [] && chain.dagNumber == 0 && chain.tips == [] && chain.taken == [] && chain.sent == []
    ensures ShotOf(chain) == Shot([], View([], chain.list[..], []), 0, [])
  {}

  /** Every run keeps the invariant.  The tokens are those of the start after the deals of the moved transactions, no
      transaction moves its tokens twice, and none is taken that did not arrive.  So the sum of all tokens never changes
      modulo 2^32, and is the same number if every moved deal was covered when its turn came. */
  method Run(list: array<Entry>, events: seq<Event>) returns (chain: Chain, ghost shots: seq<Shot>)
    requires DistinctDevices(list[..]) && forall i :: 0 <= i < list.Length ==> list[i].dagIndex == 0
    requires forall e :: e in events && e.Arrive? ==> Admissible(list[..], e.message)
    modifies list
    ensures chain.list == list && Running(chain) && Total(list[..]) % WRAP == old(Total(list[..])) % WRAP
    ensures Below(chain.moved, |chain.taken|)
            && SameAccounts(SettledAll(old(list[..]), DealsOf(chain.taken, chain.moved)), list[..])
    ensures old(Total(list[..])) < WRAP && AllCovered(old(list[..]), DealsOf(chain.taken, chain.moved))
            ==> Total(list[..]) == old(Total(list[..]))
    ensures OnlyArrived(chain.taken, chain.queue, Arrived(events))
    ensures forall i, j :: 0 <= i < j < |chain.moved| ==> chain.moved[i] != chain.moved[j]
    ensures forall x, t :: x in chain.nodes && t in Children(x) ==> x !in Reach(t, Elements(chain.nodes))
    ensures |shots| == |events| + 1 && shots[0] == Shot([], View([], old(list[..]), []), 0, [])
    ensures shots[|events|] == ShotOf(chain)
    ensures forall i :: 0 <= i < |events| ==> Follows(shots[i], events[i], shots[i + 1])
  {
    hide Running, Turns, Follows, ViewOf, Traced, Carried, SameDevices, Admissible, DistinctDevices, Total, Tied,
      OnlyArrived, NoneTwice, SettledAll, SameAccounts, AllCovered, Parties;
    ghost var l := list[..];
    chain := new Chain(list);
    StartIsRunning(chain);
    CarriedStart(l);
    assert Arrived(events[..0]) == [];
    shots := [ShotOf(chain)];
    StartView(chain);
    TracedStart(shots, events);
    for i := 0 to |events|
      invariant chain.list == list && Running(chain) && fresh(chain) && forall x :: x in chain.nodes ==> fresh(x)
      invariant Carried(l, list[..], chain.taken, chain.moved, chain.queue, Arrived(events[..i]))
      invariant |shots| == i + 1 && shots[0] == Shot([], View([], l, []), 0, []) && shots[i] == ShotOf(chain)
      invariant Traced(shots, events)
    {
      ghost var m, t, q, v := list[..], chain.taken, chain.queue, chain.moved;
      ArrivedMore(events, i);
      match events[i] {
        case Arrive(message) =>
          CarriedArrive(l, m, t, v, q, message, Arrived(events[..i]));
          Arrive(chain, message);
          ArriveFollows(shots[i], message, ShotOf(chain));
        case Turn =>
          Process(chain);
          CarriedTurn(l, m, list[..], t, chain.taken, v, chain.moved, q, chain.queue, Arrived(events[..i]));
          assert Arrived(events[..i]) + [] == Arrived(events[..i]);
          TurnFollows(shots[i], ShotOf(chain));
      }
      TracedMore(shots, events, ShotOf(chain));
      shots := shots + [ShotOf(chain)];
    }
    TracedIs(shots, events);
    assert events[..|events|] == events;
    CarriedEnd(l, list[..], chain.taken, chain.moved, chain.queue, Arrived(events));
    MovedOnce(chain);
    forall x, t | x in chain.nodes && t in Children(x) ensures x !in Reach(t, Elements(chain.nodes)) {
      NoCycle(chain, x, t);
    }
  }

  lemma FromStart(list: seq<Entry>, list': seq<Entry>, taken: seq<Deal>, moved: seq<nat>)
    requires Tied(list, list', taken, [], moved)
    ensures Below(moved, |taken|) && SameAccounts(SettledAll(list, DealsOf(taken, moved)), list')
    ensures forall i :: 0 <= i < |DealsOf(taken, moved)| ==> Parties(list, DealsOf(taken, moved)[i])
  {
    hide SettledAll, Parties;
    assert moved[0..] == moved;
  }

  lemma CoveredTotal(list: seq<Entry>, deals: seq<Deal>, list': seq<Entry>)
    requires DistinctDevices(list) && SameAccounts(SettledAll(list, deals), list')
    requires forall i :: 0 <= i < |deals| ==> Parties(list, deals[i])
    ensures Total(list) < WRAP && AllCovered(list, deals) ==> Total(list') == Total(list)
  {
    hide Total, SettledAll, Parties, DistinctDevices, AllCovered, AllExact, SameAccounts;
    SameTotal(SettledAll(list, deals), list');
    if Total(list) < WRAP && AllCovered(list, deals) {
      AllExactIff(list, deals);
      AllExactTotal(list, deals);
    }
  }

  /** A device puts a message into the queue. */
  method Arrive(chain: Chain, m: Message)
    requires Running(chain) && Admissible(chain.list[..], m)
    modifies chain`queue
    ensures Running(chain) && chain.queue == Inserted(old(chain.queue), m)
  {
    hide Once, Linked, EarlierLinks, Serials, Statuses, Distinct, AllParties, Known, Parties, DistinctDevices,
         Groups.Numbered, Numbers, AllKnown, QueueParties, ConnectsFirst, Admissible;
    InsertedKeeps(chain.list[..], chain.queue, m);
    chain.Insert(m);
  }

  lemma MovedOnce(chain: Chain)
    requires Running(chain)
    ensures forall i, j :: 0 <= i < j < |chain.moved| ==> chain.moved[i] != chain.moved[j]
  {
    hide Linked, Parties, EarlierLinks, Serials, Statuses, Distinct, AllParties, QueueParties, AllKnown, DistinctDevices,
         Groups.Numbered, Numbers, ConnectsFirst;
  }

  lemma NoCycle(chain: Chain, x: Transaction, t: Transaction)
    requires Running(chain) && x in chain.nodes && t in Children(x)
    ensures x !in Reach(t, Elements(chain.nodes))
  {
    hide Linked, Parties, EarlierLinks, Serials, Statuses, Distinct, AllParties, QueueParties, AllKnown, DistinctDevices,
         Groups.Numbered, Numbers, ConnectsFirst, Reach, Children, Elements;
    Acyclic(chain.nodes, x, t);
  }
}
