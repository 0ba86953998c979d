/** The main chain's message queue and device list, and connect_recv. */
module Mainchain {
  import opened Layer
  import opened Groups

  /** A row of a connect message. */
  datatype Neighbour = Neighbour(device: nat, key: nat, heavy: bool)

  /** The payloads of queue_t; a transaction message without data only wakes the main chain. */
  datatype Message =
    | Connect(report: seq<Neighbour>)
    | Transfer(deal: Deal)
    | Wake
    | Notice(status: nat, device: nat, token: nat)

  /** What a notice is about. */
  const STATUS_DONE: nat := 0
  const STATUS_DEVICE: nat := 1
  const STATUS_LEDGER: nat := 2
  const STATUS_SRC: nat := 3
  const STATUS_DST: nat := 4

  /** A message put into a device's queue. */
  datatype Delivery = Delivery(device: nat, message: Message)

  /** list_t. */
  datatype Entry = Entry(dagIndex: nat, device: nat, key: nat, token: nat, heavy: bool)

  ghost predicate ConnectsFirst(q: seq<Message>) {
    forall i, j :: 0 <= i < j < |q| && q[j].Connect? ==> q[i].Connect?
  }

  /** queue_insert on a queue of messages. */
  function Inserted(q: seq<Message>, m: Message): seq<Message> {
    if m.Connect? then [m] + q else q + [m]
  }

  /** The queue after a run of queue_insert. */
  function InsertedAll(q: seq<Message>, ms: seq<Message>): seq<Message>
    decreases |ms|
  {
    if |ms| == 0 then q else InsertedAll(Inserted(q, ms[0]), ms[1..])
  }

  /** In every queue that queue_insert builds, the connect messages come first. */
  lemma {:induction false} InsertsKeepOrder(q: seq<Message>, ms: seq<Message>)
    requires ConnectsFirst(q)
    ensures ConnectsFirst(InsertedAll(q, ms))
    decreases |ms|
  {
    if |ms| > 0 {
      InsertsKeepOrder(Inserted(q, ms[0]), ms[1..]);
    }
  }

  /** A connect message of the given reporter. */
  predicate From(m: Message, device: nat) {
    m.Connect? && |m.report| > 0 && m.report[0].device == device
  }

  /** The queue without the connect messages of one reporter. */
  function Without(q: seq<Message>, device: nat): (r: seq<Message>)
    ensures |r| <= |q|
  {
    if |q| == 0 then []
    else if From(q[0], device) then Without(q[1..], device)
    else [q[0]] + Without(q[1..], device)
  }

  /** The place of the first connect message. */
  function FirstConnect(q: seq<Message>): (p: nat)
    ensures p <= |q| && (p < |q| ==> q[p].Connect?)
    ensures forall i :: 0 <= i < p ==> !q[i].Connect?
  {
    if |q| == 0 || q[0].Connect? then 0 else 1 + FirstConnect(q[1..])
  }

  /** The place of a device in the list. */
  function Find(list: seq<Entry>, device: nat): (j: nat)
    ensures j <= |list| && (j < |list| ==> list[j].device == device)
    ensures forall k :: 0 <= k < j ==> list[k].device != device
  {
    if |list| == 0 || list[0].device == device then 0 else 1 + Find(list[1..], device)
  }

  /** Every reported device is in the list. */
  ghost predicate Known(list: seq<Entry>, report: seq<Neighbour>) {
    |report| > 0 && forall i :: 0 <= i < |report| ==> Find(list, report[i].device) < |list|
  }

  /** The places of the first n reported devices. */
  ghost function Places(list: seq<Entry>, report: seq<Neighbour>, n: nat): set<nat>
    requires n <= |report|
  {
    set i | 0 <= i < n :: Find(list, report[i].device)
  }

  /** Those are the places of listed devices that the report names. */
  lemma PlacesAre(list: seq<Entry>, report: seq<Neighbour>, j: nat)
    requires Known(list, report)
    ensures j in Places(list, report, |report|)
            <==> j < |list| && (forall k :: 0 <= k < j ==> list[k].device != list[j].device)
                 && exists i :: 0 <= i < |report| && report[i].device == list[j].device
  {
    if j < |list| && forall k :: 0 <= k < j ==> list[k].device != list[j].device {
      forall i | 0 <= i < |report| && report[i].device == list[j].device ensures Find(list, report[i].device) == j {
        assert Find(list, report[i].device) <= j;
      }
    }
    hide Find;
  }

  /** The group numbers in the list. */
  function Numbers(list: seq<Entry>): (d: seq<nat>)
    ensures |d| == |list|
  {
    seq(|list|, i requires 0 <= i < |list| => list[i].dagIndex)
  }

  /** The key and the node kind of an entry. */
  datatype Role = Role(key: nat, heavy: bool)

  function Roles(list: seq<Entry>): (r: seq<Role>)
    ensures |r| == |list|
  {
    seq(|list|, i requires 0 <= i < |list| => Role(list[i].key, list[i].heavy))
  }

  /** The roles after the first n rows of a report. */
  ghost function Reported(list: seq<Entry>, roles: seq<Role>, report: seq<Neighbour>, n: nat): (r: seq<Role>)
    requires |roles| == |list| && n <= |report|
    ensures |r| == |list|
  {
    if n == 0 then roles
    else
      var r, j := Reported(list, roles, report, n - 1), Find(list, report[n - 1].device);
      if j < |list| then r[j := Role(report[n - 1].key, report[n - 1].heavy)] else r
  }

  /** The last of the first n rows about the device at place j, counted from 1, or 0 if there is none. */
  ghost function RowFor(list: seq<Entry>, report: seq<Neighbour>, n: nat, j: nat): (k: nat)
    requires n <= |report|
    ensures k <= n && (k > 0 ==> Find(list, report[k - 1].device) == j)
    ensures forall i :: k <= i < n ==> Find(list, report[i].device) != j
  {
    if n == 0 then 0 else if Find(list, report[n - 1].device) == j then n else RowFor(list, report, n - 1, j)
  }

  /** A device takes the role of the last row about it, and keeps its own if there is none. */
  lemma {:induction false} ReportedIs(list: seq<Entry>, roles: seq<Role>, report: seq<Neighbour>, n: nat, j: nat)
    requires |roles| == |list| && n <= |report| && j < |list|
    ensures var k := RowFor(list, report, n, j);
            Reported(list, roles, report, n)[j] == if k == 0 then roles[j] else Role(report[k - 1].key, report[k - 1].heavy)
  {
    hide Find;
    if n > 0 {
      ReportedIs(list, roles, report, n - 1, j);
    }
  }

  lemma ReportedNone(list: seq<Entry>, roles: seq<Role>, report: seq<Neighbour>)
    requires |roles| == |list|
    ensures Reported(list, roles, report, 0) == roles
  {}

  lemma ReportedStep(list: seq<Entry>, roles: seq<Role>, report: seq<Neighbour>, n: nat)
    requires |roles| == |list| && n < |report| && Find(list, report[n].device) < |list|
    ensures Reported(list, roles, report, n + 1)
            == Reported(list, roles, report, n)[Find(list, report[n].device) := Role(report[n].key, report[n].heavy)]
  {
    hide Find;
  }

  lemma RoleSet(list: seq<Entry>, j: nat, e: Entry)
    requires j < |list|
    ensures Roles(list[j := e]) == Roles(list)[j := Role(e.key, e.heavy)]
  {}

  /** Devices and tokens stay as they are. */
  ghost predicate SameAccounts(list: seq<Entry>, list': seq<Entry>) {
    |list| == |list'| && forall i :: 0 <= i < |list| ==> list[i].device == list'[i].device && list[i].token == list'[i].token
  }

  lemma {:induction false} FindSame(list: seq<Entry>, list': seq<Entry>, device: nat)
    requires SameAccounts(list, list')
    ensures Find(list, device) == Find(list', device)
  {
    if |list| > 0 {
      FindSame(list[1..], list'[1..], device);
    }
  }

  /** The inner loop that finds a device, which must be there. */
  method Seek(list: array<Entry>, device: nat) returns (j: nat)
    requires Find(list[..], device) < list.Length
    ensures j == Find(list[..], device)
  {
    ghost var l := list[..];
    j := 0;
    while j < list.Length && list[j].device != device
      invariant j <= Find(l, device)
      decreases list.Length - j
    {
      assert l[Find(l, device)] == list[Find(l, device)];
      j := j + 1;
    }
    assert l[j] == list[j];
  }

  /** "update list": every reported device gets the number after the last one. */
  method UpdateList(list: array<Entry>, report: seq<Neighbour>, v: nat)
    requires Known(list[..], report)
    modifies list
    ensures SameAccounts(old(list[..]), list[..])
    ensures Numbers(list[..]) == Assigned(old(Numbers(list[..])), Places(old(list[..]), report, |report|), v)
    ensures Roles(list[..]) == Reported(old(list[..]), Roles(old(list[..])), report, |report|)
  {
    hide Find, Roles, Reported;
    ghost var l := list[..];
    ReportedNone(l, Roles(l), report);
    for i := 0 to |report|
      invariant SameAccounts(l, list[..]) && Roles(list[..]) == Reported(l, Roles(l), report, i)
      invariant forall k :: 0 <= k < |l| ==> list[k].dagIndex == if k in Places(l, report, i) then v else l[k].dagIndex
    {
      FindSame(l, list[..], report[i].device);
      var j := Seek(list, report[i].device);
      ReportedStep(l, Roles(l), report, i);
      RoleSet(list[..], j, list[j].(dagIndex := v, key := report[i].key, heavy := report[i].heavy));
      list[j] := list[j].(dagIndex := v, key := report[i].key, heavy := report[i].heavy);
      assert Places(l, report, i + 1) == Places(l, report, i) + {j};
    }
  }

  /** "compute dag_number": the numbers in use. */
  method CollectIds(list: array<Entry>) returns (dag: seq<nat>)
    ensures dag == Ids(Numbers(list[..]), list.Length)
  {
    dag := [];
    for i := 0 to list.Length
      invariant dag == Ids(Numbers(list[..]), i)
    {
      assert list[i].dagIndex == Numbers(list[..])[i];
      if list[i].dagIndex != 0 {
        var j := SeekId(dag, list[i].dagIndex);
        if j == |dag| {
          dag := dag + [list[i].dagIndex];
        }
      }
    }
  }

  method SeekId(dag: seq<nat>, v: nat) returns (j: nat)
    ensures j == PlaceOf(dag, v) && (j == |dag| <==> v !in dag)
  {
    j := 0;
    while j < |dag| && dag[j] != v
      invariant j <= |dag| && forall k :: 0 <= k < j ==> dag[k] != v
    {
      j := j + 1;
    }
    if j < |dag| {
      PlaceIs(dag, v, j);
    }
  }

  /** "modify dag_index": the numbers become the places in dag. */
  method ModifyIndexes(list: array<Entry>, dag: seq<nat>)
    modifies list
    ensures SameAccounts(old(list[..]), list[..])
    ensures Numbers(list[..]) == Renumbered(old(Numbers(list[..])), dag) && Roles(list[..]) == Roles(old(list[..]))
  {
    hide PlaceOf;
    ghost var l := list[..];
    for i := 0 to list.Length
      invariant SameAccounts(l, list[..]) && Roles(list[..]) == Roles(l)
      invariant forall k :: 0 <= k < |l| ==> list[k].dagIndex == if k < i then Renumbered(Numbers(l), dag)[k] else l[k].dagIndex
    {
      if list[i].dagIndex != 0 {
        var j := SeekId(dag, list[i].dagIndex);
        list[i] := list[i].(dagIndex := j + 1);
      }
    }
  }

  /** The list update of one connect message. */
  method ConnectOne(list: array<Entry>, dagNumber: nat, report: seq<Neighbour>) returns (number: nat)
    requires Known(list[..], report)
    modifies list
    ensures SameAccounts(old(list[..]), list[..])
    ensures Numbers(list[..]) == Regrouped(old(Numbers(list[..])), Places(old(list[..]), report, |report|), dagNumber)
    ensures number == GroupCount(old(Numbers(list[..])), Places(old(list[..]), report, |report|), dagNumber)
    ensures Roles(list[..]) == Reported(old(list[..]), Roles(old(list[..])), report, |report|)
  {
    hide Places, Ids, Renumbered, Assigned, Roles, Reported;
    UpdateList(list, report, dagNumber + 1);
    var dag := CollectIds(list);
    number := |dag|;
    ModifyIndexes(list, dag);
  }

  /** The messages that are not connect messages. */
  function Others(q: seq<Message>): seq<Message> {
    if |q| == 0 then [] else (if q[0].Connect? then [] else [q[0]]) + Others(q[1..])
  }

  lemma {:induction false} OthersAppend(q: seq<Message>, r: seq<Message>)
    ensures Others(q + r) == Others(q) + Others(r)
  {
    if |q| == 0 {
      assert q + r == r;
    } else {
      assert (q + r)[1..] == q[1..] + r;
      OthersAppend(q[1..], r);
    }
  }

  lemma {:induction false} OthersWithout(q: seq<Message>, device: nat)
    ensures Others(Without(q, device)) == Others(q)
  {
    if |q| > 0 {
      OthersWithout(q[1..], device);
      if !From(q[0], device) {
        assert ([q[0]] + Without(q[1..], device))[1..] == Without(q[1..], device);
      }
    }
  }

  lemma {:induction false} NoConnect(q: seq<Message>)
    requires FirstConnect(q) == |q|
    ensures Others(q) == q
  {
    if |q| > 0 {
      NoConnect(q[1..]);
    }
  }

  lemma {:induction false} WithoutIsPart(q: seq<Message>, device: nat)
    ensures forall m :: m in Without(q, device) ==> m in q
  {
    if |q| > 0 {
      WithoutIsPart(q[1..], device);
    }
  }

  /** The queue after the first connect message, at place p, has been handled. */
  function AfterConnect(q: seq<Message>, p: nat): (r: seq<Message>)
    requires p < |q| && q[p].Connect? && |q[p].report| > 0
    ensures |r| < |q|
  {
    q[..p] + Without(q[p..], q[p].report[0].device)
  }

  /** The reports connect_recv works through: of each reporter the first one, in queue order. */
  function Handled(q: seq<Message>): seq<seq<Neighbour>>
    decreases |q|
  {
    var p := FirstConnect(q);
    if p == |q| || |q[p].report| == 0 then [] else [q[p].report] + Handled(AfterConnect(q, p))
  }

  /** Group numbers and their count after a run of reports. */
  ghost function ConnectAll(list: seq<Entry>, d: seq<nat>, n: nat, reports: seq<seq<Neighbour>>): (seq<nat>, nat) {
    if |reports| == 0 then (d, n)
    else
      var r := ConnectAll(list, d, n, reports[..|reports| - 1]);
      var report := reports[|reports| - 1];
      var g := Places(list, report, |report|);
      (Regrouped(r.0, g, r.1), GroupCount(r.0, g, r.1))
  }

  /** The roles after a run of reports. */
  ghost function RolesAll(list: seq<Entry>, reports: seq<seq<Neighbour>>): (r: seq<Role>)
    ensures |r| == |list|
  {
    if |reports| == 0 then Roles(list)
    else
      var report := reports[|reports| - 1];
      Reported(list, RolesAll(list, reports[..|reports| - 1]), report, |report|)
  }

  lemma RolesMore(list: seq<Entry>, reports: seq<seq<Neighbour>>, report: seq<Neighbour>)
    ensures RolesAll(list, []) == Roles(list)
    ensures RolesAll(list, reports + [report]) == Reported(list, RolesAll(list, reports), report, |report|)
  {
    hide Reported;
    assert (reports + [report])[..|reports|] == reports;
  }

  lemma {:induction false} ReportedSame(list: seq<Entry>, list': seq<Entry>, roles: seq<Role>, report: seq<Neighbour>, n: nat)
    requires SameAccounts(list, list') && |roles| == |list| && n <= |report|
    ensures Reported(list, roles, report, n) == Reported(list', roles, report, n)
  {
    hide Find;
    if n > 0 {
      ReportedSame(list, list', roles, report, n - 1);
      FindSame(list, list', report[n - 1].device);
    }
  }

  /** Numbers, count and roles after each report: one report is handled after the other. */
  lemma {:induction false} ConnectAllIs(list: seq<Entry>, d: seq<nat>, n: nat, reports: seq<seq<Neighbour>>)
    returns (ds: seq<seq<nat>>, ns: seq<nat>, rs: seq<seq<Role>>)
    ensures |ds| == |ns| == |rs| == |reports| + 1 && ds[0] == d && ns[0] == n && rs[0] == Roles(list)
    ensures forall i :: 0 <= i < |rs| ==> |rs[i]| == |list|
    ensures forall i :: 0 <= i < |reports| ==>
              var g := Places(list, reports[i], |reports[i]|);
              && ds[i + 1] == Regrouped(ds[i], g, ns[i]) && ns[i + 1] == GroupCount(ds[i], g, ns[i])
              && rs[i + 1] == Reported(list, rs[i], reports[i], |reports[i]|)
    ensures ConnectAll(list, d, n, reports) == (ds[|reports|], ns[|reports|])
    ensures RolesAll(list, reports) == rs[|reports|]
  {
    hide Places, Regrouped, GroupCount, Reported, Roles;
    if |reports| == 0 {
      ds, ns, rs := [d], [n], [Roles(list)];
    } else {
      var report := reports[|reports| - 1];
      ds, ns, rs := ConnectAllIs(list, d, n, reports[..|reports| - 1]);
      var e, m, r := ds[|reports| - 1], ns[|reports| - 1], rs[|reports| - 1];
      var g := Places(list, report, |report|);
      ds, ns := ds + [Regrouped(e, g, m)], ns + [GroupCount(e, g, m)];
      rs := rs + [Reported(list, r, report, |report|)];
    }
  }

  lemma ConnectNone(list: seq<Entry>, d: seq<nat>, n: nat)
    ensures ConnectAll(list, d, n, []) == (d, n)
  {}

  lemma ConnectMore(list: seq<Entry>, d: seq<nat>, n: nat, reports: seq<seq<Neighbour>>, report: seq<Neighbour>)
    ensures var r := ConnectAll(list, d, n, reports);
            var g := Places(list, report, |report|);
            ConnectAll(list, d, n, reports + [report]) == (Regrouped(r.0, g, r.1), GroupCount(r.0, g, r.1))
  {
    hide Places, Regrouped, GroupCount;
    assert (reports + [report])[..|reports|] == reports;
  }

  lemma PlacesSame(list: seq<Entry>, list': seq<Entry>, report: seq<Neighbour>)
    requires SameAccounts(list, list')
    ensures Places(list, report, |report|) == Places(list', report, |report|)
    ensures Known(list, report) ==> Known(list', report)
  {
    forall i | 0 <= i < |report| ensures Find(list, report[i].device) == Find(list', report[i].device) {
      FindSame(list, list', report[i].device);
    }
    assert Places(list, report, |report|) == Places(list', report, |report|);
  }

  /** Every queued report names listed devices only. */
  ghost predicate AllKnown(list: seq<Entry>, q: seq<Message>) {
    forall m :: m in q && m.Connect? ==> Known(list, m.report)
  }

  lemma AfterConnectKnown(list: seq<Entry>, q: seq<Message>, p: nat)
    requires AllKnown(list, q) && p < |q| && q[p].Connect? && |q[p].report| > 0
    ensures AllKnown(list, AfterConnect(q, p)) && Others(AfterConnect(q, p)) == Others(q)
  {
    hide Known;
    var device := q[p].report[0].device;
    WithoutIsPart(q[p..], device);
    OthersWithout(q[p..], device);
    assert q == q[..p] + q[p..];
    OthersAppend(q[..p], q[p..]);
    OthersAppend(q[..p], Without(q[p..], device));
  }

  /** r is a part of q in the order of q: kept are the places its messages come from, and gone is where each message of q
      has gone, -1 if it is not in r. */
  ghost predicate Located(q: seq<Message>, r: seq<Message>, kept: seq<nat>, gone: seq<int>) {
    && |kept| == |r| && |gone| == |q|
    && (forall i :: 0 <= i < |kept| ==> kept[i] < |q| && r[i] == q[kept[i]] && gone[kept[i]] == i)
    && (forall i, j :: 0 <= i < j < |kept| ==> kept[i] < kept[j])
    && (forall k :: 0 <= k < |q| ==> gone[k] == -1 || (0 <= gone[k] < |kept| && kept[gone[k]] == k))
  }

  function Shifted(kept: seq<nat>): (s: seq<nat>)
    ensures |s| == |kept| && forall i :: 0 <= i < |s| ==> s[i] == kept[i] + 1
  {
    seq(|kept|, i requires 0 <= i < |kept| => kept[i] + 1)
  }

  lemma SkipFirst(q: seq<Message>, r: seq<Message>, kept: seq<nat>, gone: seq<int>)
    requires |q| > 0 && Located(q[1..], r, kept, gone)
    ensures Located(q, r, Shifted(kept), [-1] + gone)
  {
    hide Shifted;
  }

  lemma KeepFirst(q: seq<Message>, r: seq<Message>, kept: seq<nat>, gone: seq<int>) returns (later: seq<int>)
    requires |q| > 0 && Located(q[1..], r, kept, gone)
    ensures |later| == |gone| && forall k :: 0 <= k < |later| ==> later[k] == if gone[k] == -1 then -1 else gone[k] + 1
    ensures Located(q, [q[0]] + r, [0] + Shifted(kept), [0] + later)
  {
    hide Shifted;
    later := seq(|gone|, k requires 0 <= k < |gone| => if gone[k] == -1 then -1 else gone[k] + 1);
  }

  /** Membership by place. */
  lemma KeptIff(q: seq<Message>, r: seq<Message>, kept: seq<nat>, gone: seq<int>, k: nat)
    requires Located(q, r, kept, gone) && k < |q|
    ensures k in kept <==> gone[k] != -1
  {
    if k in kept {
      var i :| 0 <= i < |kept| && kept[i] == k;
      assert gone[kept[i]] == i;
    }
  }

  lemma {:induction false} WithoutPlaces(q: seq<Message>, device: nat) returns (kept: seq<nat>, gone: seq<int>)
    ensures Located(q, Without(q, device), kept, gone)
    ensures forall k :: 0 <= k < |q| ==> (gone[k] == -1 <==> From(q[k], device))
  {
    hide From, Located, Shifted;
    if |q| == 0 {
      kept, gone := [], [];
      NonePlaced();
    } else {
      kept, gone := WithoutPlaces(q[1..], device);
      LocatedLengths(q[1..], Without(q[1..], device), kept, gone);
      if From(q[0], device) {
        SkipFirst(q, Without(q[1..], device), kept, gone);
        kept, gone := Shifted(kept), [-1] + gone;
      } else {
        var later := KeepFirst(q, Without(q[1..], device), kept, gone);
        kept, gone := [0] + Shifted(kept), [0] + later;
      }
    }
  }

  lemma NonePlaced()
    ensures Located([], [], [], [])
  {}

  lemma LocatedLengths(q: seq<Message>, r: seq<Message>, kept: seq<nat>, gone: seq<int>)
    requires Located(q, r, kept, gone)
    ensures |kept| == |r| && |gone| == |q| && forall k :: 0 <= k < |q| ==> gone[k] >= -1
  {}

  /** The places of the messages that stay after the first connect message has been handled. */
  lemma AfterPlaces(q: seq<Message>, p: nat) returns (kept: seq<nat>, gone: seq<int>)
    requires p < |q| && q[p].Connect? && |q[p].report| > 0
    ensures Located(q, AfterConnect(q, p), kept, gone)
    ensures forall k :: 0 <= k < |q| ==> (gone[k] == -1 <==> k >= p && From(q[k], q[p].report[0].device))
  {
    hide From, Without, Located;
    var device := q[p].report[0].device;
    var kept', gone' := WithoutPlaces(q[p..], device);
    LocatedLengths(q[p..], Without(q[p..], device), kept', gone');
    kept := seq(p + |kept'|, i requires 0 <= i < p + |kept'| => if i < p then i else p + kept'[i - p]);
    gone := seq(|q|, k requires 0 <= k < |q| => if k < p then k else if gone'[k - p] == -1 then -1 else p + gone'[k - p]);
    BehindPrefix(q, p, Without(q[p..], device), kept', gone', kept, gone);
  }

  /** A part of the rest of a queue, put behind the first p messages. */
  lemma BehindPrefix(q: seq<Message>, p: nat, r: seq<Message>, kept: seq<nat>, gone: seq<int>, kept': seq<nat>,
      gone': seq<int>)
    requires p <= |q| && Located(q[p..], r, kept, gone) && |kept'| == p + |kept| && |gone'| == |q|
    requires forall i :: 0 <= i < p + |kept| ==> kept'[i] == if i < p then i else p + kept[i - p]
    requires forall k :: 0 <= k < |q| ==>
               gone'[k] == if k < p then k else if gone[k - p] == -1 then -1 else p + gone[k - p]
    ensures Located(q, q[..p] + r, kept', gone')
  {
    var all := q[..p] + r;
    forall i | 0 <= i < |kept'| ensures kept'[i] < |q| && all[i] == q[kept'[i]] && gone'[kept'[i]] == i {
      if i >= p {
        assert r[i - p] == q[p..][kept[i - p]] && gone[kept[i - p]] == i - p;
      }
    }
    forall i, j | 0 <= i < j < |kept'| ensures kept'[i] < kept'[j] {
      if i >= p {
        assert kept[i - p] < kept[j - p];
      }
    }
    forall k | 0 <= k < |q| ensures gone'[k] == -1 || (0 <= gone'[k] < |kept'| && kept'[gone'[k]] == k) {
      if k >= p && gone[k - p] != -1 {
        assert kept[gone[k - p]] == k - p;
      }
    }
  }

  /** The other messages stay in order. */
  lemma {:induction false} OthersPlaces(q: seq<Message>) returns (kept: seq<nat>, gone: seq<int>)
    ensures Located(q, Others(q), kept, gone)
    ensures forall k :: 0 <= k < |q| ==> (gone[k] == -1 <==> q[k].Connect?)
  {
    hide Located, Shifted;
    if |q| == 0 {
      kept, gone := [], [];
      NonePlaced();
    } else {
      kept, gone := OthersPlaces(q[1..]);
      LocatedLengths(q[1..], Others(q[1..]), kept, gone);
      if q[0].Connect? {
        SkipFirst(q, Others(q[1..]), kept, gone);
        kept, gone := Shifted(kept), [-1] + gone;
        assert [] + Others(q[1..]) == Others(q[1..]);
      } else {
        var later := KeepFirst(q, Others(q[1..]), kept, gone);
        kept, gone := [0] + Shifted(kept), [0] + later;
      }
    }
  }

  lemma OthersKept(q: seq<Message>) returns (kept: seq<nat>)
    ensures |kept| == |Others(q)| && forall i :: 0 <= i < |kept| ==> kept[i] < |q| && Others(q)[i] == q[kept[i]]
    ensures forall i, j :: 0 <= i < j < |kept| ==> kept[i] < kept[j]
    ensures forall k :: 0 <= k < |q| ==> (k in kept <==> !q[k].Connect?)
  {
    hide Others;
    var gone;
    kept, gone := OthersPlaces(q);
    forall k | 0 <= k < |q| ensures k in kept <==> !q[k].Connect? {
      KeptIff(q, Others(q), kept, gone, k);
    }
  }

  /** Every connect message has a report. */
  predicate Reporting(q: seq<Message>) { forall m :: m in q && m.Connect? ==> |m.report| > 0 }

  /** at are the places of the first connect message of each reporter. */
  ghost predicate Firsts(q: seq<Message>, at: seq<nat>)
    requires Reporting(q)
  {
    && (forall i :: 0 <= i < |at| ==> at[i] < |q| && q[at[i]].Connect?)
    && (forall i, j :: 0 <= i < j < |at| ==> at[i] < at[j])
    && (forall i, k :: 0 <= i < |at| && 0 <= k < at[i] && q[k].Connect? ==>
          q[k].report[0].device != q[at[i]].report[0].device)
    && (forall k :: 0 <= k < |q| && q[k].Connect? ==> Among(q, at, q[k].report[0].device))
  }

  /** One of the places holds a connect message of this reporter. */
  ghost predicate Among(q: seq<Message>, at: seq<nat>, device: nat) {
    exists i :: 0 <= i < |at| && at[i] < |q| && From(q[at[i]], device)
  }

  /** r is q without the connect messages from place p on that have the reporter of the one at p. */
  ghost predicate Thinned(q: seq<Message>, p: nat, r: seq<Message>, kept: seq<nat>, gone: seq<int>)
    requires Reporting(q) && p < |q| && q[p].Connect?
  {
    && Located(q, r, kept, gone)
    && forall k :: 0 <= k < |q| ==>
         (gone[k] == -1 <==> k >= p && q[k].Connect? && q[k].report[0].device == q[p].report[0].device)
  }

  lemma ThinnedReporting(q: seq<Message>, p: nat, r: seq<Message>, kept: seq<nat>, gone: seq<int>)
    requires Reporting(q) && p < |q| && q[p].Connect? && Thinned(q, p, r, kept, gone)
    ensures Reporting(r)
  {
    forall m | m in r && m.Connect? ensures |m.report| > 0 {
      var i :| 0 <= i < |r| && r[i] == m;
      assert q[kept[i]] in q;
    }
  }

  /** The places of the later reporters. */
  function Later(at: seq<nat>, kept: seq<nat>): (l: seq<nat>)
    requires forall i :: 0 <= i < |at| ==> at[i] < |kept|
    ensures |l| == |at| && forall i :: 0 <= i < |at| ==> l[i] == kept[at[i]]
  {
    seq(|at|, i requires 0 <= i < |at| => kept[at[i]])
  }

  lemma LaterFirsts(q: seq<Message>, p: nat, r: seq<Message>, kept: seq<nat>, gone: seq<int>, at: seq<nat>)
    requires Reporting(q) && Reporting(r) && p < |q| && q[p].Connect? && Thinned(q, p, r, kept, gone) && Firsts(r, at)
    requires forall k :: 0 <= k < p ==> !q[k].Connect?
    ensures var l := Later(at, kept);
            && (forall i :: 0 <= i < |l| ==> p < l[i] < |q| && q[l[i]].Connect?
                                             && q[l[i]].report[0].device != q[p].report[0].device)
            && (forall i, j :: 0 <= i < j < |l| ==> l[i] < l[j])
  {
    var l := Later(at, kept);
    forall i | 0 <= i < |l|
      ensures p < l[i] < |q| && q[l[i]].Connect? && q[l[i]].report[0].device != q[p].report[0].device
    {
      assert q[l[i]] == r[at[i]] && gone[l[i]] == at[i];
    }
  }

  lemma LaterAreFirst(q: seq<Message>, p: nat, r: seq<Message>, kept: seq<nat>, gone: seq<int>, at: seq<nat>)
    requires Reporting(q) && Reporting(r) && p < |q| && q[p].Connect? && Thinned(q, p, r, kept, gone) && Firsts(r, at)
    requires forall k :: 0 <= k < p ==> !q[k].Connect?
    ensures var l := Later(at, kept);
            forall i, k :: 0 <= i < |l| && 0 <= k < l[i] < |q| && q[k].Connect? && q[l[i]].Connect? ==>
              q[k].report[0].device != q[l[i]].report[0].device
  {
    var l := Later(at, kept);
    LaterFirsts(q, p, r, kept, gone, at);
    forall i, k | 0 <= i < |l| && 0 <= k < l[i] < |q| && q[k].Connect? && q[l[i]].Connect?
      ensures q[k].report[0].device != q[l[i]].report[0].device
    {
      assert q[l[i]] == r[at[i]];
      if gone[k] != -1 {
        assert r[gone[k]] == q[k];
        assert gone[k] < at[i];
      }
    }
  }

  lemma LaterCover(q: seq<Message>, p: nat, r: seq<Message>, kept: seq<nat>, gone: seq<int>, at: seq<nat>, k: nat)
    requires Reporting(q) && Reporting(r) && p < |q| && q[p].Connect? && Thinned(q, p, r, kept, gone) && Firsts(r, at)
    requires k < |q| && q[k].Connect? && q[k].report[0].device != q[p].report[0].device
    requires forall i :: 0 <= i < |at| ==> at[i] < |kept|
    ensures Among(q, Later(at, kept), q[k].report[0].device)
  {
    hide From;
    assert r[gone[k]] == q[k];
    var i :| 0 <= i < |at| && at[i] < |r| && From(r[at[i]], q[k].report[0].device);
    assert q[Later(at, kept)[i]] == r[at[i]];
  }

  lemma JoinCover(q: seq<Message>, p: nat, l: seq<nat>, device: nat)
    requires p < |q| && (From(q[p], device) || Among(q, l, device))
    ensures Among(q, [p] + l, device)
  {
    hide From;
    var all := [p] + l;
    if From(q[p], device) {
      assert all[0] == p;
    } else {
      var i :| 0 <= i < |l| && l[i] < |q| && From(q[l[i]], device);
      assert all[i + 1] == l[i];
    }
  }

  lemma JoinFirsts(q: seq<Message>, p: nat, l: seq<nat>)
    requires Reporting(q) && p < |q| && q[p].Connect? && forall k :: 0 <= k < p ==> !q[k].Connect?
    requires forall i :: 0 <= i < |l| ==> p < l[i] < |q| && q[l[i]].Connect?
                                          && q[l[i]].report[0].device != q[p].report[0].device
    requires forall i, j :: 0 <= i < j < |l| ==> l[i] < l[j]
    requires forall i, k :: 0 <= i < |l| && 0 <= k < l[i] && q[k].Connect? ==>
               q[k].report[0].device != q[l[i]].report[0].device
    requires forall k :: 0 <= k < |q| && q[k].Connect? ==> Among(q, [p] + l, q[k].report[0].device)
    ensures Firsts(q, [p] + l)
  {
    hide Among;
  }

  lemma NextFirsts(q: seq<Message>, p: nat, r: seq<Message>, kept: seq<nat>, gone: seq<int>, at: seq<nat>)
    requires Reporting(q) && Reporting(r) && p < |q| && q[p].Connect? && Thinned(q, p, r, kept, gone) && Firsts(r, at)
    requires forall k :: 0 <= k < p ==> !q[k].Connect?
    ensures forall i :: 0 <= i < |at| ==> at[i] < |kept|
    ensures Firsts(q, [p] + Later(at, kept))
  {
    ThinnedReports(q, p, r, kept, gone, at);
    LaterFirsts(q, p, r, kept, gone, at);
    LaterAreFirst(q, p, r, kept, gone, at);
    hide Firsts, Thinned, Later, Among;
    var l := Later(at, kept);
    forall k | 0 <= k < |q| && q[k].Connect? ensures Among(q, [p] + l, q[k].report[0].device) {
      assert q[k] in q;
      if q[k].report[0].device != q[p].report[0].device {
        LaterCover(q, p, r, kept, gone, at, k);
      }
      JoinCover(q, p, l, q[k].report[0].device);
    }
    JoinFirsts(q, p, l);
  }

  lemma {:induction false} HandledFirsts(q: seq<Message>) returns (at: seq<nat>)
    requires Reporting(q)
    ensures Firsts(q, at) && |at| == |Handled(q)|
    ensures forall i :: 0 <= i < |at| ==> Handled(q)[i] == q[at[i]].report
    decreases |q|
  {
    hide FirstConnect, Firsts, Thinned, From;
    var p := FirstConnect(q);
    if p == |q| {
      at := [];
      NoFirsts(q);
    } else {
      assert q[p] in q;
      var r := AfterConnect(q, p);
      var kept, gone := AfterThinned(q, p);
      hide AfterConnect;
      ThinnedReporting(q, p, r, kept, gone);
      var at' := HandledFirsts(r);
      NextFirsts(q, p, r, kept, gone, at');
      at := [p] + Later(at', kept);
      ThinnedReports(q, p, r, kept, gone, at');
    }
  }

  lemma NoFirsts(q: seq<Message>)
    requires Reporting(q) && forall k :: 0 <= k < |q| ==> !q[k].Connect?
    ensures Firsts(q, [])
  {}

  lemma ThinnedReports(q: seq<Message>, p: nat, r: seq<Message>, kept: seq<nat>, gone: seq<int>, at: seq<nat>)
    requires Reporting(q) && Reporting(r) && p < |q| && q[p].Connect? && Thinned(q, p, r, kept, gone) && Firsts(r, at)
    ensures forall i :: 0 <= i < |at| ==> at[i] < |kept| && kept[at[i]] < |q| && q[kept[at[i]]] == r[at[i]] && r[at[i]].Connect?
  {}

  lemma AfterThinned(q: seq<Message>, p: nat) returns (kept: seq<nat>, gone: seq<int>)
    requires Reporting(q) && p < |q| && q[p].Connect? && |q[p].report| > 0
    ensures Thinned(q, p, AfterConnect(q, p), kept, gone)
  {
    hide AfterConnect;
    kept, gone := AfterPlaces(q, p);
    forall k | 0 <= k < |q| ensures q[k] in q {}
  }

  /** The reports handled are those of the first connect message of each reporter, in queue order, and every reporter is
      among them. */
  lemma HandledIs(q: seq<Message>) returns (at: seq<nat>)
    requires forall m :: m in q && m.Connect? ==> |m.report| > 0
    ensures |at| == |Handled(q)|
    ensures forall i :: 0 <= i < |at| ==> at[i] < |q| && q[at[i]].Connect? && Handled(q)[i] == q[at[i]].report
    ensures forall i, j :: 0 <= i < j < |at| ==> at[i] < at[j]
    ensures forall i, k :: 0 <= i < |at| && 0 <= k < at[i] && q[k].Connect? ==>
              q[k].report[0].device != q[at[i]].report[0].device
    ensures forall k :: 0 <= k < |q| && q[k].Connect? ==>
              exists i :: 0 <= i < |at| && q[at[i]].report[0].device == q[k].report[0].device
  {
    hide Handled;
    at := HandledFirsts(q);
  }

  /** The search for the first connect message. */
  method SeekConnect(q: seq<Message>) returns (p: nat)
    ensures p == FirstConnect(q)
  {
    p := 0;
    while p < |q| && !q[p].Connect?
      invariant p <= FirstConnect(q)
      decreases |q| - p
    {
      p := p + 1;
    }
  }

  /** Connect messages come first in what is left. */
  lemma {:induction false} WithoutKeepsOrder(q: seq<Message>, device: nat)
    requires ConnectsFirst(q)
    ensures ConnectsFirst(Without(q, device))
  {
    if |q| > 0 {
      assert forall i :: 0 <= i < |q[1..]| ==> q[1..][i] == q[i + 1];
      WithoutKeepsOrder(q[1..], device);
      WithoutIsPart(q[1..], device);
      var r := Without(q[1..], device);
      forall i | 0 <= i < |r| && r[i].Connect? ensures q[0].Connect? {
        assert r[i] in r && r[i] in q[1..];
        var k :| 0 <= k < |q[1..]| && q[1..][k] == r[i];
      }
    }
  }

  lemma Unlinked(a: seq<Message>, b: seq<Message>, c: seq<Message>)
    requires |c| > 0
    ensures (a + b + c)[|a| + |b|] == c[0] && c == [c[0]] + c[1..]
    ensures (a + b + c)[..|a| + |b|] + (a + b + c)[|a| + |b| + 1..] == a + b + c[1..]
    ensures a + b + c == a + (b + [c[0]]) + c[1..]
  {}

  lemma WithoutStep(kept: seq<Message>, rest: seq<Message>, device: nat)
    requires |rest| > 0
    ensures kept + Without(rest, device) == if From(rest[0], device) then kept + Without(rest[1..], device)
                                            else kept + [rest[0]] + Without(rest[1..], device)
  {}

  /** A queue with its connect messages first has one at the head if it has any. */
  lemma FirstIsHead(q: seq<Message>)
    requires ConnectsFirst(q) && FirstConnect(q) < |q|
    ensures FirstConnect(q) == 0
  {}

  lemma RemovedPlaces(queue: seq<Message>, p: nat, device: nat) returns (kept: seq<nat>)
    requires p < |queue| && From(queue[p], device)
    ensures var q := queue[..p] + Without(queue[p..], device);
            |kept| == |q| && forall i :: 0 <= i < |q| ==> kept[i] < |queue| && q[i] == queue[kept[i]]
    ensures forall i, j :: 0 <= i < j < |kept| ==> kept[i] < kept[j]
    ensures forall k :: 0 <= k < |queue| ==> (k in kept <==> k < p || !queue[k].Connect? || |queue[k].report| == 0
                                                             || queue[k].report[0].device != device)
  {
    var gone;
    kept, gone := AfterPlaces(queue, p);
    forall k | 0 <= k < |queue| ensures k in kept <==> k < p || !From(queue[k], device) {
      KeptIff(queue, AfterConnect(queue, p), kept, gone, k);
    }
  }

  /** "delete all queues with same device_index", from the message at place p on.  A message that is not the head is
      unlinked through prev, the place of the message passed last; linked says that prev was set whenever it was
      used, which is so exactly if the first message is the head. */
  method Remove(queue: seq<Message>, p: nat, device: nat)
    returns (q: seq<Message>, ghost linked: bool, ghost kept: seq<nat>)
    requires p < |queue| && From(queue[p], device)
    ensures q == queue[..p] + Without(queue[p..], device)
    ensures linked <==> p == 0
    ensures |kept| == |q| && forall i :: 0 <= i < |q| ==> kept[i] < |queue| && q[i] == queue[kept[i]]
    ensures forall i, j :: 0 <= i < j < |kept| ==> kept[i] < kept[j]
    ensures forall k :: 0 <= k < |queue| ==> (k in kept <==> k < p || !queue[k].Connect? || |queue[k].report| == 0
                                                             || queue[k].report[0].device != device)
  {
    hide Without, From;
    kept := RemovedPlaces(queue, p, device);
    q := queue;
    linked := true;
    ghost var prev: int := -1;
    ghost var passed: seq<Message>, rest := [], queue[p..];
    var i := p;
    assert q == queue[..p] + passed + rest && passed + Without(rest, device) == Without(queue[p..], device);
    while i < |q|
      invariant q == queue[..p] + passed + rest && i == p + |passed|
      invariant passed + Without(rest, device) == Without(queue[p..], device)
      invariant if rest == queue[p..] then linked && prev == -1 && passed == [] else linked <==> p == 0
      invariant |rest| <= |queue| - p && (passed != [] ==> prev == i - 1)
      decreases |rest|
    {
      Unlinked(queue[..p], passed, rest);
      WithoutStep(passed, rest, device);
      if From(q[i], device) {
        linked := linked && (i == 0 || prev == i - 1);
        q := q[..i] + q[i + 1..];
      } else {
        prev := i;
        passed := passed + [rest[0]];
        i := i + 1;
      }
      rest := rest[1..];
    }
    WithoutNothing(device);
    assert passed + [] == passed && queue[..p] + passed + [] == queue[..p] + passed;
  }

  lemma WithoutNothing(device: nat)
    ensures Without([], device) == []
  {}

  /** mainchain_t. */
  class Chain {
    var queue: seq<Message>
    const list: array<Entry>
    var dagNumber: nat
    var dag: Transaction?
    /** The list linked from dag, and all nodes in the order they were made. */
    ghost var tips: seq<Transaction>
    ghost var nodes: seq<Transaction>
    /** The notices handed to devices, in order. */
    var sent: seq<Delivery>
    /** The deals of the queued transactions that have been taken, and the numbers of those whose tokens were moved,
        in order. */
    ghost var taken: seq<Deal>
    ghost var moved: seq<nat>

    constructor (list: array<Entry>)
      ensures this.list == list && queue == [] && dagNumber == 0 && dag == null && tips == [] && nodes == []
              && sent == [] && taken == [] && moved == []
    {
      this.list := list;
      queue, dagNumber, dag := [], 0, null;
      sent, tips, nodes, taken, moved := [], [], [], [], [];
    }

    /** queue_insert. */
    method Insert(m: Message)
      modifies this`queue
      ensures queue == Inserted(old(queue), m) && (ConnectsFirst(old(queue)) ==> ConnectsFirst(queue))
    {
      if m.Connect? {
        queue := [m] + queue;
      } else if |queue| == 0 {
        queue := [m];
      } else {
        queue := queue + [m];
      }
    }

    /** One round of connect_recv, for the connect message at place p. */
    method HandleConnect(p: nat) returns (ghost kept: seq<nat>)
      requires p == FirstConnect(queue) < |queue| && AllKnown(list[..], queue) && ConnectsFirst(queue)
      modifies this`queue, this`dagNumber, list
      ensures SameAccounts(old(list[..]), list[..]) && queue == AfterConnect(old(queue), p) && ConnectsFirst(queue)
      ensures var report := old(queue)[p].report;
              var g := Places(old(list[..]), report, |report|);
              Numbers(list[..]) == Regrouped(old(Numbers(list[..])), g, old(dagNumber))
                  && dagNumber == GroupCount(old(Numbers(list[..])), g, old(dagNumber))
                  && Roles(list[..]) == Reported(old(list[..]), Roles(old(list[..])), report, |report|)
      ensures |kept| == |queue| && forall i :: 0 <= i < |queue| ==> kept[i] < |old(queue)| && queue[i] == old(queue)[kept[i]]
      ensures forall i, j :: 0 <= i < j < |kept| ==> kept[i] < kept[j]
      ensures var q := old(queue);
              |q[p].report| > 0 && forall k :: 0 <= k < |q| ==>
                (k in kept <==> !q[k].Connect? || |q[k].report| == 0 || q[k].report[0].device != q[p].report[0].device)
    {
      hide Places, Regrouped, GroupCount, SameAccounts, Numbers, Known, Roles, Reported;
      var report := queue[p].report;
      ReportKnown(list[..], queue, p);
      dagNumber := ConnectOne(list, dagNumber, report);
      FirstIsHead(queue);
      WithoutKeepsOrder(queue, report[0].device);
      ghost var linked;
      queue, linked, kept := Remove(queue, p, report[0].device);
      assert linked;
    }

    /** connect_recv: the first report of every reporter regroups the list, and the reports leave the queue. The reports
        handled are at the places at, what stays at the places kept. */
    method ConnectRecv() returns (ghost at: seq<nat>, ghost kept: seq<nat>)
      requires AllKnown(list[..], queue) && Numbered(Numbers(list[..]), dagNumber) && ConnectsFirst(queue)
      modifies this`queue, this`dagNumber, list
      ensures SameAccounts(old(list[..]), list[..]) && Numbered(Numbers(list[..]), dagNumber)
      ensures (Numbers(list[..]), dagNumber) == ConnectAll(old(list[..]), old(Numbers(list[..])), old(dagNumber),
              Handled(old(queue)))
      ensures Roles(list[..]) == RolesAll(old(list[..]), Handled(old(queue)))
      ensures queue == Others(old(queue)) + (if FirstConnect(old(queue)) < |old(queue)| then [Wake] else [])
      ensures |at| == |Handled(old(queue))|
      ensures forall i :: 0 <= i < |at| ==> at[i] < |old(queue)| && old(queue)[at[i]].Connect?
                                            && old(queue)[at[i]].report == Handled(old(queue))[i] != []
      ensures forall i, j :: 0 <= i < j < |at| ==> at[i] < at[j]
      ensures forall i, k :: 0 <= i < |at| && 0 <= k < at[i] && old(queue)[k].Connect? ==>
                old(queue)[k].report != [] && old(queue)[k].report[0].device != old(queue)[at[i]].report[0].device
      ensures forall k :: 0 <= k < |old(queue)| && old(queue)[k].Connect? ==>
                old(queue)[k].report != []
                && exists i :: 0 <= i < |at| && old(queue)[at[i]].report[0].device == old(queue)[k].report[0].device
      ensures |queue| == |kept| + (if at == [] then 0 else 1) && (at != [] ==> queue[|kept|] == Wake)
      ensures forall i :: 0 <= i < |kept| ==> kept[i] < |old(queue)| && queue[i] == old(queue)[kept[i]]
      ensures forall i, j :: 0 <= i < j < |kept| ==> kept[i] < kept[j]
      ensures forall k :: 0 <= k < |old(queue)| ==> (k in kept <==> !old(queue)[k].Connect?)
    {
      hide Places, Regrouped, GroupCount, Known, AllKnown, Numbered, Numbers, Others, Find, Handled, AfterConnect, ConnectAll,
           ConnectsFirst, Roles, RolesAll, Reported;
      ghost var l, d, n, q := list[..], Numbers(list[..]), dagNumber, queue;
      ghost var reports: seq<seq<Neighbour>> := [];
      var flag := false;
      ConnectNone(l, d, n);
      RolesMore(l, [], []);
      assert [] + Handled(q) == Handled(q);
      var p := SeekConnect(queue);
      while p < |queue|
        invariant p == FirstConnect(queue) && AllKnown(list[..], queue) && SameAccounts(l, list[..]) && Others(queue) == Others(q)
        invariant Numbered(Numbers(list[..]), dagNumber) && ConnectsFirst(queue)
        invariant (Numbers(list[..]), dagNumber) == ConnectAll(l, d, n, reports)
        invariant Roles(list[..]) == RolesAll(l, reports)
        invariant reports + Handled(queue) == Handled(q)
        invariant if flag then FirstConnect(q) < |q| else queue == q
        decreases |queue|
      {
        flag := true;
        ghost var before, report := list[..], queue[p].report;
        ConnectMore(l, d, n, reports, report);
        RolesMore(l, reports, report);
        ReportedSame(l, before, RolesAll(l, reports), report, |report|);
        assert reports + [report] + Handled(AfterConnect(queue, p)) == Handled(q) by {
          ReportKnown(before, queue, p);
          HandledFirst(queue, p);
          assert reports + [report] + Handled(AfterConnect(queue, p)) == reports + ([report] + Handled(AfterConnect(queue, p)));
        }
        reports := reports + [report];
        RoundKeeps(l, before, queue, p, Numbers(before), dagNumber);
        var left := HandleConnect(p);
        StillKnown(before, list[..], queue);
        p := SeekConnect(queue);
      }
      NoConnect(queue);
      HandledNone(queue);
      assert reports + [] == reports;
      if flag {
        Insert(Wake);
      }
      at, kept := ConnectPlaces(l, q);
    }
  }

  lemma ConnectPlaces(list: seq<Entry>, q: seq<Message>) returns (at: seq<nat>, kept: seq<nat>)
    requires AllKnown(list, q)
    ensures |at| == |Handled(q)| && (at == [] <==> FirstConnect(q) == |q|)
    ensures forall i :: 0 <= i < |at| ==> at[i] < |q| && q[at[i]].Connect? && q[at[i]].report == Handled(q)[i] != []
    ensures forall i, j :: 0 <= i < j < |at| ==> at[i] < at[j]
    ensures forall i, k :: 0 <= i < |at| && 0 <= k < at[i] && q[k].Connect? ==>
              q[k].report != [] && q[k].report[0].device != q[at[i]].report[0].device
    ensures forall k :: 0 <= k < |q| && q[k].Connect? ==>
              q[k].report != [] && exists i :: 0 <= i < |at| && q[at[i]].report[0].device == q[k].report[0].device
    ensures |kept| == |Others(q)| && forall i :: 0 <= i < |kept| ==> kept[i] < |q| && Others(q)[i] == q[kept[i]]
    ensures forall i, j :: 0 <= i < j < |kept| ==> kept[i] < kept[j]
    ensures forall k :: 0 <= k < |q| ==> (k in kept <==> !q[k].Connect?)
  {
    hide Find, Others, FirstConnect;
    forall k | 0 <= k < |q| && q[k].Connect? ensures |q[k].report| > 0 {
      ReportKnown(list, q, k);
    }
    at := HandledIs(q);
    kept := OthersKept(q);
  }

  lemma ReportKnown(list: seq<Entry>, q: seq<Message>, p: nat)
    requires AllKnown(list, q) && p < |q| && q[p].Connect?
    ensures |q[p].report| > 0 && Known(list, q[p].report)
  {
    assert q[p] in q;
  }

  lemma HandledFirst(q: seq<Message>, p: nat)
    requires p == FirstConnect(q) < |q| && |q[p].report| > 0
    ensures Handled(q) == [q[p].report] + Handled(AfterConnect(q, p))
  {}

  lemma HandledNone(q: seq<Message>)
    requires FirstConnect(q) == |q|
    ensures Handled(q) == []
  {}

  /** What one round of connect_recv preserves. */
  lemma RoundKeeps(l: seq<Entry>, list: seq<Entry>, q: seq<Message>, p: nat, d: seq<nat>, n: nat)
    requires AllKnown(list, q) && p == FirstConnect(q) < |q| && SameAccounts(l, list) && Numbered(d, n)
    ensures |q[p].report| > 0 && AllKnown(list, AfterConnect(q, p)) && Others(AfterConnect(q, p)) == Others(q)
    ensures Places(l, q[p].report, |q[p].report|) == Places(list, q[p].report, |q[p].report|)
    ensures var g := Places(list, q[p].report, |q[p].report|);
            Numbered(Regrouped(d, g, n), GroupCount(d, g, n))
  {
    hide Places, Regrouped, GroupCount, Known, Numbered, Others, Find;
    ReportKnown(list, q, p);
    AfterConnectKnown(list, q, p);
    PlacesSame(l, list, q[p].report);
    RegroupedIs(d, Places(list, q[p].report, |q[p].report|), n);
  }

  lemma StillKnown(list: seq<Entry>, list': seq<Entry>, q: seq<Message>)
    requires SameAccounts(list, list') && AllKnown(list, q)
    ensures AllKnown(list', q)
  {
    hide Known;
    forall m | m in q && m.Connect? ensures Known(list', m.report) {
      PlacesSame(list, list', m.report);
    }
  }
}
