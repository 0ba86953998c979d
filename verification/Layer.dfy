/** The nodes of the transaction graph and the traversals of layer.cpp that mark them. */
module Layer {
  /** deal_t: a transfer from one device to another. */
  datatype Deal = Deal(src: nat, dst: nat, token: nat)

  /** TRANSACTION_TIP and TRANSACTION_DAG. */
  datatype Status = TIP | DAG

  /** transaction_t: the links are set once; flag marks a node of a traversal or a rejected tip. */
  class Transaction {
    const trunk: Transaction?
    const branch: Transaction?
    var deal: Deal
    var status: Status
    var flag: bool
    var next: Transaction?
    /** Which queued transaction the node holds. */
    ghost var serial: nat

    constructor (trunk: Transaction?, branch: Transaction?, deal: Deal, ghost serial: nat)
      ensures this.trunk == trunk && this.branch == branch && this.deal == deal && this.serial == serial
      ensures status == TIP && !flag && next == null
    {
      this.trunk, this.branch, this.deal, this.serial := trunk, branch, deal, serial;
      status, flag, next := TIP, false, null;
    }
  }

  /** c holds the links of its nodes. */
  ghost predicate Closed(c: set<Transaction>) {
    forall x :: x in c ==> (x.trunk != null ==> x.trunk in c) && (x.branch != null ==> x.branch in c)
  }

  /** The nodes of s reachable from t by trunk and branch: those in every closed set around t. */
  ghost function Reach(t: Transaction, s: set<Transaction>): set<Transaction> {
    set x | x in s && forall c :: c <= s && t in c && Closed(c) ==> x in c
  }

  ghost function Marked(s: set<Transaction>): set<Transaction>
    reads s
  {
    set x | x in s && x.flag
  }

  ghost function Children(t: Transaction): set<Transaction> {
    (if t.trunk != null then {t.trunk} else {}) + (if t.branch != null then {t.branch} else {})
  }

  /** A traversal from the starts has grown the marks from u to v: it follows all links of new nodes and reaches no other node. */
  ghost predicate Traversed(u: set<Transaction>, v: set<Transaction>, starts: set<Transaction>, s: set<Transaction>) {
    && u <= v <= s && starts <= v
    && (forall x :: x in v - u ==> Children(x) <= v)
    && (forall c :: c <= s && starts <= c && Closed(c) ==> v - u <= c)
  }

  lemma NothingTraversed(u: set<Transaction>, starts: set<Transaction>, s: set<Transaction>)
    requires u <= s && starts <= u
    ensures Traversed(u, u, starts, s)
  {}

  lemma TraversedBoth(u: set<Transaction>, v: set<Transaction>, w: set<Transaction>, a: set<Transaction>,
      b: set<Transaction>, s: set<Transaction>)
    requires Traversed(u, v, a, s) && Traversed(v, w, b, s)
    ensures Traversed(u, w, a + b, s) && |w - u| == |v - u| + |w - v|
  {
    assert w - u == (v - u) + (w - v);
    forall c | c <= s && a + b <= c && Closed(c) ensures w - u <= c {
      assert a <= c && b <= c;
    }
  }

  lemma TraversedNode(u: set<Transaction>, v: set<Transaction>, t: Transaction, s: set<Transaction>)
    requires t !in u && t in s && Traversed(u + {t}, v, Children(t), s)
    ensures Traversed(u, v, {t}, s) && |v - u| == 1 + |v - (u + {t})|
  {
    assert v - u == {t} + (v - (u + {t}));
    forall c | c <= s && {t} <= c && Closed(c) ensures v - u <= c {
      assert Children(t) <= c;
    }
  }

  /** dag_dagnum: marks and counts the unmarked nodes reachable from t through unmarked nodes. */
  method DagNum(t: Transaction, number: nat, ghost s: set<Transaction>) returns (n: nat)
    requires t in s && Closed(s)
    modifies s`flag
    ensures Traversed(old(Marked(s)), Marked(s), {t}, s)
    ensures n == number + |Marked(s) - old(Marked(s))|
    decreases |s - Marked(s)|, 1
  {
    hide Traversed, Children;
    n := number;
    ghost var u := Marked(s);
    if t.flag {
      NothingTraversed(u, {t}, s);
      return;
    }
    t.flag := true;
    ghost var v := Marked(s);
    assert v == u + {t};
    Shrinks(s, u, v, t);
    n := DagNumLinks(t, n + 1, s);
    TraversedNode(u, Marked(s), t, s);
  }

  /** The recursive calls of dag_dagnum. */
  method DagNumLinks(t: Transaction, number: nat, ghost s: set<Transaction>) returns (n: nat)
    requires t in s && Closed(s)
    modifies s`flag
    ensures Traversed(old(Marked(s)), Marked(s), Children(t), s)
    ensures n == number + |Marked(s) - old(Marked(s))|
    decreases |s - Marked(s)|, 2
  {
    hide Traversed, Marked, Children;
    n := number;
    ghost var v := Marked(s);
    MarkedWithin(s);
    ChildrenAre(t);
    if t.trunk != null && t.branch != null {
      n := DagNum(t.trunk, n, s);
      ghost var w := Marked(s);
      Bigger(s, v, w, {t.trunk});
      n := DagNum(t.branch, n, s);
      TraversedBoth(v, w, Marked(s), {t.trunk}, {t.branch}, s);
    } else if t.trunk != null {
      n := DagNum(t.trunk, n, s);
    } else if t.branch != null {
      n := DagNum(t.branch, n, s);
    } else {
      NothingTraversed(v, {}, s);
    }
  }

  lemma ChildrenAre(t: Transaction)
    ensures t.trunk != null && t.branch != null ==> Children(t) == {t.trunk} + {t.branch}
    ensures t.trunk != null && t.branch == null ==> Children(t) == {t.trunk}
    ensures t.trunk == null && t.branch != null ==> Children(t) == {t.branch}
    ensures t.trunk == null && t.branch == null ==> Children(t) == {}
  {}

  lemma MarkedWithin(s: set<Transaction>)
    ensures Marked(s) <= s
  {}

  lemma Shrinks(s: set<Transaction>, u: set<Transaction>, v: set<Transaction>, t: Transaction)
    requires t in s && t !in u && v == u + {t}
    ensures |s - v| < |s - u|
  {
    assert s - u == (s - v) + {t};
  }

  lemma Bigger(s: set<Transaction>, u: set<Transaction>, v: set<Transaction>, starts: set<Transaction>)
    requires Traversed(u, v, starts, s)
    ensures |s - v| <= |s - u|
  {
    assert s - u == (s - v) + (v - u);
  }

  /** tips is the list linked by next from head. */
  ghost predicate Linked(head: Transaction?, tips: seq<Transaction>)
    reads tips`next
  {
    && head == (if |tips| == 0 then null else tips[0])
    && (forall i :: 0 <= i < |tips| ==> tips[i].next == if i + 1 < |tips| then tips[i + 1] else null)
    && (forall i, j :: 0 <= i < j < |tips| ==> tips[i] != tips[j])
  }

  lemma NextIs(head: Transaction?, tips: seq<Transaction>, i: nat)
    requires Linked(head, tips) && i < |tips|
    ensures tips[i].next == if i + 1 < |tips| then tips[i + 1] else null
  {}

  ghost function Elements(tips: seq<Transaction>): set<Transaction> {
    set x | x in tips
  }

  /** The tips without a flag. */
  ghost function Correct(tips: seq<Transaction>): set<Transaction>
    reads tips`flag
  {
    set x | x in tips && !x.flag
  }

  lemma CorrectStep(tips: seq<Transaction>, i: nat)
    requires i < |tips| && forall j, k :: 0 <= j < k < |tips| ==> tips[j] != tips[k]
    ensures Correct(tips[..i + 1]) == Correct(tips[..i]) + (if tips[i].flag then {} else {tips[i]})
    ensures |Correct(tips[..i + 1])| == |Correct(tips[..i])| + if tips[i].flag then 0 else 1
  {
    assert tips[..i + 1] == tips[..i] + [tips[i]];
    assert tips[i] !in tips[..i];
    assert Correct(tips[..i + 1]) == Correct(tips[..i]) + (if tips[i].flag then {} else {tips[i]});
  }

  /** dag_tipnum: counts the correct tips. */
  method TipNum(dag: Transaction?, ghost tips: seq<Transaction>) returns (number: nat)
    requires Linked(dag, tips)
    ensures number == |Correct(tips)|
  {
    hide Correct;
    number := 0;
    var transaction := dag;
    ghost var i := 0;
    NoneCorrect(tips);
    while transaction != null
      invariant i <= |tips| && transaction == (if i < |tips| then tips[i] else null)
      invariant number == |Correct(tips[..i])|
      decreases |tips| - i
    {
      CorrectStep(tips, i);
      if !transaction.flag {
        number := number + 1;
      }
      NextIs(dag, tips, i);
      transaction := transaction.next;
      i := i + 1;
    }
    assert tips[..i] == tips;
  }

  lemma NoneCorrect(tips: seq<Transaction>)
    ensures Correct(tips[..0]) == {}
  {}

  /** A traversal of an unmarked graph marks what is reachable. */
  lemma ReachIs(t: Transaction, m: set<Transaction>, s: set<Transaction>)
    requires Closed(s) && Traversed({}, m, {t}, s)
    ensures m == Reach(t, s) && Closed(m) && t in m
  {
    assert m - {} == m;
    assert Closed(m);
  }

  /** What n links lead to at most. */
  ghost function Steps(t: Transaction, n: nat): set<Transaction> {
    if n == 0 then {t}
    else
      var c := Steps(t, n - 1);
      c + (set x | x in c && x.trunk != null :: x.trunk as Transaction)
      + (set x | x in c && x.branch != null :: x.branch as Transaction)
  }

  lemma {:induction false} StepsWithin(t: Transaction, n: nat, c: set<Transaction>)
    requires t in c && Closed(c)
    ensures Steps(t, n) <= c
  {
    if n > 0 {
      StepsWithin(t, n - 1, c);
    }
  }

  /** A node is reachable exactly if some number of links leads to it. */
  lemma ReachSteps(t: Transaction, s: set<Transaction>, x: Transaction)
    requires Closed(s) && t in s
    ensures x in Reach(t, s) <==> exists n: nat :: x in Steps(t, n)
  {
    if n: nat :| x in Steps(t, n) {
      forall c | c <= s && t in c && Closed(c) ensures x in c {
        StepsWithin(t, n, c);
      }
      StepsWithin(t, n, s);
    }
    if x in Reach(t, s) {
      var c := set y | y in s && exists n: nat :: y in Steps(t, n);
      assert t in Steps(t, 0);
      forall y | y in c ensures (y.trunk != null ==> y.trunk in c) && (y.branch != null ==> y.branch in c) {
        var n: nat :| y in Steps(t, n);
        assert y.trunk != null ==> y.trunk in Steps(t, n + 1);
        assert y.branch != null ==> y.branch in Steps(t, n + 1);
      }
      assert Closed(c) && t in c;
      assert x in c;
    }
  }

  /** dag_num, on a graph without flags: the size of the reachable nodes and the tips together. */
  method DagTotal(dag: Transaction, ghost tips: seq<Transaction>, ghost s: set<Transaction>) returns (number: nat)
    requires Closed(s) && dag in s && Elements(tips) <= s && Linked(dag, tips) && Marked(s) == {}
    modifies s`flag
    ensures number == |Reach(dag, s) + Elements(tips)| && Marked(s) == Reach(dag, s)
  {
    hide Traversed, Marked, Correct, Reach, Linked, Elements;
    number := DagNum(dag, 0, s);
    ReachIs(dag, Marked(s), s);
    assert Marked(s) - {} == Marked(s);
    var n := TipNum(dag, tips);
    CorrectIs(tips, s);
    number := number + n;
  }

  /** The tips that are not marked are counted on top of the marked nodes. */
  lemma CorrectIs(tips: seq<Transaction>, s: set<Transaction>)
    requires Elements(tips) <= s
    ensures Correct(tips) == Elements(tips) - Marked(s)
    ensures |Marked(s)| + |Correct(tips)| == |Marked(s) + Elements(tips)|
  {
    assert Correct(tips) == Elements(tips) - Marked(s);
    assert Marked(s) + Elements(tips) == Marked(s) + Correct(tips);
  }

  /** dag_dagclear: unmarks the marked nodes reachable from t through marked nodes. */
  method DagUnmark(t: Transaction, ghost s: set<Transaction>)
    requires t in s && Closed(s)
    modifies s`flag
    ensures Traversed(s - old(Marked(s)), s - Marked(s), {t}, s)
    decreases |Marked(s)|, 1
  {
    hide Traversed, Children;
    ghost var u := s - Marked(s);
    if !t.flag {
      NothingTraversed(u, {t}, s);
      return;
    }
    ghost var m := Marked(s);
    t.flag := false;
    assert m == Marked(s) + {t};
    assert s - Marked(s) == u + {t};
    DagUnmarkLinks(t, s);
    TraversedNode(u, s - Marked(s), t, s);
  }

  /** The recursive calls of dag_dagclear. */
  method DagUnmarkLinks(t: Transaction, ghost s: set<Transaction>)
    requires t in s && Closed(s)
    modifies s`flag
    ensures Traversed(s - old(Marked(s)), s - Marked(s), Children(t), s)
    decreases |Marked(s)|, 2
  {
    hide Traversed, Marked, Children;
    ghost var m := Marked(s);
    MarkedWithin(s);
    ChildrenAre(t);
    if t.trunk != null && t.branch != null {
      DagUnmark(t.trunk, s);
      ghost var w := Marked(s);
      MarkedWithin(s);
      Fewer(s, m, w, {t.trunk});
      DagUnmark(t.branch, s);
      TraversedBoth(s - m, s - w, s - Marked(s), {t.trunk}, {t.branch}, s);
    } else if t.trunk != null {
      DagUnmark(t.trunk, s);
    } else if t.branch != null {
      DagUnmark(t.branch, s);
    } else {
      NothingTraversed(s - m, {}, s);
    }
  }

  lemma Fewer(s: set<Transaction>, m: set<Transaction>, w: set<Transaction>, starts: set<Transaction>)
    requires w <= s && m <= s && Traversed(s - m, s - w, starts, s)
    ensures |w| <= |m|
  {
    assert forall x :: x in w ==> x !in s - w && x !in s - m;
    assert w <= m;
    assert m == w + (m - w);
  }

  /** dag_tipclear. */
  method TipClear(dag: Transaction?, ghost tips: seq<Transaction>, ghost s: set<Transaction>)
    requires Linked(dag, tips) && Elements(tips) <= s
    modifies s`flag
    ensures Marked(s) == old(Marked(s)) - Elements(tips)
  {
    var transaction := dag;
    ghost var i := 0;
    while transaction != null
      invariant i <= |tips| && transaction == (if i < |tips| then tips[i] else null)
      invariant forall x :: x in s ==> x.flag == (old(x.flag) && x !in tips[..i])
      decreases |tips| - i
    {
      assert tips[i] in Elements(tips);
      assert tips[..i + 1] == tips[..i] + [tips[i]];
      if transaction.flag {
        transaction.flag := false;
      }
      NextIs(dag, tips, i);
      transaction := transaction.next;
      i := i + 1;
    }
    assert tips[..i] == tips;
  }

  lemma ReachClosed(t: Transaction, s: set<Transaction>)
    requires Closed(s) && t in s
    ensures Closed(Reach(t, s)) && t in Reach(t, s) && Reach(t, s) <= s
  {
    forall x, y | x in Reach(t, s) && y in Children(x) ensures y in Reach(t, s) {
    }
  }

  /** Unmarking from t clears all that is reachable. */
  lemma Unmarked(t: Transaction, m: set<Transaction>, s: set<Transaction>)
    requires Closed(s) && t in s && m <= s && Traversed(s - Reach(t, s), s - m, {t}, s)
    ensures m == {}
  {
    var r := Reach(t, s);
    ReachClosed(t, s);
    var c := r - m;
    forall x | x in c ensures Children(x) <= c {
      assert x in (s - m) - (s - r);
    }
    assert Closed(c);
    assert t in c;
    assert r <= c;
    assert m <= r;
    assert m * c == {};
  }

  /** dag_clear, after dag_num or dag_point: no flag is left. */
  method DagClear(dag: Transaction, ghost tips: seq<Transaction>, ghost s: set<Transaction>)
    requires Closed(s) && dag in s && Elements(tips) <= s && Linked(dag, tips) && Marked(s) == Reach(dag, s)
    modifies s`flag
    ensures Marked(s) == {}
  {
    hide Traversed, Marked, Correct, Reach, Linked, Elements;
    DagUnmark(dag, s);
    MarkedWithin(s);
    Unmarked(dag, Marked(s), s);
    TipClear(dag, tips, s);
  }

  /** p lists the nodes of m, each once. */
  ghost predicate Listed(p: seq<Transaction?>, m: set<Transaction>) {
    && |p| == |m| && (forall i :: 0 <= i < |p| ==> p[i] != null && p[i] in m)
    && (forall i, j :: 0 <= i < j < |p| ==> p[i] != p[j])
    && (forall x :: x in m ==> x in p)
  }

  lemma ListedMore(p: seq<Transaction?>, m: set<Transaction>, t: Transaction)
    requires Listed(p, m) && t !in m
    ensures Listed(p + [t], m + {t})
  {
    var q: seq<Transaction?> := p + [t];
    forall x | x in m + {t} ensures x in q {
      if x == t {
        assert q[|p|] == x;
      } else {
        var i :| 0 <= i < |p| && p[i] == x;
        assert q[i] == x;
      }
    }
  }

  lemma RoomFor(m: set<Transaction>, t: Transaction, r: set<Transaction>)
    requires m <= r && t in r && t !in m
    ensures |m| < |r|
  {
    assert m + {t} <= r;
    SmallerSet(m + {t}, r);
  }

  lemma SmallerSet(a: set<Transaction>, b: set<Transaction>)
    requires a <= b
    ensures |a| <= |b|
  {
    assert b == a + (b - a);
  }

  /** Stores one more node. */
  method Store(point: array<Transaction?>, number: nat, t: Transaction, ghost m: set<Transaction>,
      ghost r: set<Transaction>) returns (n: nat)
    requires number <= point.Length && Listed(point[..number], m) && m <= r && t in r && t !in m && |r| <= point.Length
    modifies point
    ensures n == number + 1 <= point.Length && Listed(point[..n], m + {t})
  {
    hide Listed;
    RoomFor(m, t, r);
    ListedSize(point[..number], m);
    ListedMore(point[..number], m, t);
    ghost var p := point[..number];
    point[number] := t;
    n := number + 1;
    assert point[..n] == p + [t];
  }

  /** dag_dagpoint: stores the nodes it marks; r bounds what is reachable. */
  method DagPoint(t: Transaction, number: nat, point: array<Transaction?>, ghost s: set<Transaction>,
      ghost r: set<Transaction>) returns (n: nat)
    requires t in s && Closed(s) && t in r && Closed(r) && Marked(s) <= r <= s && |r| <= point.Length
    requires number <= point.Length && Listed(point[..number], Marked(s))
    modifies s`flag, point
    ensures Traversed(old(Marked(s)), Marked(s), {t}, s) && Marked(s) <= r
    ensures n <= point.Length && Listed(point[..n], Marked(s))
    decreases |s - Marked(s)|, 1
  {
    hide Traversed, Children, Listed;
    n := number;
    ghost var u := Marked(s);
    if t.flag {
      NothingTraversed(u, {t}, s);
      return;
    }
    t.flag := true;
    ghost var v := Marked(s);
    assert v == u + {t};
    Shrinks(s, u, v, t);
    n := Store(point, n, t, u, r);
    n := DagPointLinks(t, n, point, s, r);
    TraversedNode(u, Marked(s), t, s);
  }

  lemma ListedSize(p: seq<Transaction?>, m: set<Transaction>)
    requires Listed(p, m)
    ensures |p| == |m|
  {}

  /** The recursive calls of dag_dagpoint. */
  method DagPointLinks(t: Transaction, number: nat, point: array<Transaction?>, ghost s: set<Transaction>,
      ghost r: set<Transaction>) returns (n: nat)
    requires t in s && Closed(s) && t in r && Closed(r) && Marked(s) <= r <= s && |r| <= point.Length
    requires number <= point.Length && Listed(point[..number], Marked(s))
    modifies s`flag, point
    ensures Traversed(old(Marked(s)), Marked(s), Children(t), s) && Marked(s) <= r
    ensures n <= point.Length && Listed(point[..n], Marked(s))
    decreases |s - Marked(s)|, 2
  {
    hide Traversed, Marked, Listed, Children;
    n := number;
    ghost var v := Marked(s);
    ChildrenAre(t);
    if t.trunk != null && t.branch != null {
      n := DagPoint(t.trunk, n, point, s, r);
      ghost var w := Marked(s);
      Bigger(s, v, w, {t.trunk});
      n := DagPoint(t.branch, n, point, s, r);
      TraversedBoth(v, w, Marked(s), {t.trunk}, {t.branch}, s);
    } else if t.trunk != null {
      n := DagPoint(t.trunk, n, point, s, r);
    } else if t.branch != null {
      n := DagPoint(t.branch, n, point, s, r);
    } else {
      MarkedWithin(s);
      NothingTraversed(v, {}, s);
    }
  }

  /** The body of the loop of dag_tippoint. */
  method StoreIfCorrect(t: Transaction, number: nat, point: array<Transaction?>, ghost tips: seq<Transaction>,
      ghost i: nat, ghost m: set<Transaction>) returns (n: nat)
    requires i < |tips| && t == tips[i] && Correct(tips) == Elements(tips) - m
    requires forall j, k :: 0 <= j < k < |tips| ==> tips[j] != tips[k]
    requires number <= point.Length && Listed(point[..number], m + Correct(tips[..i])) && |m + Elements(tips)| <= point.Length
    modifies point
    ensures n <= point.Length && Listed(point[..n], m + Correct(tips[..i + 1]))
  {
    hide Listed, Correct, Elements;
    n := number;
    ghost var c := Correct(tips[..i]);
    CorrectStep(tips, i);
    if !t.flag {
      TipIsNew(tips, i, m);
      n := Store(point, n, t, m + c, m + Elements(tips));
      assert m + c + {t} == m + (c + {t});
    } else {
      assert c + {} == c;
    }
  }

  /** dag_tippoint: stores the tips that are not marked. */
  method TipPoint(dag: Transaction?, number: nat, point: array<Transaction?>, ghost tips: seq<Transaction>,
      ghost m: set<Transaction>) returns (n: nat)
    requires Linked(dag, tips) && Correct(tips) == Elements(tips) - m
    requires number <= point.Length && Listed(point[..number], m) && |m + Elements(tips)| <= point.Length
    modifies point
    ensures n <= point.Length && Listed(point[..n], m + Elements(tips))
  {
    hide Listed, Correct, Elements, Linked;
    n := number;
    var transaction := dag;
    ghost var i := 0;
    LinkedIs(dag, tips);
    NoneCorrect(tips);
    assert m == m + Correct(tips[..0]);
    while transaction != null
      invariant i <= |tips| && transaction == (if i < |tips| then tips[i] else null)
      invariant n <= point.Length && Listed(point[..n], m + Correct(tips[..i]))
      decreases |tips| - i
    {
      n := StoreIfCorrect(transaction, n, point, tips, i, m);
      NextIs(dag, tips, i);
      transaction := transaction.next;
      i := i + 1;
    }
    assert tips[..i] == tips;
    assert m + (Elements(tips) - m) == m + Elements(tips);
  }

  lemma LinkedIs(head: Transaction?, tips: seq<Transaction>)
    requires Linked(head, tips)
    ensures head == (if |tips| == 0 then null else tips[0])
    ensures forall i, j :: 0 <= i < j < |tips| ==> tips[i] != tips[j]
  {}

  lemma TipIsNew(tips: seq<Transaction>, i: nat, m: set<Transaction>)
    requires i < |tips| && !tips[i].flag && Correct(tips) == Elements(tips) - m
    requires forall j, k :: 0 <= j < k < |tips| ==> tips[j] != tips[k]
    ensures tips[i] !in m + Correct(tips[..i]) && m + Correct(tips[..i]) <= m + Elements(tips) && tips[i] in Elements(tips)
  {
    assert tips[i] in Correct(tips);
    assert tips[i] !in tips[..i];
  }

  /** dag_point, on a graph without flags: every reachable node and every tip, each once. */
  method DagPoints(dag: Transaction, point: array<Transaction?>, ghost tips: seq<Transaction>,
      ghost s: set<Transaction>) returns (number: nat)
    requires Closed(s) && dag in s && Elements(tips) <= s && Linked(dag, tips) && Marked(s) == {}
    requires |Reach(dag, s) + Elements(tips)| <= point.Length
    modifies s`flag, point
    ensures number == |Reach(dag, s) + Elements(tips)| && Listed(point[..number], Reach(dag, s) + Elements(tips))
    ensures Marked(s) == Reach(dag, s)
  {
    hide Traversed, Marked, Correct, Reach, Linked, Elements, Listed;
    ReachClosed(dag, s);
    SmallerSet(Reach(dag, s), Reach(dag, s) + Elements(tips));
    NoneListed(point[..0]);
    number := DagPoint(dag, 0, point, s, Reach(dag, s));
    ReachIs(dag, Marked(s), s);
    CorrectIs(tips, s);
    number := TipPoint(dag, number, point, tips, Marked(s));
    ListedSize(point[..number], Reach(dag, s) + Elements(tips));
  }

  lemma NoneListed(p: seq<Transaction?>)
    requires |p| == 0
    ensures Listed(p, {})
  {}

  /** The passes of dag_delete: the nodes are counted, then collected, and the flags are as before. */
  method Collect(dag: Transaction, ghost tips: seq<Transaction>, ghost s: set<Transaction>)
      returns (transaction: array<Transaction?>)
    requires Closed(s) && dag in s && Elements(tips) <= s && Linked(dag, tips) && Marked(s) == {}
    modifies s`flag
    ensures fresh(transaction) && Listed(transaction[..], Reach(dag, s) + Elements(tips)) && Marked(s) == {}
  {
    hide Traversed, Marked, Correct, Reach, Linked, Elements, Listed;
    var number := DagTotal(dag, tips, s);
    DagClear(dag, tips, s);
    transaction := new Transaction?[number](_ => null);
    number := DagPoints(dag, transaction, tips, s);
    DagClear(dag, tips, s);
    assert transaction[..number] == transaction[..];
  }
}
