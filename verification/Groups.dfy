/** Group numbers of the devices: how a report of a neighbourhood regroups and renumbers them. */
module Groups {
  /** The nonzero numbers in the first n places, in the order they first occur. */
  function Ids(d: seq<nat>, n: nat): (s: seq<nat>)
    requires n <= |d|
  {
    if n == 0 then []
    else
      var s := Ids(d, n - 1);
      if d[n - 1] == 0 || d[n - 1] in s then s else s + [d[n - 1]]
  }

  /** The place of v in s. */
  function PlaceOf(s: seq<nat>, v: nat): (j: nat)
    ensures j <= |s| && (j < |s| ==> s[j] == v) && forall k :: 0 <= k < j ==> s[k] != v
  {
    if |s| == 0 || s[0] == v then 0 else 1 + PlaceOf(s[1..], v)
  }

  function Renumbered(d: seq<nat>, ids: seq<nat>): (e: seq<nat>)
    ensures |e| == |d|
  {
    seq(|d|, i requires 0 <= i < |d| => if d[i] == 0 then 0 else PlaceOf(ids, d[i]) + 1)
  }

  /** The devices of g are put into group v. */
  function Assigned(d: seq<nat>, g: set<nat>, v: nat): (e: seq<nat>)
    ensures |e| == |d|
  {
    seq(|d|, i requires 0 <= i < |d| => if i in g then v else d[i])
  }

  /** The numbers after the devices of g have been reported as one neighbourhood. */
  function Regrouped(d: seq<nat>, g: set<nat>, n: nat): (e: seq<nat>)
    ensures |e| == |d|
  {
    var a := Assigned(d, g, n + 1);
    Renumbered(a, Ids(a, |a|))
  }

  function GroupCount(d: seq<nat>, g: set<nat>, n: nat): nat {
    var a := Assigned(d, g, n + 1);
    |Ids(a, |a|)|
  }

  /** The nonzero numbers are exactly 1 to n. */
  ghost predicate Numbered(d: seq<nat>, n: nat) {
    && (forall i :: 0 <= i < |d| ==> d[i] <= n)
    && (forall v :: 1 <= v <= n ==> v in d)
  }

  lemma {:induction false} IdsAre(d: seq<nat>, n: nat)
    requires n <= |d|
    ensures forall v :: v in Ids(d, n) <==> v != 0 && v in d[..n]
    ensures forall i, j :: 0 <= i < j < |Ids(d, n)| ==> Ids(d, n)[i] != Ids(d, n)[j]
  {
    if n > 0 {
      IdsAre(d, n - 1);
      assert d[..n] == d[..n - 1] + [d[n - 1]];
    }
  }

  lemma PlaceIs(s: seq<nat>, v: nat, j: nat)
    requires j < |s| && s[j] == v && forall k :: 0 <= k < j ==> s[k] != v
    ensures PlaceOf(s, v) == j
  {}

  /** Renumbering keeps the groups and makes their numbers consecutive. */
  lemma RenumberedIs(d: seq<nat>)
    ensures var s := Ids(d, |d|);
            var e := Renumbered(d, s);
            && Numbered(e, |s|)
            && (forall i :: 0 <= i < |d| ==> (e[i] == 0 <==> d[i] == 0))
            && (forall i, k :: 0 <= i < |d| && 0 <= k < |d| ==> (e[i] == e[k] <==> d[i] == d[k]))
  {
    hide Ids;
    var s := Ids(d, |d|);
    var e := Renumbered(d, s);
    IdsAre(d, |d|);
    assert d[..|d|] == d;
    forall i | 0 <= i < |d| && d[i] != 0 ensures PlaceOf(s, d[i]) < |s| && e[i] == PlaceOf(s, d[i]) + 1 && s[e[i] - 1] == d[i] {
      assert d[i] in s;
    }
    forall v | 1 <= v <= |s| ensures v in e {
      assert s[v - 1] in d;
      var i :| 0 <= i < |d| && d[i] == s[v - 1];
      PlaceIs(s, d[i], v - 1);
      assert e[i] == v;
    }
  }

  /** A reported neighbourhood becomes one fresh group; the partition of the other devices does not change. */
  lemma RegroupedIs(d: seq<nat>, g: set<nat>, n: nat)
    requires Numbered(d, n)
    ensures var e := Regrouped(d, g, n);
            && Numbered(e, GroupCount(d, g, n))
            && (forall i, k :: 0 <= i < |d| && 0 <= k < |d| && i in g ==> e[i] != 0 && (e[i] == e[k] <==> k in g))
            && (forall i :: 0 <= i < |d| && i !in g ==> (e[i] == 0 <==> d[i] == 0))
            && (forall i, k :: 0 <= i < |d| && 0 <= k < |d| && i !in g && k !in g ==> (e[i] == e[k] <==> d[i] == d[k]))
  {
    hide Ids, Renumbered;
    var a := Assigned(d, g, n + 1);
    RenumberedIs(a);
  }
}
