/** Periodic stabilization: a node asks its successor for its predecessor, adopts it if it lies in between, and notifies
    its successor. */
module Stabilization {
  import opened Options
  import opened Ring
  import opened Collections
  import opened FingerTable
  import opened Lookup
  import opened Routing
  import opened Neighbours

  /** The `notify` handler. A join also names the neighbour on the other side and the node that joined. */
  function Notify(m: nat, net: Net, at: Id, src: Id, update: Option<(Id, Id)>): Net
    requires at in net
  {
    if src == at then net else
      var t := net[at].Update(src);
      net[at := if update.Some? then t.Update(update.value.0).Update(update.value.1) else t]
  }

  /** Whether a notification by `src` reads the successor of a router that has none. */
  predicate ReadsMissing(t: Table, src: Id)
    requires t.Shape()
  {
    t.pred.Some? && t.pred.value != src && t.Successor().None?
  }

  /** Whether a notification by `src` is signalled as a change of the predecessor. */
  predicate SignalsPredecessor(t: Table, src: Id)
    requires t.Shape() && !ReadsMissing(t, src)
  {
    t.pred.None? || (t.pred.value != src && Between(src, t.self, t.Successor().value))
  }

  /** No member of a correct ring reads a missing successor. */
  lemma SettledReadsNothingMissing(t: Table, s: set<Id>, src: Id)
    requires Settled(t, s) && Ids(t.m, s) && t.self in s
    ensures !ReadsMissing(t, src)
  {
    if t.fingers[0].None? {
      assert forall z :: z in s ==> z == t.self;
    }
  }

  /** In a correct ring a notification by a member is signalled unless that one is the predecessor already, also if it
      does not become the predecessor. */
  lemma SettledSignals(t: Table, s: set<Id>, src: Id)
    requires Settled(t, s) && Ids(t.m, s) && t.self in s && src in s && src != t.self
    ensures !ReadsMissing(t, src) && (SignalsPredecessor(t, src) <==> t.pred != Some(src))
    ensures t.Update(src).pred == t.pred
  {
    SettledReadsNothingMissing(t, s, src);
    UpdateKeepsLast(t, s, src);
  }

  /** The last two identifiers are past every finger start of 0. */
  lemma OneNodeInAllFingers(m: nat)
    requires m >= 4
    ensures var t := Empty(m, 0).Update(Pow2(m) - 1).Update(Pow2(m) - 2);
            t.Consistent() && t.Nodes() <= {Pow2(m) - 2} && t.pred == Some(Pow2(m) - 1)
  {
    var d, f, t0 := Pow2(m) - 1, Pow2(m) - 2, Empty(m, 0);
    Pow2Increases(2, m);
    EmptyIsExact(m, 0);
    UpdateConsistent(t0, d);
    UpdateConsistent(t0.Update(d), f);
    forall i | 0 <= i < m ensures t0.Update(d).Update(f).fingers[i] == Some(f) {
      OffsetIsPower(m, 0, i);
      Pow2Increases(i, m);
    }
  }

  /** A router may keep a predecessor when it loses its last finger. A notification by another node then reads a
      successor that is missing. */
  lemma SuccessorMayBeMissing(m: nat, src: Id)
    requires m >= 4 && src != Pow2(m) - 1
    ensures var t := Empty(m, 0).Update(Pow2(m) - 1).Update(Pow2(m) - 2).Remove(Pow2(m) - 2);
            t.Consistent() && ReadsMissing(t, src)
  {
    OneNodeInAllFingers(m);
    LastFingerLost(Empty(m, 0).Update(Pow2(m) - 1).Update(Pow2(m) - 2), Pow2(m) - 1, Pow2(m) - 2, src);
  }

  lemma LastFingerLost(t: Table, p: Id, f: Id, src: Id)
    requires t.Consistent() && t.Nodes() <= {f} && t.pred == Some(p) && p != f && src != p
    ensures t.Remove(f).Consistent() && ReadsMissing(t.Remove(f), src)
  {
    RemoveRebuilds(t, f);
    NoNodesNoFirst(t.Remove(f));
  }

  lemma NoNodesNoFirst(t: Table)
    requires t.Shape() && t.Nodes() == {}
    ensures t.Successor().None?
  {
    assert forall x :: t.fingers[0] == Some(x) ==> x in t.Nodes();
  }

  /** One `stabilize` of node `n`. A dead successor is dropped; calls to dead nodes change nothing. */
  function Stabilize(m: nat, net: Net, live: set<Id>, n: Id): (r: Net)
    requires Shaped(m, net, live) && n in net
    ensures r.Keys == net.Keys && Shaped(m, r, live)
  {
    var succ := net[n].Successor();
    if succ.None? || succ.value == n then net
    else if succ.value !in live then
      RemoveNodes(net[n], succ.value);
      net[n := net[n].Remove(succ.value)]
    else
      var p := net[succ.value].pred;
      if p.Some? && Between(n, p.value, succ.value) then
        UpdateShape(net[n], p.value);
        NotifySuccessor(m, net[n := net[n].Update(p.value)], live, n)
      else NotifySuccessor(m, net, live, n)
  }

  function NotifySuccessor(m: nat, net: Net, live: set<Id>, n: Id): (r: Net)
    requires Shaped(m, net, live) && n in net
    ensures r.Keys == net.Keys && Shaped(m, r, live)
  {
    var succ := net[n].Successor();
    if succ.None? || succ.value == n || succ.value !in live then net else
      UpdateShape(net[succ.value], n);
      Notify(m, net, succ.value, n, None)
  }

  // ---- Every change brings some pointer closer ----

  function FingerWeight(t: Table, i: nat): int
    requires i <= |t.fingers|
    decreases |t.fingers| - i
  {
    if i == |t.fingers| then 0 else
      (if t.fingers[i].Some? then t.Off(t.fingers[i].value) else Pow2(t.m)) + FingerWeight(t, i + 1)
  }

  /** The clockwise distances along all fingers and from the predecessor; a missing one counts a full circle. */
  function Weight(t: Table): int {
    FingerWeight(t, 0) + if t.pred.Some? then Dist(t.m, t.pred.value, t.self) else Pow2(t.m)
  }

  ghost function Total(net: Net, s: set<Id>): int
    requires s <= net.Keys
    decreases |s|
  {
    if s == {} then 0 else
      var x := AnyOf(s);
      Weight(net[x]) + Total(net, s - {x})
  }

  lemma {:induction false} FingerWeightDrops(t: Table, u: Table, i: nat)
    requires t.m == u.m && t.self == u.self && i <= |t.fingers| == |u.fingers|
    requires forall k :: i <= k < |t.fingers| && t.fingers[k] != u.fingers[k] ==>
               u.fingers[k].Some? &&
               t.Off(u.fingers[k].value) < if t.fingers[k].Some? then t.Off(t.fingers[k].value) else Pow2(t.m)
    ensures FingerWeight(u, i) <= FingerWeight(t, i)
    ensures (exists k :: i <= k < |t.fingers| && t.fingers[k] != u.fingers[k]) ==>
            FingerWeight(u, i) < FingerWeight(t, i)
    decreases |t.fingers| - i
  {
    if i < |t.fingers| {
      FingerWeightDrops(t, u, i + 1);
    }
  }

  /** An update that changes a router strictly lowers its weight. */
  lemma UpdateDropsWeight(t: Table, x: Id)
    requires t.Consistent() && IsId(t.m, x)
    ensures t.Update(x) == t || Weight(t.Update(x)) < Weight(t)
  {
    var u := t.Update(x);
    if x != t.self {
      forall k | 0 <= k < t.m && t.fingers[k] != u.fingers[k]
        ensures u.fingers[k].Some?
        ensures t.Off(u.fingers[k].value) < if t.fingers[k].Some? then t.Off(t.fingers[k].value) else Pow2(t.m)
      {
        assert t.Nearest(k, t.Nodes());
        ImprovesIsNearer(t, k, x);
      }
      FingerWeightDrops(t, u, 0);
      ImprovesPredIsFarther(t, x);
      if t.fingers == u.fingers && t.pred == u.pred {
        assert u == t;
      }
    }
  }

  lemma {:induction false} TotalDrops(a: Net, b: Net, s: set<Id>)
    requires s <= a.Keys && s <= b.Keys
    requires forall n :: n in s ==> b[n] == a[n] || Weight(b[n]) < Weight(a[n])
    ensures Total(b, s) <= Total(a, s)
    ensures (exists n :: n in s && b[n] != a[n]) ==> Total(b, s) < Total(a, s)
    decreases |s|
  {
    if s != {} {
      TotalDrops(a, b, s - {AnyOf(s)});
    }
  }

  lemma {:induction false} TotalIsNat(m: nat, net: Net, s: set<Id>)
    requires s <= net.Keys && Shaped(m, net, s)
    ensures Total(net, s) >= 0
    decreases |s|
  {
    if s != {} {
      var x := AnyOf(s);
      assert x in net;
      FingerWeightIsNat(net[x], 0);
      TotalIsNat(m, net, s - {x});
    }
  }

  lemma {:induction false} FingerWeightIsNat(t: Table, i: nat)
    requires t.Shape() && i <= t.m
    ensures FingerWeight(t, i) >= 0
    decreases t.m - i
  {
    if i < t.m {
      FingerWeightIsNat(t, i + 1);
    }
  }

  /** Fixed membership without failures: all tables are consistent, name members only, and have a successor. */
  ghost predicate Stable(m: nat, net: Net, s: set<Id>) {
    && Shaped(m, net, s) && net.Keys == s && Ids(m, s)
    && forall n {:trigger Healthy(net[n], s)} :: n in s ==> Healthy(net[n], s)
  }

  ghost predicate Healthy(t: Table, s: set<Id>) {
    t.Consistent() && t.Nodes() <= s && (t.pred.Some? ==> t.pred.value in s) && t.fingers[0].Some?
  }

  lemma HealthyAfterUpdate(t: Table, s: set<Id>, x: Id)
    requires Healthy(t, s) && Ids(t.m, s) && x in s
    ensures Healthy(t.Update(x), s)
  {
    UpdateConsistent(t, x);
  }

  /** One update of one router in a stable network. */
  lemma UpdateStep(m: nat, net: Net, s: set<Id>, n: Id, x: Id)
    requires Stable(m, net, s) && n in s && x in s
    ensures var net' := net[n := net[n].Update(x)];
            Stable(m, net', s) && (net' == net || Total(net', s) < Total(net, s))
  {
    var net' := net[n := net[n].Update(x)];
    HealthyAfterUpdate(net[n], s, x);
    UpdateDropsWeight(net[n], x);
    TotalDrops(net, net', s);
    if net'[n] == net[n] {
      assert net' == net;
    }
  }

  lemma NotifyStep(m: nat, net: Net, s: set<Id>, n: Id)
    requires Stable(m, net, s) && n in s
    ensures var net' := NotifySuccessor(m, net, s, n);
            Stable(m, net', s) && (net' == net || Total(net', s) < Total(net, s))
  {
    assert Healthy(net[n], s);
    var y := net[n].fingers[0].value;
    assert y in net[n].Nodes();
    UpdateStep(m, net, s, y, n);
  }

  /** A stabilization that changes any pointer of any router strictly lowers the sum of all distances. */
  lemma StabilizeDescends(m: nat, net: Net, s: set<Id>, n: Id)
    requires Stable(m, net, s) && n in s
    ensures var net' := Stabilize(m, net, s, n);
            Stable(m, net', s) && (net' == net || Total(net', s) < Total(net, s))
  {
    assert Healthy(net[n], s);
    var y := net[n].fingers[0].value;
    assert y in net[n].Nodes();
    assert Healthy(net[y], s);
    var p := net[y].pred;
    if p.Some? && Between(n, p.value, y) {
      UpdateStep(m, net, s, n, p.value);
      NotifyStep(m, net[n := net[n].Update(p.value)], s, n);
    } else {
      NotifyStep(m, net, s, n);
    }
  }

  /** Let the nodes of `order` stabilize one after the other: where it leads, and how many steps had an effect. */
  function Rounds(m: nat, net: Net, s: set<Id>, order: seq<Id>): (r: (Net, nat))
    requires Shaped(m, net, s) && forall n :: n in order ==> n in net
    decreases |order|
  {
    if order == [] then (net, 0) else
      var net' := Stabilize(m, net, s, order[0]);
      var (end, k) := Rounds(m, net', s, order[1..]);
      (end, if net' == net then k else k + 1)
  }

  /** However the stabilizations are ordered, only boundedly many of them ever have an effect. */
  lemma {:induction false} StabilizationTerminates(m: nat, net: Net, s: set<Id>, order: seq<Id>)
    requires Stable(m, net, s) && forall n :: n in order ==> n in s
    ensures var (end, k) := Rounds(m, net, s, order);
            Stable(m, end, s) && k <= Total(net, s) - Total(end, s) <= Total(net, s)
    decreases |order|
  {
    if order == [] {
      TotalIsNat(m, net, s);
    } else {
      StabilizeDescends(m, net, s, order[0]);
      StabilizationTerminates(m, Stabilize(m, net, s, order[0]), s, order[1..]);
      TotalIsNat(m, Rounds(m, net, s, order).0, s);
    }
  }

  // ---- What is reached when nothing changes any more ----

  ghost predicate Quiescent(m: nat, net: Net, s: set<Id>)
    requires Shaped(m, net, s) && s <= net.Keys
  {
    forall n {:trigger Stabilize(m, net, s, n)} :: n in s ==> Stabilize(m, net, s, n) == net
  }

  lemma NotifiedUnchanged(m: nat, net: Net, s: set<Id>, n: Id)
    requires Stable(m, net, s) && n in s && NotifySuccessor(m, net, s, n) == net
    ensures var y := net[n].SuccessorOrSelf();
            y in s && y != n && net[y].pred.Some? && Dist(m, y, n) <= Dist(m, y, net[y].pred.value)
  {
    assert Healthy(net[n], s);
    var y := net[n].fingers[0].value;
    assert y in net[n].Nodes();
    assert net[y].Update(n) == net[y];
    ImprovesPredIsFarther(net[y], n);
  }

  /** The successor's predecessor is the node itself, or it lies no further than the start of the first finger. */
  lemma QuiescentSuccessor(m: nat, net: Net, s: set<Id>, n: Id)
    requires Stable(m, net, s) && n in s && Stabilize(m, net, s, n) == net
    ensures var y := net[n].SuccessorOrSelf(); y in s && y != n && net[y].pred.Some?
    ensures var p := net[net[n].SuccessorOrSelf()].pred.value;
            p in s && (p == n || 0 < Dist(m, n, p) <= Offset(m, n, 0))
  {
    var t := net[n];
    assert Healthy(t, s);
    var y := t.fingers[0].value;
    assert y in t.Nodes();
    assert Healthy(net[y], s);
    var p := net[y].pred;
    if p.Some? && Between(n, p.value, y) {
      // n takes note of p, which does not change its first finger
      assert t.Nearest(0, t.Nodes());
      ImprovesIsNearer(t, 0, p.value);
      assert t.Update(p.value) == t;
    } else {
      NotifiedUnchanged(m, net, s, n);
    }
  }
}
