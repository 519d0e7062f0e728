/** Who knows of whom after a call: every handler takes note of the nodes that its request names. */
module Acquaintance {
  import opened Options
  import opened Ring
  import opened FingerTable
  import opened Lookup
  import opened Neighbours
  import opened Stabilization
  import opened Leave
  import opened Fixing
  import opened Routing
  import J = Join

  /** The router has taken `x` into account: its predecessor is at least as far clockwise, and no finger that starts
      before `x` names a node past it. */
  ghost predicate Noted(t: Table, x: Id) {
    && t.pred.Some? && t.Off(x) <= t.Off(t.pred.value)
    && forall i :: 0 <= i < |t.fingers| && Offset(t.m, t.self, i) < t.Off(x) ==>
                     t.fingers[i].Some? && t.Off(t.fingers[i].value) <= t.Off(x)
  }

  /** What a table is exact for it has noted. */
  lemma ExactNotes(t: Table, k: set<Id>, f: set<Id>, x: Id)
    requires t.Shape() && t.Exact(k) && t.Farthest(f) && x in k && x in f && x != t.self
    ensures Noted(t, x)
  {
    forall i | 0 <= i < t.m && Offset(t.m, t.self, i) < t.Off(x)
      ensures t.fingers[i].Some? && t.Off(t.fingers[i].value) <= t.Off(x)
    {
      assert t.Nearest(i, k);
    }
  }

  lemma UpdateNotes(t: Table, x: Id)
    requires t.Consistent() && IsId(t.m, x) && x != t.self
    ensures Noted(t.Update(x), x)
  {
    var u := t.Update(x);
    ImprovesPredIsFarther(t, x);
    forall i | 0 <= i < t.m && Offset(t.m, t.self, i) < t.Off(x)
      ensures u.fingers[i].Some? && u.Off(u.fingers[i].value) <= u.Off(x)
    {
      assert t.Nearest(i, t.Nodes());
      ImprovesIsNearer(t, i, x);
    }
  }

  lemma UpdateKeepsNoted(t: Table, x: Id, y: Id)
    requires t.Consistent() && IsId(t.m, y) && Noted(t, x)
    ensures Noted(t.Update(y), x)
  {
    var u := t.Update(y);
    if y != t.self {
      ImprovesPredIsFarther(t, y);
      forall i | 0 <= i < t.m && Offset(t.m, t.self, i) < t.Off(x)
        ensures u.fingers[i].Some? && u.Off(u.fingers[i].value) <= u.Off(x)
      {
        assert t.Nearest(i, t.Nodes());
        ImprovesIsNearer(t, i, y);
      }
    }
  }

  lemma {:induction false} UpdateAllKeepsNoted(t: Table, x: Id, ys: seq<Id>)
    requires t.Consistent() && Noted(t, x) && forall y :: y in ys ==> IsId(t.m, y)
    ensures t.UpdateAll(ys).Consistent() && Noted(t.UpdateAll(ys), x)
    decreases |ys|
  {
    if ys != [] {
      var zs := ys[..|ys| - 1];
      UpdateAllKeepsNoted(t, x, zs);
      UpdateConsistent(t.UpdateAll(zs), ys[|ys| - 1]);
      UpdateKeepsNoted(t.UpdateAll(zs), x, ys[|ys| - 1]);
    }
  }

  lemma {:induction false} UpdateAllKeepsFirst(t: Table, s: set<Id>, ys: seq<Id>)
    requires t.Consistent() && Ids(t.m, s) && t.self in s && IsSucc(t.m, s, t.self, t.SuccessorOrSelf())
    requires forall y :: y in ys ==> y in s
    ensures t.UpdateAll(ys).Consistent() && t.UpdateAll(ys).fingers[0] == t.fingers[0]
    decreases |ys|
  {
    if ys != [] {
      UpdateAllKeepsFirst(t, s, ys[..|ys| - 1]);
      UpdateKeepsFirst(t.UpdateAll(ys[..|ys| - 1]), s, ys[|ys| - 1]);
    }
  }

  // ---- Lookups ----

  /** The first finger, if there is one, is alive. */
  ghost predicate Current(t: Table, live: set<Id>) {
    t.Consistent() && t.SuccessorOrSelf() in live
  }

  lemma UpdateStaysCurrent(t: Table, live: set<Id>, x: Id)
    requires Current(t, live) && x in live && IsId(t.m, x)
    ensures Current(t.Update(x), live) && (t.self in live ==> DropDead(t.Update(x), live) == t.Update(x))
  {
    UpdateConsistent(t, x);
  }

  lemma {:induction false} UpdateAllAppends(t: Table, xs: seq<Id>, ys: seq<Id>)
    ensures t.UpdateAll(xs + ys) == t.UpdateAll(xs).UpdateAll(ys)
    decreases |ys|
  {
    if ys == [] {
      assert xs + ys == xs;
    } else {
      UpdateAllAppends(t, xs, ys[..|ys| - 1]);
      assert (xs + ys)[..|xs + ys| - 1] == xs + ys[..|ys| - 1];
    }
  }

  /** A lookup does nothing to a router with a live successor but let it take note of live nodes. */
  lemma {:induction false} SuccessorUpdates(m: nat, net: Net, live: set<Id>, at: Id, src: Id, id: Id, budget: nat,
                                            n: Id) returns (xs: seq<Id>)
    requires Shaped(m, net, live) && Ids(m, live) && at in live && src in live && n in net && Current(net[n], live)
    ensures Successor(m, net, live, at, src, id, budget).0[n] == net[n].UpdateAll(xs)
    ensures forall x :: x in xs ==> x in live
    ensures n == at ==> xs != [] && xs[0] == src
    decreases budget, 1, 0
  {
    UpdateShape(net[at], src);
    var t := DropDead(net[at].Update(src), live);
    var net' := net[at := t];
    var first := if n == at then [src] else [];
    if n == at {
      UpdateStaysCurrent(net[at], live, src);
      assert net[n].UpdateAll([src]) == net[n].Update(src) by {
        assert [src][..0] == [];
      }
    }
    if id == at || Between(at, id, t.SuccessorOrSelf()) {
      xs := first;
    } else {
      var rest := ForwardUpdates(m, net', live, at, Preceding(t, id), id, budget, n);
      xs := first + rest;
      UpdateAllAppends(net[n], first, rest);
    }
  }

  lemma {:induction false} ForwardUpdates(m: nat, net: Net, live: set<Id>, at: Id, cands: seq<Id>, id: Id, budget: nat,
                                          n: Id) returns (xs: seq<Id>)
    requires Shaped(m, net, live) && Ids(m, live) && at in live && n in net && Current(net[n], live)
    ensures Forward(m, net, live, at, cands, id, budget).0[n] == net[n].UpdateAll(xs)
    ensures forall x :: x in xs ==> x in live
    decreases budget, 0, |cands|
  {
    xs := [];
    if cands != [] {
      if cands[0] !in live {
        xs := ForwardUpdates(m, net, live, at, cands[1..], id, budget, n);
      } else if budget > 0 {
        xs := SuccessorUpdates(m, net, live, cands[0], at, id, budget - 1, n);
        var (net', a) := Successor(m, net, live, cands[0], at, id, budget - 1);
        if a.Cancelled? {
          UpdatedIsCurrent(net[n], live, xs);
          var rest := ForwardUpdates(m, net', live, at, cands[1..], id, budget, n);
          UpdateAllAppends(net[n], xs, rest);
          xs := xs + rest;
        }
      }
    }
  }

  lemma {:induction false} UpdatedIsCurrent(t: Table, live: set<Id>, xs: seq<Id>)
    requires Current(t, live) && Ids(t.m, live) && forall x :: x in xs ==> x in live
    ensures Current(t.UpdateAll(xs), live)
    decreases |xs|
  {
    if xs != [] {
      UpdatedIsCurrent(t, live, xs[..|xs| - 1]);
      UpdateStaysCurrent(t.UpdateAll(xs[..|xs| - 1]), live, xs[|xs| - 1]);
    }
  }

  /** A node that a finger names is noted. */
  lemma NodesAreNoted(t: Table, x: Id)
    requires t.Consistent() && x in t.Nodes()
    ensures Noted(t, x)
  {
    forall i | 0 <= i < t.m && Offset(t.m, t.self, i) < t.Off(x)
      ensures t.fingers[i].Some? && t.Off(t.fingers[i].value) <= t.Off(x)
    {
      assert t.Nearest(i, t.Nodes());
    }
  }

  /** The ping loop drops no live node. */
  lemma {:induction false} DropDeadKeepsLive(t: Table, live: set<Id>, x: Id)
    requires t.Consistent() && t.self in live && x in live && x in t.Nodes()
    ensures Current(DropDead(t, live), live) && x in DropDead(t, live).Nodes()
    decreases |t.Nodes()|
  {
    var s := t.SuccessorOrSelf();
    if s !in live {
      assert s in t.Nodes();
      RemoveRebuilds(t, s);
      DropDeadKeepsLive(t.Remove(s), live, x);
    }
  }

  /** The router right after it was told of the sender and has dropped failed successors. */
  lemma SenderIsNotedFirst(t: Table, live: set<Id>, src: Id)
    requires t.Consistent() && Ids(t.m, live) && t.self in live && src in live && src != t.self
    requires Current(t, live) || src in t.Update(src).Nodes()
    ensures var r := DropDead(t.Update(src), live); Current(r, live) && Noted(r, src)
  {
    UpdateConsistent(t, src);
    if src in t.Update(src).Nodes() {
      DropDeadKeepsLive(t.Update(src), live, src);
      NodesAreNoted(DropDead(t.Update(src), live), src);
    } else {
      UpdateStaysCurrent(t, live, src);
      UpdateNotes(t, src);
    }
  }

  /** Whatever becomes of the request: the node asked has noted the sender, if its own successor is alive or the sender
      is taken by any of its fingers. */
  lemma SenderIsNoted(m: nat, net: Net, live: set<Id>, at: Id, src: Id, id: Id, budget: nat)
    requires Shaped(m, net, live) && Ids(m, live) && at in live && src in live && src != at && net[at].Consistent()
    requires Current(net[at], live) || src in net[at].Update(src).Nodes()
    ensures Noted(Successor(m, net, live, at, src, id, budget).0[at], src)
    ensures Current(Successor(m, net, live, at, src, id, budget).0[at], live)
  {
    SenderIsNotedFirst(net[at], live, src);
    var t := DropDead(net[at].Update(src), live);
    if id != at && !Between(at, id, t.SuccessorOrSelf()) {
      var xs := ForwardUpdates(m, net[at := t], live, at, Preceding(t, id), id, budget, at);
      UpdateAllKeepsNoted(t, src, xs);
      UpdatedIsCurrent(t, live, xs);
    }
  }

  /** A node that passes a request on is noted by the first live candidate in the same way. */
  lemma {:induction false} AskerIsNoted(m: nat, net: Net, live: set<Id>, at: Id, cands: seq<Id>, id: Id, budget: nat,
                                        k: nat)
    requires Shaped(m, net, live) && Ids(m, live) && at in live && budget > 0
    requires k < |cands| && cands[k] in live && cands[k] != at && net[cands[k]].Consistent()
    requires Current(net[cands[k]], live) || at in net[cands[k]].Update(at).Nodes()
    requires forall i :: 0 <= i < k ==> cands[i] !in live
    ensures Noted(Forward(m, net, live, at, cands, id, budget).0[cands[k]], at)
    decreases k
  {
    if k > 0 {
      AskerIsNoted(m, net, live, at, cands[1..], id, budget, k - 1);
    } else {
      var c := cands[0];
      SenderIsNoted(m, net, live, c, at, id, budget - 1);
      var (net', a) := Successor(m, net, live, c, at, id, budget - 1);
      if a.Cancelled? {
        var rest := ForwardUpdates(m, net', live, at, cands[1..], id, budget, c);
        UpdateAllKeepsNoted(net'[c], at, rest);
      }
    }
  }

  /** Whatever has failed: after a request the successor of the node asked is the next live node. */
  lemma RequestDropsFailed(m: nat, net: Net, live: set<Id>, at: Id, src: Id, id: Id, budget: nat)
    requires Good(m, net, live) && at in live && src in live
    ensures IsSucc(m, live, at, Successor(m, net, live, at, src, id, budget).0[at].SuccessorOrSelf())
  {
    UpdateKeepsNext(net[at], live, src);
    DropDeadFindsNext(net[at].Update(src), live);
    var t := DropDead(net[at].Update(src), live);
    if id != at && !Between(at, id, t.SuccessorOrSelf()) {
      var xs := ForwardUpdates(m, net[at := t], live, at, Preceding(t, id), id, budget, at);
      UpdateAllKeepsFirst(t, live, xs);
    }
  }

  // ---- Fixing fingers ----

  lemma RemoveForgets(t: Table, x: Id)
    requires t.Shape()
    ensures x !in t.Remove(x).Nodes() && t.Remove(x).pred != Some(x)
  {
    RemoveNodes(t, x);
  }

  /** Whatever has failed: fixing a finger whose start is no live node ends with the first live node past the start
      being noted, or, when that is the node itself, with the start being forgotten. */
  lemma FixFollowsAnswer(m: nat, net: Net, live: set<Id>, n: Id, i: nat) returns (y: Id)
    requires m >= 2 && Good(m, net, live) && n in live && i < m && Start(m, n, i) !in live
    ensures IsSucc(m, live, Start(m, n, i), y)
    ensures var t := FixFinger(m, net, live, n, i)[n];
            if y == n then Start(m, n, i) !in t.Nodes() && t.pred != Some(Start(m, n, i)) else Noted(t, y)
  {
    var start := Start(m, n, i);
    OffsetIsPower(m, n, i);
    SuccessorAnswers(m, net, live, n, n, start, Pow2(m));
    var (net', a) := Successor(m, net, live, n, n, start, Pow2(m));
    assert Answered(m, live, n, start, Pow2(m), a);
    y := a.node;
    RemoveForgets(net'[n], start);
    if y != n {
      UpdateNotes(net'[n], y);
    }
  }

  // ---- Stabilization ----

  lemma NotificationIsNoted(m: nat, net: Net, live: set<Id>, n: Id)
    requires Shaped(m, net, live) && n in live && forall k :: k in live ==> net[k].Consistent()
    ensures var net', x := NotifySuccessor(m, net, live, n), net[n].SuccessorOrSelf();
            && (x in live && x != n ==> Noted(net'[x], n))
            && forall k :: k in net && k != x ==> net'[k] == net[k]
  {
    var x := net[n].SuccessorOrSelf();
    if x in live && x != n {
      UpdateNotes(net[x], n);
    }
  }

  /** A stabilization that ends with a live successor has told that one of the node, a newly adopted one included, and
      the node has noted the predecessor that it adopted. No other router changes. */
  lemma StabilizeNotifies(m: nat, net: Net, live: set<Id>, n: Id)
    requires Shaped(m, net, live) && n in live && (forall k :: k in live ==> net[k].Consistent())
    requires net[n].SuccessorOrSelf() in live && net[n].SuccessorOrSelf() != n
    ensures var net', y := Stabilize(m, net, live, n), net[n].SuccessorOrSelf();
            var x := net'[n].SuccessorOrSelf();
            && x != n && (x in live ==> Noted(net'[x], n))
            && (net[y].pred.Some? && Between(n, net[y].pred.value, y) ==> Noted(net'[n], net[y].pred.value))
            && forall k :: k in net && k != n && k != x ==> net'[k] == net[k]
  {
    var p := net[net[n].SuccessorOrSelf()].pred;
    if p.Some? && Between(n, p.value, net[n].SuccessorOrSelf()) {
      UpdateConsistent(net[n], p.value);
      UpdateNotes(net[n], p.value);
      AdoptedIsSuccessor(net[n], p.value);
      NotificationIsNoted(m, net[n := net[n].Update(p.value)], live, n);
    } else {
      NotificationIsNoted(m, net, live, n);
    }
  }

  lemma AdoptedIsSuccessor(t: Table, p: Id)
    requires t.Consistent() && IsId(t.m, p) && t.fingers[0].Some?
    ensures t.Update(p).Shape() && t.Update(p).SuccessorOrSelf() in {p, t.SuccessorOrSelf()}
    ensures t.Update(p).SuccessorOrSelf() != t.self
  {
    UpdateConsistent(t, p);
  }

  // ---- Join ----

  /** The two nodes that a notification of a join names besides the router itself are noted. */
  lemma NotifyNotes(t: Table, j: Id, other: Id)
    requires t.Consistent() && IsId(t.m, j) && IsId(t.m, other) && j != t.self
    ensures var u := t.Update(j).Update(other).Update(j);
            u.Consistent() && Noted(u, j) && (other != t.self ==> Noted(u, other))
  {
    UpdateConsistent(t, j);
    UpdateConsistent(t.Update(j), other);
    UpdateConsistent(t.Update(j).Update(other), j);
    UpdateNotes(t.Update(j).Update(other), j);
    if other != t.self {
      UpdateNotes(t.Update(j), other);
      UpdateKeepsNoted(t.Update(j).Update(other), other, j);
    }
  }

  lemma NotifyKeepsNoted(t: Table, x: Id, j: Id, other: Id)
    requires t.Consistent() && IsId(t.m, j) && IsId(t.m, other) && Noted(t, x)
    ensures Noted(t.Update(j).Update(other).Update(j), x)
  {
    UpdateConsistent(t, j);
    UpdateConsistent(t.Update(j), other);
    UpdateKeepsNoted(t, x, j);
    UpdateKeepsNoted(t.Update(j), x, other);
    UpdateKeepsNoted(t.Update(j).Update(other), x, j);
  }

  /** A neighbour of the joining node that can be reached has noted it and the neighbour on the other side. The joining
      node ends up with an empty router if and only if one of the two cannot be reached. */
  lemma AnnounceIntroduces(m: nat, net: Net, live: set<Id>, j: Id, pred: Id, succ: Id)
    requires Shaped(m, net, live) && (forall k :: k in live ==> net[k].Consistent())
    requires j in net && j !in live && net[j] != Empty(m, j) && IsId(m, pred) && IsId(m, succ) && pred != j && succ != j
    ensures var net' := J.Announce(m, net, live, j, pred, succ);
            && (pred in live ==> pred in net' && Noted(net'[pred], j) && (pred != succ ==> Noted(net'[pred], succ)))
            && (succ in live ==> succ in net' && Noted(net'[succ], j) && (pred != succ ==> Noted(net'[succ], pred)))
            && j in net' && net'[j] == (if pred in live && succ in live then net[j] else Empty(m, j))
            && forall k :: k in net && k !in {j, pred, succ} ==> k in net' && net'[k] == net[k]
  {
    if pred in live {
      NotifyNotes(net[pred], j, succ);
    }
    var net2 := if pred in live then Notify(m, net, pred, j, Some((succ, j))) else net;
    if succ in live {
      NotifyNotes(net2[succ], j, pred);
      if pred == succ {
        NotifyKeepsNoted(net2[succ], j, j, pred);
      }
    }
  }

  /** A join finds two consecutive members of a correct ring, but when it comes to notify them, only `live` ones can be
      reached. It is undone at the joining node if and only if one of the two is not among them. */
  lemma JoinIsUndone(m: nat, net: Net, s: set<Id>, live: set<Id>, j: Id, gap: J.Gap)
    requires m >= 2 && CorrectRing(m, net, s) && live <= s && j !in s && IsId(m, j) && Spaced(m, s + {j})
    requires gap.Gap? && IsSucc(m, s, j, gap.succ) && IsPred(m, s, j, gap.pred)
    ensures var net' := J.Link(m, net, live, j, gap);
            j in net' && (net'[j] == Empty(m, j) <==> !(gap.succ in live && gap.pred in live))
  {
    var t := Empty(m, j).Update(gap.succ).Update(gap.pred);
    J.JoinerSettles(m, s, j, gap.succ, gap.pred);
    assert t != Empty(m, j);
  }

  // ---- Leave ----

  /** The leave message: what is named in it is noted, and the leaving node is forgotten. */
  ghost predicate Informed(u: Table, l: Id, entries: seq<Id>) {
    && u.Consistent() && l !in u.Nodes() && u.pred != Some(l)
    && forall x :: x in entries && x != u.self ==> Noted(u, x)
  }

  lemma HearInforms(t: Table, l: Id, entries: seq<Id>)
    requires t.Consistent() && forall x :: x in entries ==> IsId(t.m, x) && x != l
    ensures Informed(Hear(t, l, entries), l, entries)
  {
    var u, k, f := Hear(t, l, entries), t.Nodes() - {l} + Given(entries),
      t.Nodes() - {l} + Behind(t, l) + Given(entries);
    HearKnows(t, l, entries);
    ExactForOwnNodes(u, k);
    forall x | x in entries && x != u.self ensures Noted(u, x) {
      ExactNotes(u, k, f, x);
    }
  }

  /** Whether or not the other one can be reached: each live neighbour of a leaving node is informed, and no other
      router changes. */
  lemma LeaveInforms(m: nat, net: Net, live: set<Id>, l: Id, entries: seq<Id>, n: Id)
    requires Shaped(m, net, live) && l in net && Entries(net[l], entries)
    requires n in live && n != l && net[n].Consistent()
    ensures var net' := Leave.Leave(net, live, l, entries);
            && n in net'
            && if net[l].Successor() == Some(n) || net[l].pred == Some(n) then Informed(net'[n], l, entries)
               else net'[n] == net[n]
  {
    forall x | x in entries ensures IsId(m, x) && x != l {
      assert x in net[l].Nodes();
    }
    HearInforms(net[n], l, entries);
    HearInforms(Hear(net[n], l, entries), l, entries);
  }
}
