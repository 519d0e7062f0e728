/** The handlers and client calls of the overlay as they run: routers changed in place by remote calls. Each method is
    tied to the function on tables that the theorems are about. */
module Overlay {
  import opened Options
  import opened Ring
  import opened FingerTable
  import opened Router
  import L = Lookup
  import S = Stabilization
  import J = Join
  import V = Leave
  import R = Checking
  import F = Fixing

  class Overlay {
    const m: nat
    const live: set<Id>
    const routers: map<Id, Router>

    /** All routers and their arrays. */
    ghost function Repr(): set<object> {
      (set n | n in routers :: routers[n]) + (set n | n in routers :: routers[n].successors)
    }

    ghost predicate Apart() {
      forall a, b :: a in routers && b in routers && a != b ==>
        routers[a] != routers[b] && routers[a].successors != routers[b].successors
    }

    ghost predicate Sound(n: Id)
      requires n in routers
      reads routers[n], routers[n].successors
    {
      routers[n].m == m && routers[n].self == n && routers[n].Valid()
    }

    ghost predicate Valid()
      reads Repr()
    {
      live <= routers.Keys && Apart() && forall n {:trigger Sound(n)} :: n in routers ==> Sound(n)
    }

    /** What all routers know, as a value. */
    ghost function Net(): (net: L.Net)
      requires Valid()
      reads Repr()
      ensures L.Shaped(m, net, live) && net.Keys == routers.Keys
      ensures forall n :: n in net ==> net[n] == routers[n].State()
    {
      assert forall n :: n in routers ==> Sound(n);
      map n | n in routers :: routers[n].State()
    }

    constructor (m: nat, live: set<Id>, routers: map<Id, Router>)
      requires live <= routers.Keys
      requires forall n :: n in routers ==> routers[n].m == m && routers[n].self == n && routers[n].Valid()
      requires forall a, b :: a in routers && b in routers && a != b ==> routers[a].successors != routers[b].successors
      ensures Valid() && this.m == m && this.live == live && this.routers == routers
    {
      this.m, this.live, this.routers := m, live, routers;
    }

    function SuccessorOf(n: Id): (s: Option<Id>)
      requires Valid() && n in routers
      reads Repr()
      ensures s == Net()[n].Successor()
    {
      assert Sound(n);
      routers[n].successors[0].node
    }

    function PredecessorOf(n: Id): (p: Option<Id>)
      requires Valid() && n in routers
      reads Repr()
      ensures p == Net()[n].pred
    {
      assert Sound(n);
      routers[n].predecessor
    }

    method CandidatesOf(n: Id, id: Id) returns (cands: seq<Id>)
      requires Valid() && n in routers && IsId(m, id)
      ensures Valid() && Net() == old(Net()) && cands == Preceding(Net()[n], id)
    {
      assert Sound(n);
      cands := routers[n].ClosestPrecedingNodes(id);
    }

    /** A change of one router and its array leaves the others as they are. */
    twostate lemma Others(at: Id)
      requires old(Valid()) && at in routers && Sound(at)
      requires forall n :: n in routers && n != at ==> unchanged(routers[n]) && unchanged(routers[n].successors)
      ensures Valid() && Net() == old(Net())[at := routers[at].State()]
    {
      forall n | n in routers ensures Sound(n) {
        assert old(Sound(n));
      }
      forall n | n in routers && n != at ensures routers[n].State() == old(routers[n].State()) {}
    }

    /** `update` at one router; no other one is touched. */
    method Tell(at: Id, x: Id)
      requires Valid() && at in routers && IsId(m, x)
      modifies Repr()
      ensures Valid() && Net() == old(Net())[at := old(Net())[at].Update(x)]
    {
      assert Sound(at);
      var _, _, _ := routers[at].Update(x);
      Others(at);
    }

    /** `remove` at one router. */
    method Forget(at: Id, u: Id)
      requires Valid() && at in routers
      modifies Repr()
      ensures Valid() && Net() == old(Net())[at := old(Net())[at].Remove(u)]
    {
      assert Sound(at);
      var _, _, _ := routers[at].Remove(u);
      Others(at);
    }

    /** `reset` of one router. */
    method Blank(at: Id)
      requires Valid() && at in routers
      modifies Repr()
      ensures Valid() && Net() == old(Net())[at := Empty(m, at)]
    {
      assert Sound(at);
      routers[at].Reset();
      Others(at);
    }

    // ---- Lookup ----

    /** The ping loop: the successor is removed until the first one that answers. */
    method SkipFailed(at: Id) returns (succ: Id)
      requires Valid() && at in live
      modifies Repr()
      ensures Valid() && Net() == old(Net())[at := L.DropDead(old(Net())[at], live)] &&
              succ == Net()[at].SuccessorOrSelf()
    {
      ghost var net := Net();
      ghost var t := net[at];
      succ := SuccessorOf(at).Or(at);
      while succ !in live
        invariant Valid() && Net() == net[at := t] && t.Shape() && t.self == at && succ == t.SuccessorOrSelf()
        invariant L.DropDead(t, live) == L.DropDead(net[at], live)
        decreases |t.Nodes()|
      {
        DropStep(t, live);
        Forget(at, succ);
        Overwrite(net, at, t, t.Remove(succ));
        t := t.Remove(succ);
        succ := SuccessorOf(at).Or(at);
      }
    }

    /** `Service::successor`: take note of the sender, drop dead successors, then answer or pass the request on. */
    method Successor(at: Id, src: Id, id: Id, budget: nat) returns (a: L.Answer)
      requires Valid() && at in live && IsId(m, src) && IsId(m, id)
      modifies Repr()
      ensures Valid() && (Net(), a) == L.Successor(m, old(Net()), live, at, src, id, budget)
      decreases budget, 1
    {
      ghost var net := Net();
      UpdateShape(net[at], src);
      Tell(at, src);
      var succ := SkipFailed(at);
      ghost var net' := net[at := L.DropDead(net[at].Update(src), live)];
      Overwrite(net, at, net[at].Update(src), L.DropDead(net[at].Update(src), live));
      if id == at || Between(at, id, succ) {
        a := L.Found(succ);
      } else {
        a := Forward(at, id, budget);
        assert (Net(), a) == L.Forward(m, net', live, at, Preceding(net'[at], id), id, budget);
      }
    }

    /** `Client::successor`: ask the preceding nodes in turn, until one of them answers. */
    method Forward(at: Id, id: Id, budget: nat) returns (a: L.Answer)
      requires Valid() && at in live && IsId(m, id)
      modifies Repr()
      ensures Valid() && (Net(), a) == L.Forward(m, old(Net()), live, at, Preceding(old(Net())[at], id), id, budget)
      decreases budget, 0
    {
      var cands := CandidatesOf(at, id);
      ghost var net := Net();
      ghost var goal := L.Forward(m, net, live, at, cands, id, budget);
      var i := 0;
      while i < |cands|
        invariant 0 <= i <= |cands| && Valid() && Net() == net && L.Shaped(m, net, live)
        invariant L.Forward(m, net, live, at, cands[i..], id, budget) == goal
      {
        NextCandidate(m, net, live, at, cands, i, id, budget);
        if cands[i] in live {
          if budget == 0 {
            return L.Unfinished;
          }
          a := Successor(cands[i], at, id, budget - 1);
          net := Net();
          if !a.Cancelled? {
            return;
          }
        }
        i := i + 1;
      }
      a := L.Cancelled;
    }

    /** `Service::fix_fingers` of node `n` for one index. */
    method FixFinger(n: Id, i: nat)
      requires Valid() && m >= 2 && n in live && IsId(m, n) && i < m
      modifies Repr()
      ensures Valid() && Net() == F.FixFinger(m, old(Net()), live, n, i)
    {
      var start := Start(m, n, i);
      OffsetIsPower(m, n, i);
      L.SuccessorNamesId(m, Net(), live, n, n, start, Pow2(m));
      var a := Successor(n, n, start, Pow2(m));
      if a.Found? {
        if a.node == n {
          Forget(n, start);
        } else {
          Tell(n, a.node);
        }
      }
    }

    // ---- Stabilization ----

    /** `Service::notify` at `at`; `ok` is false if the call is refused. `signalled` tells whether a change of the
        predecessor is signalled; it may be anything when a missing successor is read. */
    method Notify(at: Id, src: Id, update: Option<(Id, Id)>) returns (ok: bool, signalled: bool)
      requires Valid() && at in live && IsId(m, src)
      requires update.Some? ==> IsId(m, update.value.0) && IsId(m, update.value.1)
      modifies Repr()
      ensures Valid() && Net() == S.Notify(m, old(Net()), at, src, update) && (ok <==> src != at)
      ensures var t := old(Net())[at];
              ok && !S.ReadsMissing(t, src) ==> (signalled <==> S.SignalsPredecessor(t, src))
      ensures !ok ==> !signalled
    {
      if src == at {
        return false, false;
      }
      var succ, pred := SuccessorOf(at), PredecessorOf(at);
      if pred.None? {
        signalled := true;
      } else if pred.value != src {
        signalled := *;
        if succ.Some? {
          signalled := Between(src, at, succ.value);
        }
      } else {
        signalled := false;
      }
      ghost var net := Net();
      ghost var t := net[at].Update(src);
      Tell(at, src);
      if update.Some? {
        ghost var t1 := t.Update(update.value.0);
        Tell(at, update.value.0);
        Overwrite(net, at, t, t1);
        Tell(at, update.value.1);
        Overwrite(net, at, t1, t1.Update(update.value.1));
      }
      ok := true;
    }

    /** `Client::notify` without arguments: tell the successor. */
    method NotifySuccessor(n: Id)
      requires Valid() && n in routers
      modifies Repr()
      ensures Valid() && Net() == S.NotifySuccessor(m, old(Net()), live, n)
    {
      var succ := SuccessorOf(n);
      if succ.None? || succ.value == n || succ.value !in live {
        return;
      }
      var _, _ := Notify(succ.value, n, None);
    }

    /** `Client::stabilize`. */
    method Stabilize(n: Id)
      requires Valid() && n in routers
      modifies Repr()
      ensures Valid() && Net() == S.Stabilize(m, old(Net()), live, n)
    {
      var succ := SuccessorOf(n);
      if succ.None? || succ.value == n {
        return;
      }
      if succ.value !in live {
        Forget(n, succ.value);
        return;
      }
      var pred := PredecessorOf(succ.value);
      if pred.Some? && Between(n, pred.value, succ.value) {
        Tell(n, pred.value);
      }
      NotifySuccessor(n);
    }

    /** `Client::check`. */
    method Check(n: Id)
      requires Valid() && n in routers
      modifies Repr()
      ensures Valid() && Net() == R.Check(m, old(Net()), live, n)
    {
      var pred, succ := PredecessorOf(n), SuccessorOf(n);
      if pred.None? || succ.None? {
        return;
      }
      if pred.value !in live {
        Forget(n, pred.value);
      }
    }

    // ---- Join and leave ----

    /** `Service::join` and the forwarding form of `Client::join`. */
    method JoinRequest(at: Id, j: Id, budget: nat) returns (gap: J.Gap)
      requires Valid() && at in live && IsId(m, j)
      ensures Valid() && Net() == old(Net()) && gap == J.Request(m, Net(), live, at, j, budget)
      decreases budget
    {
      ghost var net := Net();
      var pred, succ := PredecessorOf(at), SuccessorOf(at).Or(at);
      if pred.None? && succ == at {
        // the first node that joins
      } else if pred.Some? && !Between(at, j, succ) && !Between(pred.value, j, at) {
        var cands := CandidatesOf(at, j);
        var i := 0;
        while i < |cands|
          invariant 0 <= i <= |cands| && Valid() && Net() == net
          invariant J.Forward(m, net, live, cands[i..], j, budget) == J.Forward(m, net, live, cands, j, budget)
        {
          assert cands[i..][0] == cands[i] && cands[i..][1..] == cands[i + 1..];
          if cands[i] in live {
            if budget == 0 {
              return J.Gap.Unfinished;
            }
            gap := JoinRequest(cands[i], j, budget - 1);
            if !gap.Cancelled? {
              return;
            }
          }
          i := i + 1;
        }
        return J.Gap.Cancelled;
      }
      if Between(at, j, succ) {
        gap := J.Gap(succ, at);
      } else if pred.Some? {
        gap := J.Gap(at, pred.value);
      } else {
        gap := J.Nobody;
      }
    }

    lemma AllConsistent()
      requires Valid()
      ensures forall n :: n in live ==> Net()[n].Consistent()
    {
      forall n | n in live ensures Net()[n].Consistent() {
        assert Sound(n);
      }
    }

    /** `ChordFacade::join` of node `j` through node `at`, after a reset of its router. */
    method Join(at: Id, j: Id, budget: nat)
      requires Valid() && at in live && j in routers && j !in live && m >= 2 && IsId(m, j)
      requires Net()[j] == Empty(m, j)
      modifies Repr()
      ensures Valid()
      ensures var gap := J.Request(m, old(Net()), live, at, j, budget);
              !gap.Nobody? && Net() == if gap.Gap? then J.Link(m, old(Net()), live, j, gap) else old(Net())
    {
      AllConsistent();
      J.RequestIsAnswered(m, Net(), live, at, j, budget);
      var gap := JoinRequest(at, j, budget);
      if gap.Gap? {
        J.RequestNamesIds(m, Net(), live, at, j, budget);
        Link(j, gap);
      }
    }

    /** What the joining node does with its two neighbours. */
    method Link(j: Id, gap: J.Gap)
      requires Valid() && j in routers && j !in live && m >= 2 && IsId(m, j) && Net()[j] == Empty(m, j)
      requires gap.Gap? && IsId(m, gap.succ) && IsId(m, gap.pred)
      modifies Repr()
      ensures Valid() && Net() == J.Link(m, old(Net()), live, j, gap)
    {
      ghost var net := Net();
      Tell(j, gap.succ);
      Tell(j, gap.pred);
      ghost var net1 := net[j := Empty(m, j).Update(gap.succ).Update(gap.pred)];
      assert Net() == net1;
      var pred, succ := PredecessorOf(j), SuccessorOf(j);
      if pred.None? || succ.None? {
        return;
      }
      Announce(j, pred.value, succ.value);
    }

    /** The two notifications; if one of them fails the joining node resets its router. */
    method Announce(j: Id, pred: Id, succ: Id)
      requires Valid() && j in routers && IsId(m, j) && IsId(m, pred) && IsId(m, succ)
      modifies Repr()
      ensures Valid() && Net() == J.Announce(m, old(Net()), live, j, pred, succ)
    {
      ghost var net := Net();
      var predOk, succOk, predSignals, succSignals := false, false, false, false;
      if pred in live {
        predOk, predSignals := Notify(pred, j, Some((succ, j)));
      }
      ghost var net2 := if pred in live then S.Notify(m, net, pred, j, Some((succ, j))) else net;
      assert Net() == net2;
      if succ in live {
        succOk, succSignals := Notify(succ, j, Some((pred, j)));
      }
      if !predOk || !succOk {
        Blank(j);
      }
    }

    /** `Client::leave`: inform the successor, then the predecessor. */
    method Leave(l: Id, entries: seq<Id>)
      requires Valid() && l in routers && forall x :: x in entries <==> x in routers[l].State().Nodes()
      modifies Repr()
      ensures Valid() && Net() == V.Leave(old(Net()), live, l, entries)
    {
      var succ, pred := SuccessorOf(l), PredecessorOf(l);
      Inform(succ, l, entries);
      Inform(pred, l, entries);
    }

    /** `Service::leave` at a neighbour, if there is one that can be reached. */
    method Inform(to: Option<Id>, l: Id, entries: seq<Id>)
      requires Valid() && forall x :: x in entries ==> IsId(m, x)
      modifies Repr()
      ensures Valid() && Net() == V.Inform(old(Net()), live, to, l, entries)
    {
      if to.None? || to.value == l || to.value !in live {
        return;
      }
      var at := to.value;
      ghost var net := Net();
      Forget(at, l);
      ghost var t := net[at].Remove(l);
      for i := 0 to |entries|
        invariant Valid() && Net() == net[at := t] && t == net[at].Remove(l).UpdateAll(entries[..i])
      {
        assert entries[..i + 1][..i] == entries[..i];
        Tell(at, entries[i]);
        Overwrite(net, at, t, t.Update(entries[i]));
        t := t.Update(entries[i]);
      }
      assert entries[..|entries|] == entries;
    }
  }

  /** What becomes of a lookup at candidate `i`. */
  lemma NextCandidate(m: nat, net: L.Net, live: set<Id>, at: Id, cands: seq<Id>, i: nat, id: Id, budget: nat)
    requires L.Shaped(m, net, live) && at in live && i < |cands|
    ensures L.Forward(m, net, live, at, cands[i..], id, budget) ==
            if cands[i] !in live then L.Forward(m, net, live, at, cands[i + 1..], id, budget)
            else if budget == 0 then (net, L.Unfinished)
            else
              var (net', a) := L.Successor(m, net, live, cands[i], at, id, budget - 1);
              if a.Cancelled? then L.Forward(m, net', live, at, cands[i + 1..], id, budget) else (net', a)
  {
    assert cands[i..][0] == cands[i] && cands[i..][1..] == cands[i + 1..];
  }

  lemma Overwrite(net: L.Net, at: Id, a: Table, b: Table)
    ensures net[at := a][at := b] == net[at := b] && net[at := a][at] == a
  {}

  lemma DropStep(t: Table, live: set<Id>)
    requires t.Shape() && t.self in live && t.SuccessorOrSelf() !in live
    ensures var r := t.Remove(t.SuccessorOrSelf());
            r.Shape() && r.self == t.self && |r.Nodes()| < |t.Nodes()| && L.DropDead(r, live) == L.DropDead(t, live)
  {
    RemoveNodes(t, t.SuccessorOrSelf());
    assert t.SuccessorOrSelf() in t.Nodes();
  }
}
