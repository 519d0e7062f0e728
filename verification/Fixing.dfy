/** Fixing fingers: a node looks up the start of one of its fingers and takes note of the answer. */
module Fixing {
  import opened Options
  import opened Ring
  import opened FingerTable
  import opened Lookup
  import opened Routing
  import opened Neighbours

  /** `fix_fingers` of node `n` for one index. */
  function FixFinger(m: nat, net: Net, live: set<Id>, n: Id, i: nat): (r: Net)
    requires m >= 2 && Shaped(m, net, live) && n in live && IsId(m, n) && i < m
    ensures r.Keys == net.Keys
  {
    var start := Start(m, n, i);
    var (net', a) := Successor(m, net, live, n, n, start, Pow2(m));
    match a
    case Found(x) => net'[n := if x == n then net'[n].Remove(start) else net'[n].Update(x)]
    case _ => net'
  }

  // ---- No lookup makes a router worse ----

  /** No finger that is right gets wrong, and no finger gets stale. */
  ghost predicate Better(t: Table, u: Table, s: set<Id>) {
    && u.m == t.m && u.self == t.self && t.Shape() && u.Shape() && (t.Nodes() <= s ==> u.Nodes() <= s)
    && forall i {:trigger u.Nearest(i, s)} :: 0 <= i < t.m && t.Nearest(i, s) ==> u.Nearest(i, s)
  }

  ghost predicate Improved(m: nat, net: Net, net': Net, s: set<Id>) {
    && CorrectRing(m, net', s) && net'.Keys == net.Keys && s <= net.Keys
    && forall n {:trigger Better(net[n], net'[n], s)} :: n in s ==> Better(net[n], net'[n], s)
  }

  lemma ImprovedTwice(m: nat, a: Net, b: Net, c: Net, s: set<Id>)
    requires Improved(m, a, b, s) && Improved(m, b, c, s)
    ensures Improved(m, a, c, s)
  {
    forall n | n in s ensures Better(a[n], c[n], s) {
      assert Better(a[n], b[n], s) && Better(b[n], c[n], s);
    }
  }

  lemma ImprovedNot(m: nat, net: Net, s: set<Id>)
    requires CorrectRing(m, net, s)
    ensures Improved(m, net, net, s)
  {
    forall n | n in s ensures Better(net[n], net[n], s) {
      assert Settled(net[n], s);
    }
  }

  lemma UpdateIsBetter(t: Table, s: set<Id>, x: Id)
    requires Settled(t, s) && Ids(t.m, s) && t.self in s && x in s
    ensures Settled(t.Update(x), s) && Better(t, t.Update(x), s)
  {
    var u := t.Update(x);
    SettledAfterUpdate(t, s, x);
    UpdateConsistent(t, x);
    forall i | 0 <= i < t.m && t.Nearest(i, s) ensures u.Nearest(i, s) {
      OffsetIsPower(t.m, t.self, i);
      ImprovesIsNearer(t, i, x);
    }
  }

  lemma RemoveIsBetter(t: Table, s: set<Id>, x: Id)
    requires Settled(t, s) && Ids(t.m, s) && t.self in s && x !in s
    ensures Settled(t.Remove(x), s) && Better(t, t.Remove(x), s)
  {
    var u := t.Remove(x);
    RemoveRebuilds(t, x);
    assert t.SuccessorOrSelf() in s && t.pred != Some(x);
    forall i | 0 <= i < t.m && t.Nearest(i, s) ensures u.Nearest(i, s) {
      assert t.fingers[i] != Some(x);
    }
  }

  /** One router of a correct ring gets better. */
  lemma ImproveOne(m: nat, net: Net, s: set<Id>, n: Id, u: Table)
    requires CorrectRing(m, net, s) && n in s && Settled(u, s) && Better(net[n], u, s)
    ensures Improved(m, net, net[n := u], s)
  {
    var net' := net[n := u];
    forall k {:trigger Settled(net'[k], s)} | k in s ensures Settled(net'[k], s) {
      assert Settled(net[k], s);
    }
    ImprovedNot(m, net, s);
    forall k | k in s ensures Better(net[k], net'[k], s) {
      assert Better(net[k], net[k], s);
    }
  }

  lemma UpdateImproves(m: nat, net: Net, s: set<Id>, n: Id, x: Id)
    requires CorrectRing(m, net, s) && n in s && x in s
    ensures Improved(m, net, net[n := net[n].Update(x)], s)
  {
    assert Settled(net[n], s);
    UpdateIsBetter(net[n], s, x);
    ImproveOne(m, net, s, n, net[n].Update(x));
  }

  /** A lookup in a correct ring improves it, if anything. */
  lemma {:induction false} SuccessorImproves(m: nat, net: Net, s: set<Id>, at: Id, src: Id, id: Id, budget: nat)
    requires CorrectRing(m, net, s) && at in s && src in s && IsId(m, id)
    ensures Improved(m, net, Successor(m, net, s, at, src, id, budget).0, s)
    decreases budget, 1, 0
  {
    var net' := net[at := net[at].Update(src)];
    UpdateImproves(m, net, s, at, src);
    assert Settled(net'[at], s);
    assert DropDead(net'[at], s) == net'[at];
    ForwardImproves(m, net', s, at, Preceding(net'[at], id), id, budget);
    ImprovedTwice(m, net, net', Forward(m, net', s, at, Preceding(net'[at], id), id, budget).0, s);
  }

  lemma {:induction false} ForwardImproves(m: nat, net: Net, s: set<Id>, at: Id, cands: seq<Id>, id: Id, budget: nat)
    requires CorrectRing(m, net, s) && at in s && IsId(m, id)
    ensures Improved(m, net, Forward(m, net, s, at, cands, id, budget).0, s)
    decreases budget, 0, |cands|
  {
    ImprovedNot(m, net, s);
    if cands != [] {
      if cands[0] !in s {
        ForwardImproves(m, net, s, at, cands[1..], id, budget);
      } else if budget > 0 {
        var net' := Successor(m, net, s, cands[0], at, id, budget - 1).0;
        SuccessorImproves(m, net, s, cands[0], at, id, budget - 1);
        ForwardImproves(m, net', s, at, cands[1..], id, budget);
        ImprovedTwice(m, net, net', Forward(m, net', s, at, cands[1..], id, budget).0, s);
      }
    }
  }

  // ---- One finger ----

  /** The first member past the start of a finger makes that finger right, in a router without stale ones. */
  lemma FinderIsRight(t: Table, s: set<Id>, i: nat, y: Id)
    requires t.Consistent() && Ids(t.m, s) && t.self in s && t.Nodes() <= s && i < t.m
    requires Start(t.m, t.self, i) !in s && IsSucc(t.m, s, Start(t.m, t.self, i), y) && y != t.self
    ensures t.Update(y).Nearest(i, s)
  {
    OffsetIsPower(t.m, t.self, i);
    assert t.Nearest(i, t.Nodes());
    assert t.fingers[i].Some? ==> t.fingers[i].value in s;
    ImprovesIsNearer(t, i, y);
  }

  /** If that is the node itself, no member is past the start, and the finger is right already. */
  lemma EmptyFingerIsRight(t: Table, s: set<Id>, i: nat)
    requires t.Consistent() && Ids(t.m, s) && t.self in s && t.Nodes() <= s && i < t.m
    requires Start(t.m, t.self, i) !in s && IsSucc(t.m, s, Start(t.m, t.self, i), t.self)
    ensures t.Nearest(i, s)
  {
    OffsetIsPower(t.m, t.self, i);
    assert t.Nearest(i, t.Nodes());
    assert t.fingers[i].Some? ==> t.fingers[i].value in s;
  }

  /** The lookup of a finger start that is no member is answered with the first member past it. */
  lemma StartIsFound(m: nat, net: Net, s: set<Id>, n: Id, i: nat) returns (y: Id)
    requires m >= 2 && CorrectRing(m, net, s) && n in s && i < m && Start(m, n, i) !in s
    ensures IsSucc(m, s, Start(m, n, i), y) && Successor(m, net, s, n, n, Start(m, n, i), Pow2(m)).1 == Found(y)
  {
    var start := Start(m, n, i);
    OffsetIsPower(m, n, i);
    RingIsGood(m, net, s);
    SuccessorAnswers(m, net, s, n, n, start, Pow2(m));
    var a := Successor(m, net, s, n, n, start, Pow2(m)).1;
    assert Answered(m, s, n, start, Pow2(m), a);
    y := a.node;
  }

  /** The lookup of a finger start that is another member is not answered. */
  lemma StartIsNotFound(m: nat, net: Net, s: set<Id>, n: Id, i: nat)
    requires m >= 2 && CorrectRing(m, net, s) && n in s && i < m && Start(m, n, i) in s
    ensures !Successor(m, net, s, n, n, Start(m, n, i), Pow2(m)).1.Found?
  {
    var start := Start(m, n, i);
    OffsetIsPower(m, n, i);
    RingIsGood(m, net, s);
    SuccessorAnswers(m, net, s, n, n, start, Pow2(m));
    assert Answered(m, s, n, start, Pow2(m), Successor(m, net, s, n, n, start, Pow2(m)).1);
  }

  /** Fixing a finger improves the ring, and makes the finger right if its start is no member and the router has no
      stale finger. */
  lemma FixImproves(m: nat, net: Net, s: set<Id>, n: Id, i: nat)
    requires m >= 2 && CorrectRing(m, net, s) && n in s && i < m
    ensures Improved(m, net, FixFinger(m, net, s, n, i), s)
    ensures Start(m, n, i) !in s && net[n].Nodes() <= s ==> FixFinger(m, net, s, n, i)[n].Nearest(i, s)
  {
    var start := Start(m, n, i);
    OffsetIsPower(m, n, i);
    var net1 := Successor(m, net, s, n, n, start, Pow2(m)).0;
    SuccessorImproves(m, net, s, n, n, start, Pow2(m));
    if start in s {
      StartIsNotFound(m, net, s, n, i);
    } else {
      var y := StartIsFound(m, net, s, n, i);
      assert Settled(net1[n], s) && Better(net[n], net1[n], s);
      var u := if y == n then net1[n].Remove(start) else net1[n].Update(y);
      if y == n {
        RemoveIsBetter(net1[n], s, start);
      } else {
        UpdateIsBetter(net1[n], s, y);
      }
      ImproveOne(m, net1, s, n, u);
      ImprovedTwice(m, net, net1, net1[n := u], s);
      if net[n].Nodes() <= s {
        if y == n {
          EmptyFingerIsRight(net1[n], s, i);
        } else {
          FinderIsRight(net1[n], s, i, y);
        }
      }
    }
  }

  // ---- All fingers ----

  /** The fingers fixed one after the other. */
  function FixAll(m: nat, net: Net, s: set<Id>, order: seq<(Id, nat)>): (r: Net)
    requires m >= 2 && CorrectRing(m, net, s) && forall f :: f in order ==> f.0 in s && f.1 < m
    ensures Improved(m, net, r, s)
    ensures forall f :: f in order && Start(m, f.0, f.1) !in s && net[f.0].Nodes() <= s ==> r[f.0].Nearest(f.1, s)
    decreases |order|
  {
    if order == [] then
      ImprovedNot(m, net, s);
      net
    else
      var k := |order| - 1;
      var net' := FixAll(m, net, s, order[..k]);
      FixStep(m, net, net', s, order);
      FixFinger(m, net', s, order[k].0, order[k].1)
  }

  lemma FixStep(m: nat, net: Net, net': Net, s: set<Id>, order: seq<(Id, nat)>)
    requires m >= 2 && CorrectRing(m, net, s) && Improved(m, net, net', s) && order != []
    requires forall f :: f in order ==> f.0 in s && f.1 < m
    requires forall f :: f in order[..|order| - 1] && Start(m, f.0, f.1) !in s && net[f.0].Nodes() <= s ==>
             net'[f.0].Nearest(f.1, s)
    ensures var last := order[|order| - 1];
            var r := FixFinger(m, net', s, last.0, last.1);
            && Improved(m, net, r, s)
            && forall f :: f in order && Start(m, f.0, f.1) !in s && net[f.0].Nodes() <= s ==> r[f.0].Nearest(f.1, s)
  {
    var last := order[|order| - 1];
    var r := FixFinger(m, net', s, last.0, last.1);
    assert last in order;
    FixImproves(m, net', s, last.0, last.1);
    ImprovedTwice(m, net, net', r, s);
    forall f | f in order && Start(m, f.0, f.1) !in s && net[f.0].Nodes() <= s ensures r[f.0].Nearest(f.1, s) {
      assert Better(net[f.0], net'[f.0], s) && Better(net'[f.0], r[f.0], s);
      assert f == last || f in order[..|order| - 1];
    }
  }

  /** No member is the start of a finger of another one. */
  ghost predicate StartsFree(m: nat, s: set<Id>) {
    forall n, i :: n in s && 0 <= i < m ==> Start(m, n, i) !in s
  }

  /** In a correct ring without stale fingers, in which no member is a finger start, fixing every finger once, in any
      order, builds every table from all members. */
  lemma FixesMakeFull(m: nat, net: Net, s: set<Id>, order: seq<(Id, nat)>)
    requires m >= 2 && CorrectRing(m, net, s) && StartsFree(m, s) && forall n :: n in s ==> net[n].Nodes() <= s
    requires forall f :: f in order ==> f.0 in s && f.1 < m
    requires forall n, i: nat :: n in s && i < m ==> (n, i) in order
    ensures Full(m, FixAll(m, net, s, order), s)
  {
    var r := FixAll(m, net, s, order);
    forall n | n in s ensures r[n].Consistent() && r[n].Exact(s) {
      assert Settled(r[n], s);
      forall i: nat | i < m ensures r[n].Nearest(i, s) {
        assert (n, i) in order && Start(m, n, i) !in s;
      }
    }
  }

  /** Every lookup then makes fewer forwards than the ring has bits. */
  lemma FixedIsLogarithmic(m: nat, net: Net, s: set<Id>, order: seq<(Id, nat)>, at: Id, src: Id, id: Id, budget: nat)
    requires m >= 2 && CorrectRing(m, net, s) && StartsFree(m, s) && forall n :: n in s ==> net[n].Nodes() <= s
    requires forall f :: f in order ==> f.0 in s && f.1 < m
    requires forall n, i: nat :: n in s && i < m ==> (n, i) in order
    requires at in s && src in s && IsId(m, id) && id !in s && !Hidden(m, s, id) && budget + 1 == m
    ensures RightlyAnswered(m, FixAll(m, net, s, order), s, at, src, id, budget)
  {
    FixesMakeFull(m, net, s, order);
    LookupIsLogarithmic(m, FixAll(m, net, s, order), s, at, src, id, budget);
  }
}
