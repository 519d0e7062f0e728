/** With finger tables built from all members, every forward halves the remaining way. */
module Routing {
  import opened Options
  import opened Ring
  import opened FingerTable
  import opened Lookup

  /** No two members are so close that one of them is not past the first finger start of the other. */
  ghost predicate Spaced(m: nat, s: set<Id>) {
    forall a, b :: a in s && b in s && a != b ==> Dist(m, a, b) > Offset(m, a, 0)
  }

  /** Every member is alive, and every table is built from all members. */
  ghost predicate Full(m: nat, net: Net, s: set<Id>) {
    && Shaped(m, net, s)
    && forall n :: n in s ==> IsId(m, n) && net[n].Consistent() && net[n].Exact(s)
  }

  /** The largest identifier, with a member right in front and one right behind: the start of the first finger of the
      one in front is 0, so that it never learns of the other. */
  predicate Hidden(m: nat, s: set<Id>, id: Id) {
    id == Pow2(m) - 1 && Pow2(m) - 2 in s && 0 in s
  }

  lemma FullAfterUpdate(t: Table, s: set<Id>, x: Id)
    requires t.Consistent() && t.Exact(s) && x in s
    ensures t.Update(x).Consistent() && t.Update(x).Exact(s)
  {
    UpdateConsistent(t, x);
    UpdateExact(t, s, x);
    assert s + {x} == s;
  }

  lemma {:induction false} Log(m: nat, d: int) returns (i: nat)
    requires 0 < d < Pow2(m)
    ensures i < m && Pow2(i) <= d < Pow2(i + 1)
  {
    if d < Pow2(m - 1) {
      i := Log(m - 1, d);
    } else {
      i := m - 1;
    }
  }

  /** Some finger reaches past half of the way to any node past the first finger start. */
  lemma HalfwayFinger(m: nat, self: Id, d: int) returns (k: nat)
    requires m >= 2 && IsId(m, self) && Offset(m, self, 0) < d < Pow2(m)
    ensures k < m && Offset(m, self, k) < d <= 2 * (Offset(m, self, k) + 1)
  {
    var i := Log(m, d);
    OffsetIsPower(m, self, i);
    if Offset(m, self, i) < d {
      k := i;
    } else {
      k := i - 1;
      OffsetIsPower(m, self, k);
      OffsetsIncrease(m, self, k, i);
      assert Pow2(i) == 2 * Pow2(k);
    }
  }

  /** The first candidate covers at least half of the distance to the last member before `id`. */
  lemma ForwardHalves(t: Table, s: set<Id>, id: Id, p: Id)
    requires t.Consistent() && t.Exact(s) && t.self in s
    requires IsId(t.m, id) && id !in s && IsPred(t.m, s, id, p) && t.Off(p) > Offset(t.m, t.self, 0)
    ensures var f := Preceding(t, id)[0];
            f in s && f != t.self && Between(t.self, f, id) && 2 * Dist(t.m, f, p) <= Dist(t.m, t.self, p)
  {
    var d := Dist(t.m, t.self, p);
    OffsetIsPower(t.m, t.self, 0);
    var k := HalfwayFinger(t.m, t.self, d);
    assert t.Nearest(k, s);
    var v := t.fingers[k].value;
    PrecedingNodes(t, id);
    var cands := Preceding(t, id);
    assert v in t.Nodes() && Between(t.self, v, id);
    var j :| 0 <= j < |cands| - 1 && cands[j] == v;
    var f := cands[0];
    assert f in cands[..|cands| - 1];
    ExactForOwnNodes(t, s);
    assert f in s && Between(t.self, f, id);
    assert Dist(t.m, p, id) <= Dist(t.m, f, id);
    assert t.Off(v) <= t.Off(f) <= d;
  }

  /** The answer of a member is the first member past `id`, unless `id` is hidden. */
  lemma AnswerIsRight(t: Table, s: set<Id>, id: Id)
    requires t.Shape() && t.Exact(s) && t.self in s && IsId(t.m, id) && id !in s && !Hidden(t.m, s, id)
    requires Between(t.self, id, t.SuccessorOrSelf())
    ensures IsSucc(t.m, s, id, t.SuccessorOrSelf())
  {
    var y := t.SuccessorOrSelf();
    OffsetIsPower(t.m, t.self, 0);
    assert t.Nearest(0, s);
    forall z | z in s ensures Dist(t.m, id, y) <= Dist(t.m, id, z) {}
  }

  /** A member that has the last member before `id` no further than its first finger start answers by itself. */
  lemma NearMemberAnswers(t: Table, s: set<Id>, id: Id, p: Id)
    requires t.Shape() && t.Exact(s) && t.self in s && IsId(t.m, id) && id !in s
    requires IsPred(t.m, s, id, p) && t.Off(p) <= Offset(t.m, t.self, 0)
    ensures Between(t.self, id, t.SuccessorOrSelf())
  {
    OffsetIsPower(t.m, t.self, 0);
    assert t.Nearest(0, s);
  }

  /** Handling a request between members leaves the table built from all members. */
  lemma FullStep(m: nat, net: Net, s: set<Id>, at: Id, src: Id)
    requires Full(m, net, s) && at in s && src in s
    ensures var u := net[at].Update(src);
            && u.Consistent() && u.Exact(s) && DropDead(u, s) == u && u.SuccessorOrSelf() in s
            && Full(m, net[at := u], s)
  {
    FullAfterUpdate(net[at], s, src);
    var u := net[at].Update(src);
    ExactForOwnNodes(u, s);
    var y := u.SuccessorOrSelf();
    assert y in u.Nodes() || y == at;
  }

  lemma {:induction false} RoutesWithin(m: nat, net: Net, s: set<Id>, at: Id, src: Id, id: Id, p: Id, y: Id,
                                        budget: nat)
    requires Full(m, net, s) && at in s && src in s && IsId(m, id) && id !in s && !Hidden(m, s, id)
    requires IsPred(m, s, id, p) && IsSucc(m, s, id, y) && Dist(m, at, p) < Pow2(budget + 1)
    ensures Successor(m, net, s, at, src, id, budget).1 == Found(y)
    decreases budget, 1
  {
    FullStep(m, net, s, at, src);
    var u := net[at].Update(src);
    if Between(at, id, u.SuccessorOrSelf()) {
      AnswerIsRight(u, s, id);
      assert y == u.SuccessorOrSelf();
    } else {
      if Dist(m, at, p) <= Offset(m, at, 0) {
        NearMemberAnswers(u, s, id, p);
        assert false;
      }
      ForwardHalves(u, s, id, p);
      OffsetIsPower(m, at, 0);
      RoutesOn(m, net, s, at, u, id, p, y, budget);
    }
  }

  lemma {:induction false} RoutesOn(m: nat, net: Net, s: set<Id>, at: Id, u: Table, id: Id, p: Id, y: Id, budget: nat)
    requires Full(m, net, s) && at in s && Full(m, net[at := u], s)
    requires IsId(m, id) && id !in s && !Hidden(m, s, id) && IsPred(m, s, id, p) && IsSucc(m, s, id, y)
    requires Preceding(u, id)[0] in s && 2 * Dist(m, Preceding(u, id)[0], p) <= Dist(m, at, p)
    requires 1 < Dist(m, at, p) < Pow2(budget + 1)
    ensures Forward(m, net[at := u], s, at, Preceding(u, id), id, budget).1 == Found(y)
    decreases budget, 0
  {
    assert Pow2(budget + 1) == 2 * Pow2(budget) && Pow2(0) == 1;
    RoutesWithin(m, net[at := u], s, Preceding(u, id)[0], at, id, p, y, budget - 1);
  }

  /** The lookup of `id` is answered with the first member past it, within `budget` forwards. */
  ghost predicate RightlyAnswered(m: nat, net: Net, s: set<Id>, at: Id, src: Id, id: Id, budget: nat)
    requires Shaped(m, net, s) && at in s && IsId(m, src)
  {
    exists y :: IsSucc(m, s, id, y) && Successor(m, net, s, at, src, id, budget).1 == Found(y)
  }

  /** Any lookup from any member makes fewer forwards than the ring has bits. */
  lemma LookupIsLogarithmic(m: nat, net: Net, s: set<Id>, at: Id, src: Id, id: Id, budget: nat)
    requires Full(m, net, s) && at in s && src in s && IsId(m, id) && id !in s && !Hidden(m, s, id) && budget + 1 == m
    ensures RightlyAnswered(m, net, s, at, src, id, budget)
  {
    var p := PredExists(m, s, id);
    var y := SuccExists(m, s, id);
    RoutesWithin(m, net, s, at, src, id, p, y, budget);
  }

  /** The member in front of a hidden identifier answers with a member too far on. */
  lemma HiddenIsMissed(m: nat, net: Net, s: set<Id>, id: Id, budget: nat)
    requires m >= 2 && Full(m, net, s) && Hidden(m, s, id)
    ensures Pow2(m) - 2 in s && !RightlyAnswered(m, net, s, Pow2(m) - 2, Pow2(m) - 2, id, budget)
  {
    var at := Pow2(m) - 2;
    var t := net[at];
    FullStep(m, net, s, at, at);
    OffsetIsPower(m, at, 0);
    assert t.Nearest(0, s) && Pow2(0) == 1;
    assert 0 in s && Dist(m, id, 0) == 1;
  }

  /** With tables built from all members every lookup of an identifier that is no member is answered rightly within
      fewer forwards than bits, from every member, if and only if the identifier is not hidden. */
  lemma LookupsRightIffNotHidden(m: nat, net: Net, s: set<Id>, id: Id, budget: nat)
    requires m >= 2 && Full(m, net, s) && IsId(m, id) && id !in s && budget + 1 == m
    ensures (forall at, src :: at in s && src in s ==> RightlyAnswered(m, net, s, at, src, id, budget)) <==>
            !Hidden(m, s, id)
  {
    if Hidden(m, s, id) {
      HiddenIsMissed(m, net, s, id, budget);
    } else {
      forall at, src | at in s && src in s ensures RightlyAnswered(m, net, s, at, src, id, budget) {
        LookupIsLogarithmic(m, net, s, at, src, id, budget);
      }
    }
  }

  /** A member that looks up its own identifier is told its first finger at once, which is the next member if and only
      if no other member is so close that it is not past the first finger start. */
  lemma OwnLookup(m: nat, net: Net, s: set<Id>, at: Id, budget: nat)
    requires Full(m, net, s) && at in s
    ensures RightlyAnswered(m, net, s, at, at, at, budget) <==>
            forall b :: b in s && b != at ==> Dist(m, at, b) > Offset(m, at, 0)
  {
    FullStep(m, net, s, at, at);
    var t := net[at];
    OffsetIsPower(m, at, 0);
    assert t.Nearest(0, s);
    var y := t.SuccessorOrSelf();
    assert Successor(m, net, s, at, at, at, budget).1 == Found(y);
    if forall b :: b in s && b != at ==> Dist(m, at, b) > Offset(m, at, 0) {
      assert IsSucc(m, s, at, y);
    }
  }
}
