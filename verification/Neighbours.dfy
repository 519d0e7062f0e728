/** What it takes for a router to point at both of its neighbours on the ring. */
module Neighbours {
  import opened Options
  import opened Ring
  import opened FingerTable
  import opened Lookup
  import opened Routing

  /** Successor and predecessor are the neighbours on the ring of `s`; a node alone has neither. */
  ghost predicate Linked(t: Table, s: set<Id>) {
    && t.Shape()
    && IsSucc(t.m, s, t.self, t.SuccessorOrSelf())
    && IsPred(t.m, s, t.self, t.pred.Or(t.self))
  }

  /** Linked, in a table that is exact for the nodes it holds. Other fingers may name nodes that are no members. */
  ghost predicate Settled(t: Table, s: set<Id>) {
    t.Consistent() && Linked(t, s)
  }

  ghost predicate Ids(m: nat, s: set<Id>) {
    forall n :: n in s ==> IsId(m, n)
  }

  /** A ring in which every router is settled. */
  ghost predicate CorrectRing(m: nat, net: Net, s: set<Id>) {
    && Shaped(m, net, s) && Ids(m, s)
    && forall n {:trigger Settled(net[n], s)} :: n in s ==> Settled(net[n], s)
  }

  lemma SettledKnowsNext(t: Table, s: set<Id>)
    requires Settled(t, s) && Ids(t.m, s) && t.self in s
    ensures KnowsNext(t, s)
  {
    var y := t.SuccessorOrSelf();
    if y != t.self {
      assert y in t.Nodes();
    }
    assert forall z :: IsSucc(t.m, s, t.self, z) ==> z == y;
  }

  /** The successor of a settled router lies past the start of its first finger. */
  lemma NextIsPastStart(t: Table, s: set<Id>, y: Id)
    requires Settled(t, s) && Ids(t.m, s) && t.self in s && IsSucc(t.m, s, t.self, y) && y != t.self
    ensures t.fingers[0] == Some(y) && t.Off(y) > Offset(t.m, t.self, 0)
  {
    assert t.SuccessorOrSelf() == y;
    assert t.Nearest(0, t.Nodes());
  }

  /** The members of a correct ring are spaced. */
  lemma RingIsSpaced(m: nat, net: Net, s: set<Id>)
    requires CorrectRing(m, net, s)
    ensures Spaced(m, s)
  {
    forall a, b | a in s && b in s && a != b ensures Dist(m, a, b) > Offset(m, a, 0) {
      var y := SuccExists(m, s, a);
      assert Settled(net[a], s);
      NextIsPastStart(net[a], s, y);
    }
  }

  /** In a correct ring every member lists the next one, as lookups need it. */
  lemma RingIsGood(m: nat, net: Net, s: set<Id>)
    requires CorrectRing(m, net, s)
    ensures Good(m, net, s)
  {
    forall n | n in s ensures net[n].Consistent() && KnowsNext(net[n], s) {
      assert Settled(net[n], s);
      SettledKnowsNext(net[n], s);
    }
  }

  /** Telling a router of its next member makes that member its successor. */
  lemma InsertNext(t: Table, s: set<Id>, x: Id)
    requires t.Consistent() && Ids(t.m, s) && t.self in s && (t.fingers[0].Some? ==> t.fingers[0].value in s)
    requires IsSucc(t.m, s, t.self, x) && x != t.self && t.Off(x) > Offset(t.m, t.self, 0)
    ensures t.Update(x).Consistent() && t.Update(x).fingers[0] == Some(x) && KnowsNext(t.Update(x), s)
  {
    var u := t.Update(x);
    UpdateConsistent(t, x);
    assert t.Nearest(0, t.Nodes());
    ImprovesIsNearer(t, 0, x);
    assert u.fingers[0] == Some(x);
    assert x in u.Nodes();
    assert forall y :: IsSucc(t.m, s, t.self, y) ==> y == x;
  }

  lemma UpdateKeepsFirst(t: Table, s: set<Id>, x: Id)
    requires t.Consistent() && Ids(t.m, s) && t.self in s && x in s && IsSucc(t.m, s, t.self, t.SuccessorOrSelf())
    ensures t.Update(x).Consistent() && t.Update(x).fingers[0] == t.fingers[0]
  {
    UpdateConsistent(t, x);
    assert t.Nearest(0, t.Nodes());
    ImprovesIsNearer(t, 0, x);
  }

  lemma UpdateKeepsLast(t: Table, s: set<Id>, x: Id)
    requires t.Shape() && Ids(t.m, s) && t.self in s && x in s && IsPred(t.m, s, t.self, t.pred.Or(t.self))
    ensures t.Update(x).pred == t.pred
  {
    if x != t.self {
      ImprovesPredIsFarther(t, x);
    }
  }

  /** A settled router stays settled when told of a member. */
  lemma SettledAfterUpdate(t: Table, s: set<Id>, x: Id)
    requires Settled(t, s) && Ids(t.m, s) && t.self in s && x in s
    ensures Settled(t.Update(x), s)
  {
    UpdateKeepsFirst(t, s, x);
    UpdateKeepsLast(t, s, x);
  }

  lemma NextAfterJoin(m: nat, s: set<Id>, x: Id, y: Id, j: Id)
    requires Ids(m, s + {j}) && x in s && j !in s && IsSucc(m, s, x, y)
    ensures IsSucc(m, s + {j}, x, if y == x || Dist(m, x, j) < Dist(m, x, y) then j else y)
  {}

  lemma PrevAfterJoin(m: nat, s: set<Id>, x: Id, p: Id, j: Id)
    requires Ids(m, s + {j}) && x in s && j !in s && IsPred(m, s, x, p)
    ensures IsPred(m, s + {j}, x, if p == x || Dist(m, j, x) < Dist(m, p, x) then j else p)
  {}

  /** The successor after being told of a joined member. */
  lemma FirstAfterJoin(t: Table, s: set<Id>, j: Id)
    requires Settled(t, s) && t.self in s && j !in s && Ids(t.m, s + {j}) && t.Off(j) > Offset(t.m, t.self, 0)
    ensures t.Update(j).Consistent() && IsSucc(t.m, s + {j}, t.self, t.Update(j).SuccessorOrSelf())
  {
    UpdateConsistent(t, j);
    NextAfterJoin(t.m, s, t.self, t.SuccessorOrSelf(), j);
    assert t.Nearest(0, t.Nodes());
    ImprovesIsNearer(t, 0, j);
  }

  lemma LastAfterJoin(t: Table, s: set<Id>, j: Id)
    requires Settled(t, s) && t.self in s && j !in s && Ids(t.m, s + {j})
    ensures IsPred(t.m, s + {j}, t.self, t.Update(j).pred.Or(t.self))
  {
    PrevAfterJoin(t.m, s, t.self, t.pred.Or(t.self), j);
    ImprovesPredIsFarther(t, j);
  }

  /** A settled router that is told of a new member is settled in the enlarged ring. */
  lemma SettledAfterJoin(t: Table, s: set<Id>, j: Id)
    requires Settled(t, s) && t.self in s && j !in s && Ids(t.m, s + {j}) && t.Off(j) > Offset(t.m, t.self, 0)
    ensures Settled(t.Update(j), s + {j})
  {
    FirstAfterJoin(t, s, j);
    LastAfterJoin(t, s, j);
  }
}
