/** A node leaves: it sends the nodes of its fingers to its successor and its predecessor, which drop it. */
module Leave {
  import opened Options
  import opened Ring
  import opened FingerTable
  import opened Lookup
  import opened Routing
  import opened Neighbours
  import opened Stabilization

  /** The `leave` handler: drop the leaving node, then take over the nodes it knew. */
  function Hear(t: Table, l: Id, entries: seq<Id>): Table {
    t.Remove(l).UpdateAll(entries)
  }

  function Inform(net: Net, live: set<Id>, at: Option<Id>, l: Id, entries: seq<Id>): Net {
    if at.Some? && at.value != l && at.value in live && at.value in net
    then net[at.value := Hear(net[at.value], l, entries)] else net
  }

  /** `leave`: successor first, then predecessor; a missing or dead neighbour is skipped. */
  function Leave(net: Net, live: set<Id>, l: Id, entries: seq<Id>): Net
    requires l in net && net[l].Shape()
  {
    var succ, pred := net[l].Successor(), net[l].pred;
    Inform(Inform(net, live, succ, l, entries), live, pred, l, entries)
  }

  /** In some order, the nodes known to the leaving one. */
  ghost predicate Entries(t: Table, entries: seq<Id>) {
    forall x :: x in entries <==> x in t.Nodes()
  }

  /** The nodes named by the fingers of `t` strictly between `from` and `to` are members. */
  ghost predicate Clear(t: Table, s: set<Id>, from: Id, to: Id) {
    forall x :: x in t.Nodes() && Between(from, x, to) ==> x in s
  }

  /** The same, for nodes past the start of the first finger of `from`. */
  ghost predicate ClearPast(t: Table, s: set<Id>, from: Id, to: Id) {
    forall x :: x in t.Nodes() && Between(from, x, to) && Dist(t.m, from, x) > Offset(t.m, from, 0) ==> x in s
  }

  /** The routers of the leaving node `l`, its predecessor `p` and its successor `y` name no failed node in the gaps
      that the leave touches. Their other fingers, and all other routers, may name any. */
  ghost predicate Undisturbed(net: Net, s: set<Id>, l: Id, y: Id, p: Id)
    requires forall n :: n in {l, y, p} ==> n in net && net[n].Shape()
  {
    && Clear(net[p], s, l, y) && Clear(net[y], s, p, l)
    && Clear(net[l], s, net[p].pred.Or(p), p) && ClearPast(net[l], s, y, net[y].SuccessorOrSelf())
  }

  // ---- What a router knows after a leave message ----

  lemma {:induction false} UpdateAllExact(t: Table, k: set<Id>, xs: seq<Id>)
    requires t.Consistent() && t.Exact(k) && forall x :: x in xs ==> IsId(t.m, x)
    ensures t.UpdateAll(xs).Consistent() && t.UpdateAll(xs).Exact(k + Given(xs))
    decreases |xs|
  {
    if xs == [] {
      assert k + Given(xs) == k;
    } else {
      var ys, x := xs[..|xs| - 1], xs[|xs| - 1];
      UpdateAllExact(t, k, ys);
      assert k + Given(xs) == k + Given(ys) + {x};
      UpdateConsistent(t.UpdateAll(ys), x);
      UpdateExact(t.UpdateAll(ys), k + Given(ys), x);
    }
  }

  lemma {:induction false} UpdateAllFarthest(t: Table, k: set<Id>, xs: seq<Id>)
    requires t.Consistent() && t.Farthest(k) && Ids(t.m, k) && forall x :: x in xs ==> IsId(t.m, x)
    ensures t.UpdateAll(xs).Farthest(k + Given(xs))
    decreases |xs|
  {
    if xs == [] {
      assert k + Given(xs) == k;
    } else {
      var ys, x := xs[..|xs| - 1], xs[|xs| - 1];
      UpdateAllFarthest(t, k, ys);
      UpdateAllExact(t, t.Nodes(), ys);
      assert k + Given(xs) == k + Given(ys) + {x};
      UpdateFarthest(t.UpdateAll(ys), k + Given(ys), x);
    }
  }

  /** The predecessor that survives the removal of `l`. */
  function Behind(t: Table, l: Id): set<Id> {
    if t.pred.Some? && t.pred.value != l then {t.pred.value} else {}
  }

  /** After a leave message the fingers are the nearest, and the predecessor is the farthest, of all that is known. */
  lemma HearKnows(t: Table, l: Id, entries: seq<Id>)
    requires t.Consistent() && forall x :: x in entries ==> IsId(t.m, x)
    ensures var u, k := Hear(t, l, entries), t.Nodes() - {l};
            && u.Consistent() && u.m == t.m && u.self == t.self
            && u.Exact(k + Given(entries)) && u.Farthest(k + Behind(t, l) + Given(entries))
  {
    var r := t.Remove(l);
    RemoveRebuilds(t, l);
    UpdateAllExact(r, r.Nodes(), entries);
    assert r.Farthest(r.Nodes() + Behind(t, l));
    UpdateAllFarthest(r, r.Nodes() + Behind(t, l), entries);
  }

  lemma FirstIs(u: Table, k: set<Id>, y: Id)
    requires u.Shape() && u.Exact(k) && y in k && u.Off(y) > Offset(u.m, u.self, 0)
    requires forall x :: x in k && u.Off(x) > Offset(u.m, u.self, 0) ==> !Between(u.self, x, y)
    ensures u.fingers[0] == Some(y)
  {
    assert u.Nearest(0, k);
    OffsetIsPower(u.m, u.self, 0);
  }

  // ---- The gap left between the two neighbours ----

  lemma GapCloses(m: nat, s: set<Id>, l: Id, y: Id, p: Id)
    requires Ids(m, s) && l in s && IsSucc(m, s, l, y) && IsPred(m, s, l, p) && y != l
    ensures p != l && IsSucc(m, s - {l}, p, y) && IsPred(m, s - {l}, y, p) && IsSucc(m, s, p, l) && IsPred(m, s, y, l)
    ensures y == p ==> s == {y, l}
    ensures y != p ==> !IsSucc(m, s, y, l) && !IsPred(m, s, p, l)
    ensures forall n :: n in s && n != y && n != p ==> !IsSucc(m, s, n, l) && !IsPred(m, s, n, l)
  {
    if y == p {
      assert forall z :: z in s ==> z == y || z == l;
    }
  }

  /** No node that the leaving one knows lies in the gap. */
  lemma LeaverKnows(t: Table, s: set<Id>, y: Id, p: Id, entries: seq<Id>)
    requires Settled(t, s) && Ids(t.m, s) && IsSucc(t.m, s, t.self, y) && IsPred(t.m, s, t.self, p) && y != t.self
    requires t.self in s && Entries(t, entries)
    ensures t.fingers[0] == Some(y) && t.pred == Some(p) && y in entries
    ensures forall x :: x in entries ==> IsId(t.m, x) && x != t.self && !Between(p, x, t.self) && !Between(t.self, x, y)
  {
    assert t.SuccessorOrSelf() == y && t.pred.Or(t.self) == p;
    assert t.Nearest(0, t.Nodes());
    forall x | x in entries ensures IsId(t.m, x) && x != t.self && !Between(p, x, t.self) && !Between(t.self, x, y) {
      assert x in t.Nodes();
      var i :| 0 <= i < t.m && t.fingers[i] == Some(x);
      FingersMonotone(t, t.Nodes(), 0, i);
    }
  }

  /** The predecessor of `l` and what it is told: the successor of `l`, and nothing in the gap around `l`. */
  ghost predicate Before(t: Table, s: set<Id>, l: Id, y: Id, entries: seq<Id>) {
    && Settled(t, s) && Ids(t.m, s) && t.self in s && l in s && y != l && y != t.self
    && IsSucc(t.m, s, l, y) && IsPred(t.m, s, l, t.self) && y in entries
    && forall x :: x in entries ==> IsId(t.m, x) && x != l && !Between(t.self, x, l) && !Between(l, x, y)
  }

  /** The successor of the predecessor becomes that of the leaving node, if the gap is clear. */
  lemma PredecessorFinds(t: Table, s: set<Id>, l: Id, y: Id, entries: seq<Id>)
    requires Before(t, s, l, y, entries) && Clear(t, s, l, y)
    ensures var u := Hear(t, l, entries); u.Shape() && u.fingers[0] == Some(y)
  {
    var u, k := Hear(t, l, entries), t.Nodes() - {l} + Given(entries);
    GapCloses(t.m, s, l, y, t.self);
    HearKnows(t, l, entries);
    NextIsPastStart(t, s, l);
    assert t.Nearest(0, t.Nodes());
    forall x | x in k && t.Off(x) > Offset(t.m, t.self, 0) ensures !Between(t.self, x, y) {
      if x in t.Nodes() {
        assert t.Off(l) <= t.Off(x);
      }
    }
    FirstIs(u, k, y);
  }

  /** What is known past the first start is no nearer than the first finger. */
  lemma FirstIsNearest(u: Table, k: set<Id>, x: Id)
    requires u.Shape() && u.Exact(k) && x in k && u.Off(x) > Offset(u.m, u.self, 0)
    ensures u.fingers[0].Some? && u.fingers[0].value in k && u.Off(u.fingers[0].value) <= u.Off(x)
  {
    assert u.Nearest(0, k);
  }

  lemma NodeIsPastStart(t: Table, x: Id)
    requires t.Consistent() && x in t.Nodes()
    ensures IsId(t.m, x) && x != t.self && t.Off(x) > Offset(t.m, t.self, 0)
  {
    var i :| 0 <= i < t.m && t.fingers[i] == Some(x);
    assert t.Nearest(i, t.Nodes());
    OffsetsOrdered(t, 0, i);
  }

  /** Only if the gap is clear. */
  lemma FoundIsClear(t: Table, s: set<Id>, l: Id, y: Id, entries: seq<Id>)
    requires Before(t, s, l, y, entries) && Hear(t, l, entries).Shape() && Hear(t, l, entries).fingers[0] == Some(y)
    ensures Clear(t, s, l, y)
  {
    GapCloses(t.m, s, l, y, t.self);
    HearKnows(t, l, entries);
    if x :| x in t.Nodes() && Between(l, x, y) && x !in s {
      NodeIsPastStart(t, x);
      FirstIsNearest(Hear(t, l, entries), t.Nodes() - {l} + Given(entries), x);
      assert false;
    }
  }

  /** The predecessor keeps its own predecessor if and only if it is told of no failed node behind it. */
  lemma PredecessorStays(t: Table, s: set<Id>, l: Id, q: Id, entries: seq<Id>)
    requires Settled(t, s) && Ids(t.m, s) && t.self in s && l in s && IsPred(t.m, s, t.self, q) && q != t.self && q != l
    requires forall x :: x in entries ==> IsId(t.m, x)
    ensures Hear(t, l, entries).pred == Some(q) <==> forall x :: x in entries && Between(q, x, t.self) ==> x in s
  {
    assert t.pred == Some(q);
    HearKnows(t, l, entries);
    if x :| x in entries && Between(q, x, t.self) && x !in s {
      assert x in t.Nodes() - {l} + Behind(t, l) + Given(entries) && t.Off(x) > t.Off(q);
    }
  }

  /** The predecessor is settled with the right successor if and only if both gaps are clear. */
  lemma PredecessorRelinks(t: Table, s: set<Id>, l: Id, y: Id, entries: seq<Id>)
    requires Before(t, s, l, y, entries)
    ensures var u := Hear(t, l, entries);
            && u.m == t.m && u.self == t.self && u.Consistent()
            && (Settled(u, s - {l}) && u.SuccessorOrSelf() == y <==>
                Clear(t, s, l, y) && forall x :: x in entries && Between(t.pred.Or(t.self), x, t.self) ==> x in s)
  {
    var u := Hear(t, l, entries);
    GapCloses(t.m, s, l, y, t.self);
    HearKnows(t, l, entries);
    var q := t.pred.value;
    PredecessorStays(t, s, l, q, entries);
    SamePredecessor(t.m, s, l, t.self, q);
    if Clear(t, s, l, y) {
      PredecessorFinds(t, s, l, y, entries);
    }
    if u.SuccessorOrSelf() == y {
      FoundIsClear(t, s, l, y, entries);
    }
  }

  lemma SamePredecessor(m: nat, s: set<Id>, l: Id, n: Id, q: Id)
    requires Ids(m, s) && n in s && n != l && IsPred(m, s, n, q) && q != n && q != l
    ensures forall z :: IsPred(m, s - {l}, n, z) <==> z == q
  {
    assert q in s - {l};
  }

  lemma SameSuccessor(m: nat, s: set<Id>, l: Id, n: Id, z: Id)
    requires Ids(m, s) && n in s && n != l && IsSucc(m, s, n, z) && z != n && z != l
    ensures forall x :: IsSucc(m, s - {l}, n, x) <==> x == z
  {
    assert z in s - {l};
  }

  /** Consistent, with the right successor, and with no predecessor past `p`. */
  ghost predicate Awaits(t: Table, s: set<Id>, p: Id) {
    && t.Consistent() && IsSucc(t.m, s, t.self, t.SuccessorOrSelf())
    && (t.pred.Some? ==> t.pred.value == p || !Between(p, t.pred.value, t.self))
  }

  /** The successor keeps its own successor if and only if it is told of no failed node in front of that one. */
  lemma SuccessorStays(t: Table, s: set<Id>, l: Id, z: Id, entries: seq<Id>)
    requires Settled(t, s) && Ids(t.m, s) && t.self in s && l in s && IsSucc(t.m, s, t.self, z) && z != t.self && z != l
    requires forall x :: x in entries ==> IsId(t.m, x)
    ensures var u := Hear(t, l, entries);
            && u.Shape() && u.fingers[0].Some? && t.Off(u.fingers[0].value) <= t.Off(z)
            && (u.fingers[0] == Some(z) <==>
                forall x :: x in entries && Between(t.self, x, z) && t.Off(x) > Offset(t.m, t.self, 0) ==> x in s)
  {
    var u, k := Hear(t, l, entries), t.Nodes() - {l} + Given(entries);
    HearKnows(t, l, entries);
    NextIsPastStart(t, s, z);
    assert t.Nearest(0, t.Nodes());
    FirstIsNearest(u, k, z);
    if forall x :: x in entries && Between(t.self, x, z) && t.Off(x) > Offset(t.m, t.self, 0) ==> x in s {
      forall x | x in k && t.Off(x) > Offset(t.m, t.self, 0) ensures !Between(t.self, x, z) {
        if x in t.Nodes() {
          assert t.Off(z) <= t.Off(x);
        }
      }
      FirstIs(u, k, z);
    } else {
      var x :| x in entries && Between(t.self, x, z) && t.Off(x) > Offset(t.m, t.self, 0) && x !in s;
      FirstIsNearest(u, k, x);
    }
  }

  /** Nothing in the gap becomes the predecessor of the successor if and only if it names nothing there. */
  lemma SuccessorForgets(t: Table, s: set<Id>, l: Id, p: Id, entries: seq<Id>)
    requires t.Consistent() && Ids(t.m, s) && t.pred == Some(l) && IsId(t.m, p) && p != t.self && p != l &&
             Between(p, l, t.self)
    requires forall x :: x in entries ==> IsId(t.m, x) && x != l && !Between(p, x, l) && !Between(l, x, t.self)
    ensures var u := Hear(t, l, entries);
            (u.pred.Some? ==> u.pred.value == p || !Between(p, u.pred.value, t.self)) <==>
              forall x :: x in t.Nodes() ==> !Between(p, x, l)
  {
    var u := Hear(t, l, entries);
    HearKnows(t, l, entries);
    if u.pred.Some? {
      var v := u.pred.value;
      assert v in entries || v in t.Nodes() - {l};
    }
    if x :| x in t.Nodes() && Between(p, x, l) {
      NodeIsPastStart(t, x);
      assert x in t.Nodes() - {l} + Behind(t, l) + Given(entries) && t.Off(x) > t.Off(p);
    }
  }

  /** The successor waits for its predecessor at most if and only if both gaps are clear. */
  lemma SuccessorHears(t: Table, s: set<Id>, l: Id, p: Id, entries: seq<Id>)
    requires Settled(t, s) && Ids(t.m, s) && t.self in s && l in s && p != t.self && t.self != l
    requires IsSucc(t.m, s, l, t.self) && IsPred(t.m, s, l, p)
    requires forall x :: x in entries ==> IsId(t.m, x) && x != l && !Between(p, x, l) && !Between(l, x, t.self)
    ensures var u, z := Hear(t, l, entries), t.SuccessorOrSelf();
            && u.m == t.m && u.self == t.self && u.Consistent()
            && u.fingers[0].Some? && t.Off(u.fingers[0].value) <= t.Off(z) && z in s - {l} && z != t.self
            && (Awaits(u, s - {l}, p) <==>
                Clear(t, s, p, l)
                && forall x :: x in entries && Between(t.self, x, z) && t.Off(x) > Offset(t.m, t.self, 0) ==> x in s)
  {
    var u, z := Hear(t, l, entries), t.SuccessorOrSelf();
    GapCloses(t.m, s, l, t.self, p);
    assert t.pred == Some(l);
    SuccessorStays(t, s, l, z, entries);
    SuccessorForgets(t, s, l, p, entries);
    SameSuccessor(t.m, s, l, t.self, z);
    HearKnows(t, l, entries);
  }

  // ---- The leave and one stabilization ----

  /** Nothing but the members is named in the gaps of a ring of two if and only if nothing else is named at all. */
  lemma ClearOfTwo(t: Table, l: Id)
    requires t.Consistent() && l != t.self && t.pred == Some(l)
    ensures Clear(t, {t.self, l}, l, t.self) && Clear(t, {t.self, l}, t.self, l) <==> t.Nodes() <= {l}
  {
    forall x | x in t.Nodes() ensures x == l || Between(l, x, t.self) || Between(t.self, x, l) {
      NodeIsPastStart(t, x);
    }
    assert t.self !in t.Nodes();
  }

  /** The only member left ends up with an empty table, whether it is informed once or twice. */
  lemma LastMemberHears(t: Table, l: Id, entries: seq<Id>)
    requires t.Consistent() && t.Nodes() <= {l} && t.pred in {None, Some(l)} && t.self != l
    requires forall x :: x in entries ==> x == t.self
    ensures var u := Hear(t, l, entries);
            u.m == t.m && u.self == t.self && u.Consistent() && u.Nodes() == {} && u.pred.None?
  {
    HearKnows(t, l, entries);
    var u, k := Hear(t, l, entries), t.Nodes() - {l} + Given(entries);
    ExactForOwnNodes(u, k);
    assert k <= {t.self} && t.self !in u.Nodes();
  }

  /** What another node leaves behind stays behind. */
  lemma OthersStayNamed(t: Table, l: Id, x: Id, entries: seq<Id>)
    requires t.Consistent() && x in t.Nodes() && x != l && forall z :: z in entries ==> IsId(t.m, z)
    ensures var u := Hear(t, l, entries); u.Consistent() && u.fingers[0].Some? && u.self == t.self && u.m == t.m
    ensures forall z :: Hear(t, l, entries).fingers[0] == Some(z) ==> z in t.Nodes() - {l} + Given(entries)
  {
    HearKnows(t, l, entries);
    NodeIsPastStart(t, x);
    FirstIsNearest(Hear(t, l, entries), t.Nodes() - {l} + Given(entries), x);
  }

  /** Which routers the messages reach. */
  lemma Messages(net: Net, s: set<Id>, l: Id, entries: seq<Id>, y: Id, p: Id)
    requires l in net && net[l].Shape() && net[l].fingers[0] == Some(y) && net[l].pred == Some(p)
    requires y in net && p in net && y in s && p in s && y != l && p != l
    ensures var net' := Leave(net, s, l, entries);
            && net'.Keys == net.Keys
            && (y == p ==> net'[y] == Hear(Hear(net[y], l, entries), l, entries))
            && (y != p ==> net'[y] == Hear(net[y], l, entries) && net'[p] == Hear(net[p], l, entries))
            && forall n :: n in net && n != y && n != p ==> net'[n] == net[n]
  {}

  /** The predecessor is settled with the right successor, and the successor waits for its predecessor at most. */
  ghost predicate Relinked(tp: Table, ty: Table, s: set<Id>) {
    tp.m == ty.m && Settled(tp, s) && tp.SuccessorOrSelf() == ty.self && Awaits(ty, s, tp.self)
  }

  /** The leave messages make the predecessor point at the successor of the leaving node, and leave nothing to do but to
      tell that one, if and only if the gaps are undisturbed. */
  lemma LeaveRelinks(m: nat, net: Net, s: set<Id>, l: Id, entries: seq<Id>, y: Id, p: Id)
    requires CorrectRing(m, net, s) && l in s && Entries(net[l], entries)
    requires y != l && IsSucc(m, s, l, y) && IsPred(m, s, l, p)
    ensures var net', s' := Leave(net, s - {l}, l, entries), s - {l};
            && net'.Keys == net.Keys && p in s' && y in s' && IsSucc(m, s', p, y) && IsPred(m, s', y, p)
            && net'[p].m == m && net'[p].self == p && net'[y].m == m && net'[y].self == y
            && net'[p].Consistent() && net'[y].Consistent()
            && (Relinked(net'[p], net'[y], s') <==> Undisturbed(net, s, l, y, p))
            && forall n :: n in net && n != y && n != p ==> net'[n] == net[n]
  {
    assert Settled(net[l], s);
    GapCloses(m, s, l, y, p);
    LeaverKnows(net[l], s, y, p, entries);
    Messages(net, s - {l}, l, entries, y, p);
    if y == p {
      RelinkTogether(m, net, s, l, entries, y);
    } else {
      RelinkApart(m, net, s, l, entries, y, p);
    }
  }

  lemma RelinkTogether(m: nat, net: Net, s: set<Id>, l: Id, entries: seq<Id>, y: Id)
    requires CorrectRing(m, net, s) && l in s && y in s && y != l && s == {y, l}
    requires Entries(net[l], entries) && net[l].pred == Some(y)
    requires forall x :: x in entries ==> IsId(m, x) && x != l && !Between(y, x, l) && !Between(l, x, y)
    ensures var v := Hear(Hear(net[y], l, entries), l, entries);
            v.m == m && v.self == y && v.Consistent() && (Relinked(v, v, s - {l}) <==> Undisturbed(net, s, l, y, y))
  {
    var t := net[y];
    assert Settled(t, s) && t.pred == Some(l) && t.SuccessorOrSelf() == l;
    assert s == {t.self, l} && s - {l} == {y};
    ClearOfTwo(t, l);
    LeaverNamesLast(net[l], l, y);
    HearKnows(t, l, entries);
    HearKnows(Hear(t, l, entries), l, entries);
    if t.Nodes() <= {l} {
      LastMemberHears(t, l, entries);
      LastMemberHears(Hear(t, l, entries), l, entries);
      AloneIsRelinked(Hear(Hear(t, l, entries), l, entries));
    } else {
      var x :| x in t.Nodes() && x != l;
      StillNamed(t, l, x, entries);
    }
  }

  /** The only other member is all that the leaving one names, as far as gaps are concerned. */
  lemma LeaverNamesLast(t: Table, l: Id, y: Id)
    requires t.self == l && y != l && forall x :: x in t.Nodes() ==> x != l && !Between(y, x, l) && !Between(l, x, y)
    ensures t.Nodes() <= {y} && Clear(t, {y, l}, l, y) && ClearPast(t, {y, l}, y, l)
  {
    forall x | x in t.Nodes() ensures x == y {
      assert x == y || Between(y, x, l) || Between(l, x, y);
    }
  }

  lemma StillNamed(t: Table, l: Id, x: Id, entries: seq<Id>)
    requires t.Consistent() && x in t.Nodes() && x != l && forall z :: z in entries ==> IsId(t.m, z) && z != l
    ensures var v := Hear(Hear(t, l, entries), l, entries); v.Shape() && v.fingers[0].Some?
  {
    OthersStayNamed(t, l, x, entries);
    var u := Hear(t, l, entries);
    var z := u.fingers[0].value;
    assert z in u.Nodes() && z != l;
    OthersStayNamed(u, l, z, entries);
  }

  lemma AloneIsRelinked(v: Table)
    requires v.Consistent() && v.Nodes() == {} && v.pred.None?
    ensures Relinked(v, v, {v.self})
  {
    assert v.fingers[0] == None by {
      assert forall x :: v.fingers[0] == Some(x) ==> x in v.Nodes();
    }
  }

  lemma RelinkApart(m: nat, net: Net, s: set<Id>, l: Id, entries: seq<Id>, y: Id, p: Id)
    requires CorrectRing(m, net, s) && l in s && y != l && p != l && y != p
    requires IsSucc(m, s, l, y) && IsPred(m, s, l, p) && Entries(net[l], entries) && y in entries
    requires forall x :: x in entries ==> IsId(m, x) && x != l && !Between(p, x, l) && !Between(l, x, y)
    ensures var tp, ty := Hear(net[p], l, entries), Hear(net[y], l, entries);
            && tp.m == m && tp.self == p && ty.m == m && ty.self == y && tp.Consistent() && ty.Consistent()
            && (Relinked(tp, ty, s - {l}) <==> Undisturbed(net, s, l, y, p))
  {
    assert Settled(net[p], s) && Settled(net[y], s);
    PredecessorRelinks(net[p], s, l, y, entries);
    SuccessorHears(net[y], s, l, p, entries);
    assert net[l].m == m;
  }

  // ---- The stabilization of the predecessor ----

  lemma AwaitedSettles(t: Table, s: set<Id>, p: Id)
    requires Awaits(t, s, p) && Ids(t.m, s) && t.self in s && p in s && p != t.self && IsPred(t.m, s, t.self, p)
    ensures Settled(t.Update(p), s)
  {
    UpdateKeepsFirst(t, s, p);
    ImprovesPredIsFarther(t, p);
  }

  /** The stabilization of the predecessor tells the successor of it and touches nothing else. */
  lemma PredecessorStabilizes(m: nat, net: Net, s: set<Id>, y: Id, p: Id)
    requires Shaped(m, net, s) && Ids(m, s) && p in s && y in s && IsPred(m, s, y, p) && Relinked(net[p], net[y], s)
    ensures Stabilize(m, net, s, p) == if y == p then net else net[y := net[y].Update(p)]
    ensures y != p ==> Settled(net[y].Update(p), s)
  {
    if y != p {
      assert net[p].fingers[0] == Some(y);
      AwaitedSettles(net[y], s, p);
    }
  }

  lemma OthersStaySettled(t: Table, s: set<Id>, l: Id, y: Id, p: Id)
    requires Settled(t, s) && Ids(t.m, s) && l in s && t.self in s - {l} && t.self != y && t.self != p
    requires y != l && IsSucc(t.m, s, l, y) && IsPred(t.m, s, l, p)
    ensures Settled(t, s - {l})
  {
    GapCloses(t.m, s, l, y, p);
  }

  lemma ShapedAfterLeave(m: nat, net: Net, net': Net, s: set<Id>, y: Id, p: Id)
    requires Shaped(m, net, s) && net'.Keys == net.Keys && y in net && p in net
    requires net'[p].m == m && net'[p].self == p && net'[y].m == m && net'[y].self == y
    requires net'[p].Consistent() && net'[y].Consistent()
    requires forall n :: n in net && n != y && n != p ==> net'[n] == net[n]
    ensures Shaped(m, net', s)
  {}

  /** If the gaps are undisturbed, one later stabilization by the predecessor makes the ring of the remaining members
      correct. */
  lemma LeaveKeepsRing(m: nat, net: Net, s: set<Id>, l: Id, entries: seq<Id>, y: Id, p: Id)
    requires CorrectRing(m, net, s) && l in s && Entries(net[l], entries)
    requires y != l && IsSucc(m, s, l, y) && IsPred(m, s, l, p) && Undisturbed(net, s, l, y, p)
    ensures p in net && Shaped(m, Leave(net, s - {l}, l, entries), s - {l})
    ensures CorrectRing(m, Stabilize(m, Leave(net, s - {l}, l, entries), s - {l}, p), s - {l})
  {
    var s', net1 := s - {l}, Leave(net, s - {l}, l, entries);
    LeaveRelinks(m, net, s, l, entries, y, p);
    ShapedAfterLeave(m, net, net1, s', y, p);
    PredecessorStabilizes(m, net1, s', y, p);
    RemainingAreRing(m, net, Stabilize(m, net1, s', p), s, l, y, p);
  }

  lemma RemainingAreRing(m: nat, net: Net, net': Net, s: set<Id>, l: Id, y: Id, p: Id)
    requires CorrectRing(m, net, s) && l in s && y != l && IsSucc(m, s, l, y) && IsPred(m, s, l, p)
    requires Shaped(m, net', s - {l}) && net'.Keys == net.Keys && y in net' && p in net'
    requires Settled(net'[y], s - {l}) && Settled(net'[p], s - {l})
    requires forall n :: n in net && n != y && n != p ==> net'[n] == net[n]
    ensures CorrectRing(m, net', s - {l})
  {
    forall n {:trigger Settled(net'[n], s - {l})} | n in s - {l} ensures Settled(net'[n], s - {l}) {
      RemainingSettles(m, net, net', s, l, y, p, n);
    }
  }

  lemma RemainingSettles(m: nat, net: Net, net': Net, s: set<Id>, l: Id, y: Id, p: Id, n: Id)
    requires CorrectRing(m, net, s) && l in s && y != l && IsSucc(m, s, l, y) && IsPred(m, s, l, p) && n in s - {l}
    requires n in net' && if n == y || n == p then Settled(net'[n], s - {l}) else net'[n] == net[n]
    ensures Settled(net'[n], s - {l})
  {
    if n != y && n != p {
      assert Settled(net[n], s);
      OthersStaySettled(net[n], s, l, y, p);
    }
  }

  /** The predecessor is left with a failed successor, and dropping that one happens to complete the ring. */
  ghost predicate Lucky(tp: Table, ty: Table, s: set<Id>) {
    && tp.Shape() && tp.SuccessorOrSelf() !in s && Settled(tp.Remove(tp.SuccessorOrSelf()), s)
    && (tp.self != ty.self ==> Settled(ty, s))
  }

  /** When the predecessor finds a failed successor, the result is right exactly if it is lucky. */
  lemma DroppingIsLucky(m: nat, net: Net, s: set<Id>, y: Id, p: Id)
    requires Shaped(m, net, s) && p in s && y in s && net[p].SuccessorOrSelf() !in s
    ensures var net' := Stabilize(m, net, s, p);
            && (Settled(net'[y], s) && Settled(net'[p], s) <==> Lucky(net[p], net[y], s))
            && forall n :: n in net && n != y && n != p ==> net'[n] == net[n]
  {}

  /** The first finger is no further than the next member. */
  ghost predicate NoFurther(t: Table, s: set<Id>) {
    && t.Shape() && t.fingers[0].Some?
    && exists z :: z != t.self && IsSucc(t.m, s, t.self, z) && t.Off(t.fingers[0].value) <= t.Off(z)
  }

  /** A live successor is the next member, and is only told of its predecessor if it names nobody in between. */
  lemma MeetsLiveSuccessor(m: nat, net: Net, s: set<Id>, y: Id, p: Id)
    requires Shaped(m, net, s) && Ids(m, s) && p in s && y in s && p != y && IsSucc(m, s, p, y) && IsPred(m, s, y, p)
    requires net[p].fingers[0] == Some(y) && net[y].Consistent()
    requires NoFurther(net[y], s)
    requires var net' := Stabilize(m, net, s, p); Settled(net'[y], s) && Settled(net'[p], s)
    ensures Awaits(net[y], s, p) && Settled(net[p], s)
  {
    var q, net' := net[y].pred, Stabilize(m, net, s, p);
    if q.Some? && Between(p, q.value, y) {
      KeptBetween(m, net, s, y, p, q.value);
      assert false;
    }
    assert net' == net[y := net[y].Update(p)];
    ImprovesPredIsFarther(net[y], p);
    assert net[y].Nearest(0, net[y].Nodes());
    ImprovesIsNearer(net[y], 0, p);
  }

  /** A predecessor in the gap stays where it is. */
  lemma KeptBetween(m: nat, net: Net, s: set<Id>, y: Id, p: Id, q: Id)
    requires Shaped(m, net, s) && Ids(m, s) && p in s && y in s && p != y && IsSucc(m, s, p, y)
    requires net[p].fingers[0] == Some(y) && net[y].pred == Some(q) && Between(p, q, y)
    ensures q !in s && Stabilize(m, net, s, p)[y].pred == Some(q)
  {
    ImprovesPredIsFarther(net[y], p);
    assert net[p].Update(q).fingers[0] == Some(q) || net[p].Update(q).fingers[0] == Some(y);
  }

  lemma PredecessorNoFurther(t: Table, s: set<Id>, l: Id, y: Id, entries: seq<Id>)
    requires Before(t, s, l, y, entries)
    ensures NoFurther(Hear(t, l, entries), s - {l})
  {
    GapCloses(t.m, s, l, y, t.self);
    HearKnows(t, l, entries);
    NextIsPastStart(t, s, l);
    FirstIsNearest(Hear(t, l, entries), t.Nodes() - {l} + Given(entries), y);
  }

  lemma SuccessorNoFurther(t: Table, s: set<Id>, l: Id, p: Id, entries: seq<Id>)
    requires Settled(t, s) && Ids(t.m, s) && t.self in s && l in s && p != t.self && t.self != l
    requires IsSucc(t.m, s, l, t.self) && IsPred(t.m, s, l, p)
    requires forall x :: x in entries ==> IsId(t.m, x) && x != l && !Between(p, x, l) && !Between(l, x, t.self)
    ensures NoFurther(Hear(t, l, entries), s - {l})
  {
    GapCloses(t.m, s, l, t.self, p);
    SuccessorHears(t, s, l, p, entries);
    var u, z := Hear(t, l, entries), t.SuccessorOrSelf();
    SameSuccessor(t.m, s, l, t.self, z);
    assert IsSucc(u.m, s - {l}, u.self, z) && u.Off(u.fingers[0].value) <= u.Off(z);
  }

  /** After the messages neither neighbour has its first finger past the next member. */
  lemma NeighboursNoFurther(m: nat, net: Net, s: set<Id>, l: Id, entries: seq<Id>, y: Id, p: Id)
    requires CorrectRing(m, net, s) && l in s && Entries(net[l], entries)
    requires y != l && IsSucc(m, s, l, y) && IsPred(m, s, l, p) && y != p
    ensures var net', s' := Leave(net, s - {l}, l, entries), s - {l};
            y in net' && p in net' && NoFurther(net'[p], s') && NoFurther(net'[y], s')
  {
    assert Settled(net[l], s);
    GapCloses(m, s, l, y, p);
    LeaverKnows(net[l], s, y, p, entries);
    Messages(net, s - {l}, l, entries, y, p);
    assert Settled(net[p], s) && Settled(net[y], s);
    PredecessorNoFurther(net[p], s, l, y, entries);
    SuccessorNoFurther(net[y], s, l, p, entries);
  }

  /** Without bad luck the stabilization settles both neighbours only if the messages had relinked them. */
  lemma SettledOnlyIfRelinked(m: nat, net: Net, s: set<Id>, y: Id, p: Id)
    requires Shaped(m, net, s) && Ids(m, s) && p in s && y in s && IsSucc(m, s, p, y) && IsPred(m, s, y, p)
    requires net[y].Consistent() && net[p].SuccessorOrSelf() in s
    requires p != y ==> NoFurther(net[p], s) && NoFurther(net[y], s)
    requires var net' := Stabilize(m, net, s, p); Settled(net'[y], s) && Settled(net'[p], s)
    ensures Relinked(net[p], net[y], s)
  {
    var t := net[p];
    if y == p {
      assert s == {p} by {
        assert forall z :: z in s ==> z == p;
      }
      assert Stabilize(m, net, s, p) == net;
    } else {
      assert t.fingers[0] == Some(y);
      MeetsLiveSuccessor(m, net, s, y, p);
    }
  }

  lemma RingIsSettled(m: nat, net: Net, s: set<Id>, y: Id, p: Id)
    requires CorrectRing(m, net, s) && y in s && p in s
    ensures Settled(net[y], s) && Settled(net[p], s)
  {}

  /** After a leave and one later stabilization by the predecessor the ring of the remaining members is correct if and
      only if the gaps were undisturbed, or the predecessor was lucky. */
  lemma LeaveKeepsRingIff(m: nat, net: Net, s: set<Id>, l: Id, entries: seq<Id>, y: Id, p: Id)
    requires CorrectRing(m, net, s) && l in s && Entries(net[l], entries)
    requires y != l && IsSucc(m, s, l, y) && IsPred(m, s, l, p)
    ensures var net', s' := Leave(net, s - {l}, l, entries), s - {l};
            && y in net' && p in net' && Shaped(m, net', s')
            && (CorrectRing(m, Stabilize(m, net', s', p), s') <==>
                Undisturbed(net, s, l, y, p) || Lucky(net'[p], net'[y], s'))
  {
    var net', s' := Leave(net, s - {l}, l, entries), s - {l};
    LeaveRelinks(m, net, s, l, entries, y, p);
    ShapedAfterLeave(m, net, net', s', y, p);
    var end := Stabilize(m, net', s', p);
    if Undisturbed(net, s, l, y, p) {
      LeaveKeepsRing(m, net, s, l, entries, y, p);
    }
    if net'[p].SuccessorOrSelf() !in s' {
      DroppingIsLucky(m, net', s', y, p);
      if Lucky(net'[p], net'[y], s') {
        RemainingAreRing(m, net, end, s, l, y, p);
      } else if CorrectRing(m, end, s') {
        RingIsSettled(m, end, s', y, p);
      }
    } else if CorrectRing(m, end, s') {
      RingIsSettled(m, end, s', y, p);
      if y != p {
        NeighboursNoFurther(m, net, s, l, entries, y, p);
      }
      SettledOnlyIfRelinked(m, net', s', y, p);
    }
  }
}
