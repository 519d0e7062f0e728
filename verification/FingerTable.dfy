/** The state of a router as a value: what one node knows of the ring, and what `update` and `remove` make of it.
    Nodes are identified by their uuid. */
module FingerTable {
  import opened Options
  import opened Ring

  datatype Table = Table(m: nat, self: Id, fingers: seq<Option<Id>>, pred: Option<Id>) {

    ghost predicate Shape() {
      && m >= 2 && IsId(m, self) && |fingers| == m
      && (forall i :: 0 <= i < m && fingers[i].Some? ==> IsId(m, fingers[i].value) && fingers[i].value != self)
      && (pred.Some? ==> IsId(m, pred.value) && pred.value != self)
    }

    /** Clockwise distance from this node. */
    function Off(x: Id): int {
      Dist(m, self, x)
    }

    /** The nodes held by the fingers. */
    function Nodes(): set<Id> {
      set i | 0 <= i < |fingers| && fingers[i].Some? :: fingers[i].value
    }

    function Successor(): Option<Id>
      requires Shape()
    {
      fingers[0]
    }

    function SuccessorOrSelf(): Id
      requires Shape()
    {
      fingers[0].Or(self)
    }

    /** Does `x` belong into finger `i` more than what is there now? */
    predicate Improves(i: nat, x: Id)
      requires i < |fingers|
    {
      Between(Start(m, self, i), x, fingers[i].Or(self))
    }

    predicate ImprovesPred(x: Id) {
      pred.None? || (x != pred.value && Between(pred.value, x, self))
    }

    function Update(x: Id): Table {
      if x == self then this else
        this.(fingers := seq(|fingers|, i requires 0 <= i < |fingers| =>
                                        if Improves(i, x) then Some(x) else fingers[i]),
              pred := if ImprovesPred(x) then Some(x) else pred)
    }

    function UpdateAll(xs: seq<Id>): (r: Table)
      ensures r.m == m && r.self == self
      decreases |xs|
    {
      if xs == [] then this else UpdateAll(xs[..|xs| - 1]).Update(xs[|xs| - 1])
    }

    /** Drop `u`: each of its fingers takes the next node further out, and a dropped predecessor is replaced by
        the farthest finger that is left. */
    function Remove(u: Id): Table {
      this.(fingers := seq(|fingers|, i requires 0 <= i < |fingers| =>
                                      if fingers[i] == Some(u) then FirstOther(fingers, i + 1, u) else fingers[i]),
            pred := if pred == Some(u) then LastOther(fingers, 0, u) else pred)
    }

    /** Finger `i` is the nearest node of `s` strictly past start `i`. */
    ghost predicate Nearest(i: nat, s: set<Id>)
      requires i < |fingers|
    {
      match fingers[i]
      case None => forall x :: x in s ==> Off(x) <= Offset(m, self, i)
      case Some(v) =>
        && v in s && Offset(m, self, i) < Off(v)
        && forall x :: x in s && Offset(m, self, i) < Off(x) ==> Off(v) <= Off(x)
    }

    /** Every finger is the nearest node of `s` strictly past its start. */
    ghost predicate Exact(s: set<Id>) {
      && (forall x :: x in s ==> IsId(m, x))
      && forall i :: 0 <= i < |fingers| ==> Nearest(i, s)
    }

    /** The predecessor is the node of `s` farthest clockwise; there is none only if `s` has no other node. */
    ghost predicate Farthest(s: set<Id>) {
      match pred
      case None => s <= {self}
      case Some(p) => p in s && forall x :: x in s ==> Off(x) <= Off(p)
    }

    /** No finger lies beyond the predecessor; in particular no predecessor means no fingers. */
    ghost predicate Bounded() {
      match pred
      case None => Nodes() == {}
      case Some(p) => forall x :: x in Nodes() ==> Off(x) <= Off(p)
    }

    /** What every router keeps: its fingers are the nearest nodes among those it holds. */
    ghost predicate Consistent() {
      Shape() && Exact(Nodes()) && Bounded()
    }
  }

  /** From entry `i` on, the first one that names a node other than `u`. */
  function FirstOther(fs: seq<Option<Id>>, i: nat, u: Id): Option<Id>
    requires i <= |fs|
    decreases |fs| - i
  {
    if i == |fs| then None
    else if fs[i].Some? && fs[i].value != u then fs[i]
    else FirstOther(fs, i + 1, u)
  }

  /** From entry `i` on, the last one that names a node other than `u`. */
  function LastOther(fs: seq<Option<Id>>, i: nat, u: Id): (r: Option<Id>)
    requires i <= |fs|
    ensures r.Some? ==> r.value != u
    decreases |fs| - i
  {
    if i == |fs| then None
    else if LastOther(fs, i + 1, u).Some? then LastOther(fs, i + 1, u)
    else if fs[i].Some? && fs[i].value != u then fs[i]
    else None
  }

  /** A router right after `reset`. */
  function Empty(m: nat, self: Id): Table {
    Table(m, self, seq(m, _ => None), None)
  }

  // ---- The interval tests of the code are comparisons of distances ----

  lemma ImprovesIsNearer(t: Table, i: nat, x: Id)
    requires t.Shape() && IsId(t.m, x) && i < t.m
    requires t.fingers[i].Some? ==> Offset(t.m, t.self, i) < t.Off(t.fingers[i].value)
    ensures t.Improves(i, x) <==>
            Offset(t.m, t.self, i) < t.Off(x) && (t.fingers[i].Some? ==> t.Off(x) < t.Off(t.fingers[i].value))
  {
    OffsetIsPower(t.m, t.self, i);
  }

  lemma ImprovesPredIsFarther(t: Table, x: Id)
    requires t.Shape() && IsId(t.m, x) && x != t.self
    ensures t.ImprovesPred(x) <==> (t.pred.None? || t.Off(t.pred.value) < t.Off(x))
  {}

  lemma OffsetsOrdered(t: Table, i: nat, j: nat)
    requires t.Shape() && i <= j < t.m
    ensures 0 < Offset(t.m, t.self, i) <= Offset(t.m, t.self, j)
  {
    OffsetIsPower(t.m, t.self, i);
    if i < j {
      OffsetsIncrease(t.m, t.self, i, j);
    }
  }

  // ---- update refines a set ----

  lemma UpdateShape(t: Table, x: Id)
    requires t.Shape() && IsId(t.m, x)
    ensures t.Update(x).Shape()
  {}

  lemma UpdateExact(t: Table, s: set<Id>, x: Id)
    requires t.Shape() && t.Exact(s) && IsId(t.m, x)
    ensures t.Update(x).Exact(s + {x})
  {
    var u := t.Update(x);
    forall i | 0 <= i < t.m ensures u.Nearest(i, s + {x}) {
      OffsetIsPower(t.m, t.self, i);
      assert t.Nearest(i, s);
      ImprovesIsNearer(t, i, x);
    }
  }

  lemma UpdateFarthest(t: Table, s: set<Id>, x: Id)
    requires t.Shape() && t.Farthest(s) && IsId(t.m, x)
    requires forall y :: y in s ==> IsId(t.m, y)
    ensures t.Update(x).Farthest(s + {x})
  {
    if x != t.self {
      ImprovesPredIsFarther(t, x);
    }
  }

  /** The set of nodes named by a sequence of updates. */
  function Given(xs: seq<Id>): set<Id> {
    set x | x in xs
  }

  lemma EmptyIsExact(m: nat, self: Id)
    requires m >= 2 && IsId(m, self)
    ensures Empty(m, self).Shape() && Empty(m, self).Exact({}) && Empty(m, self).Farthest({})
    ensures Empty(m, self).Consistent()
  {
    assert Empty(m, self).Nodes() == {};
  }

  lemma ExactForOwnNodes(t: Table, s: set<Id>)
    requires t.Shape() && t.Exact(s)
    ensures t.Nodes() <= s && t.Exact(t.Nodes())
  {
    forall x | x in t.Nodes() ensures x in s {
      var i :| 0 <= i < t.m && t.fingers[i] == Some(x);
      assert t.Nearest(i, s);
    }
    forall i | 0 <= i < t.m ensures t.Nearest(i, t.Nodes()) {
      assert t.Nearest(i, s);
      assert t.fingers[i].Some? ==> t.fingers[i].value in t.Nodes();
    }
  }

  lemma UpdateConsistent(t: Table, x: Id)
    requires t.Consistent() && IsId(t.m, x)
    ensures t.Update(x).Consistent() && t.Update(x).Nodes() <= t.Nodes() + {x}
  {
    var u := t.Update(x);
    UpdateExact(t, t.Nodes(), x);
    ExactForOwnNodes(u, t.Nodes() + {x});
    if x != t.self {
      ImprovesPredIsFarther(t, x);
      assert t.self !in t.Nodes();
    }
  }

  /** After any updates from reset, each finger is the nearest node ever given that lies strictly between its start
      and the node itself, and the predecessor is the farthest one clockwise. */
  lemma {:induction false} UpdatesRefineSet(m: nat, self: Id, xs: seq<Id>)
    requires m >= 2 && IsId(m, self) && forall x :: x in xs ==> IsId(m, x)
    ensures var t := Empty(m, self).UpdateAll(xs);
            t.m == m && t.self == self && t.Consistent() && t.Exact(Given(xs)) && t.Farthest(Given(xs))
    decreases |xs|
  {
    var t := Empty(m, self);
    EmptyIsExact(m, self);
    if xs == [] {
      assert Given(xs) == {};
    } else {
      var ys, x := xs[..|xs| - 1], xs[|xs| - 1];
      UpdatesRefineSet(m, self, ys);
      assert Given(xs) == Given(ys) + {x};
      UpdateExact(t.UpdateAll(ys), Given(ys), x);
      UpdateFarthest(t.UpdateAll(ys), Given(ys), x);
      UpdateConsistent(t.UpdateAll(ys), x);
    }
  }

  /** A table that is exact for a set is determined by it. */
  lemma ExactIsUnique(t: Table, u: Table, s: set<Id>)
    requires t.Shape() && u.Shape() && t.m == u.m && t.self == u.self
    requires t.Exact(s) && u.Exact(s)
    ensures t.fingers == u.fingers
    ensures t.Farthest(s) && u.Farthest(s) ==> t == u
  {
    forall i | 0 <= i < t.m ensures t.fingers[i] == u.fingers[i] {
      assert t.Nearest(i, s) && u.Nearest(i, s);
    }
  }

  /** Reordering or repeating updates makes no difference. */
  lemma UpdatesCommute(m: nat, self: Id, xs: seq<Id>, ys: seq<Id>)
    requires m >= 2 && IsId(m, self) && forall x :: x in xs ==> IsId(m, x)
    requires forall x :: x in xs <==> x in ys
    ensures Empty(m, self).UpdateAll(xs) == Empty(m, self).UpdateAll(ys)
  {
    UpdatesRefineSet(m, self, xs);
    UpdatesRefineSet(m, self, ys);
    assert forall x :: x in Given(xs) <==> x in Given(ys);
    assert Given(xs) == Given(ys);
    ExactIsUnique(Empty(m, self).UpdateAll(xs), Empty(m, self).UpdateAll(ys), Given(xs));
  }

  // ---- What every reachable router keeps ----

  /** The fingers run clockwise and have no holes. */
  lemma FingersMonotone(t: Table, s: set<Id>, i: nat, j: nat)
    requires t.Shape() && t.Exact(s) && i <= j < t.m && t.fingers[j].Some?
    ensures t.fingers[i].Some? && t.Off(t.fingers[i].value) <= t.Off(t.fingers[j].value)
  {
    assert t.Nearest(i, s) && t.Nearest(j, s);
    OffsetsOrdered(t, i, j);
  }

  lemma {:induction false} FirstOtherIs(fs: seq<Option<Id>>, i: nat, u: Id) returns (j: int)
    requires i <= |fs|
    ensures FirstOther(fs, i, u).Some? ==> i <= j < |fs| && fs[j] == FirstOther(fs, i, u) && fs[j].value != u
    ensures FirstOther(fs, i, u).None? ==> j == |fs|
    ensures forall k :: i <= k < j && fs[k].Some? ==> fs[k].value == u
    decreases |fs| - i
  {
    if i == |fs| || (fs[i].Some? && fs[i].value != u) {
      j := i;
    } else {
      j := FirstOtherIs(fs, i + 1, u);
    }
  }

  lemma {:induction false} LastOtherIs(fs: seq<Option<Id>>, i: nat, u: Id) returns (j: int)
    requires i <= |fs|
    ensures LastOther(fs, i, u).Some? ==> i <= j < |fs| && fs[j] == LastOther(fs, i, u) && fs[j].value != u
    ensures LastOther(fs, i, u).None? ==> j == i - 1
    ensures forall k :: j < k < |fs| && fs[k].Some? ==> fs[k].value == u
    decreases |fs| - i
  {
    if i == |fs| {
      j := i - 1;
    } else {
      j := LastOtherIs(fs, i + 1, u);
      if LastOther(fs, i + 1, u).None? && !(fs[i].Some? && fs[i].value != u) {
        j := i - 1;
      }
    }
  }

  /** Past a finger of `u`, the first other node is at least as near as any other node of the table. */
  lemma FirstOtherIsNearer(t: Table, u: Id, i: nat, x: Id)
    requires t.Consistent() && i < t.m && t.fingers[i] == Some(u)
    requires x in t.Nodes() - {u} && Offset(t.m, t.self, i) < t.Off(x)
    ensures var r := FirstOther(t.fingers, i + 1, u); r.Some? && t.Off(r.value) <= t.Off(x)
  {
    var k :| 0 <= k < t.m && t.fingers[k] == Some(x);
    assert t.Nearest(i, t.Nodes());
    // u is nearest past start i, so x can only sit in a later finger
    if k <= i {
      FingersMonotone(t, t.Nodes(), k, i);
      assert false;
    }
    var j := FirstOtherIs(t.fingers, i + 1, u);
    FingersMonotone(t, t.Nodes(), j, k);
  }

  /** The finger that takes the place of a removed one is the nearest of the remaining nodes. */
  lemma ReplacementIsNearest(t: Table, u: Id, i: nat)
    requires t.Consistent() && i < t.m && t.fingers[i] == Some(u)
    ensures t.Remove(u).Nearest(i, t.Nodes() - {u})
  {
    var r := FirstOther(t.fingers, i + 1, u);
    assert t.Remove(u).fingers[i] == r;
    var j := FirstOtherIs(t.fingers, i + 1, u);
    if r.Some? {
      assert t.Nearest(j, t.Nodes());
      OffsetsOrdered(t, i, j);
    }
    forall x | x in t.Nodes() - {u} && Offset(t.m, t.self, i) < t.Off(x) ensures r.Some? && t.Off(r.value) <= t.Off(x) {
      FirstOtherIsNearer(t, u, i, x);
    }
  }

  lemma RemoveNodes(t: Table, u: Id)
    requires t.Shape()
    ensures t.Remove(u).Nodes() == t.Nodes() - {u} && t.Remove(u).Shape()
  {
    var r := t.Remove(u);
    forall i | 0 <= i < t.m && r.fingers[i].Some?
      ensures r.fingers[i].value in t.Nodes() - {u} && IsId(t.m, r.fingers[i].value) && r.fingers[i].value != t.self
    {
      var j := FirstOtherIs(t.fingers, i + 1, u);
    }
    forall x | x in t.Nodes() - {u} ensures x in r.Nodes() {
      var i :| 0 <= i < t.m && t.fingers[i] == Some(x);
      assert r.fingers[i] == Some(x);
    }
    var j := LastOtherIs(t.fingers, 0, u);
  }

  /** Removing a node gives the table of the remaining nodes; a removed predecessor becomes the farthest of them. */
  lemma RemoveRebuilds(t: Table, u: Id)
    requires t.Consistent()
    ensures var r := t.Remove(u);
            && r.Consistent() && r.Nodes() == t.Nodes() - {u} && r.Exact(t.Nodes() - {u})
            && (t.pred == Some(u) ==> r.Farthest(r.Nodes()))
            && (t.pred != Some(u) ==> r.pred == t.pred)
  {
    var r, s := t.Remove(u), t.Nodes();
    RemoveNodes(t, u);
    forall i | 0 <= i < t.m ensures r.Nearest(i, s - {u}) {
      assert t.Nearest(i, s);
      if t.fingers[i] == Some(u) {
        ReplacementIsNearest(t, u, i);
      } else {
        assert r.fingers[i] == t.fingers[i];
      }
    }
    if t.pred == Some(u) {
      var j := LastOtherIs(t.fingers, 0, u);
      forall x | x in s - {u} ensures r.pred.Some? && t.Off(x) <= t.Off(r.pred.value) {
        var k :| 0 <= k < t.m && t.fingers[k] == Some(x);
        FingersMonotone(t, s, k, j);
      }
    }
  }

  /** The steps that change a router. */
  datatype Change = Insert(x: Id) | Drop(u: Id)

  function Run(t: Table, cs: seq<Change>): Table
    decreases |cs|
  {
    if cs == [] then t else
      var r := Run(t, cs[..|cs| - 1]);
      match cs[|cs| - 1]
      case Insert(x) => r.Update(x)
      case Drop(u) => r.Remove(u)
  }

  /** In every state reachable by updates and removals the table is exactly the one of its own node set. */
  lemma {:induction false} ReachableIsConsistent(m: nat, self: Id, cs: seq<Change>)
    requires m >= 2 && IsId(m, self) && forall c :: c in cs && c.Insert? ==> IsId(m, c.x)
    ensures var t := Run(Empty(m, self), cs); t.Consistent() && t.m == m && t.self == self
    decreases |cs|
  {
    if cs == [] {
      EmptyIsExact(m, self);
    } else {
      var ds := cs[..|cs| - 1];
      ReachableIsConsistent(m, self, ds);
      var t := Run(Empty(m, self), ds);
      match cs[|cs| - 1]
      case Insert(x) => UpdateConsistent(t, x);
      case Drop(u) => RemoveRebuilds(t, u);
    }
  }

  // ---- Routing candidates ----

  /** The distinct fingers strictly between this node and `id`, scanned from the last entry down to entry `i`. */
  function Candidates(t: Table, id: Id, i: nat): seq<Id>
    requires i <= |t.fingers|
    decreases |t.fingers| - i
  {
    if i == |t.fingers| then [] else
      var c := Candidates(t, id, i + 1);
      if t.fingers[i].Some? && Between(t.self, t.fingers[i].value, id) && (c == [] || c[|c| - 1] != t.fingers[i].value)
      then c + [t.fingers[i].value] else c
  }

  /** `closest_preceding_nodes`: the candidates, and the node itself as the last resort. */
  function Preceding(t: Table, id: Id): seq<Id> {
    Candidates(t, id, 0) + [t.self]
  }

  lemma {:induction false} CandidatesAre(t: Table, id: Id, i: nat)
    requires t.Consistent() && i <= t.m
    ensures var c := Candidates(t, id, i);
            && (forall x :: x in c <==> Between(t.self, x, id) && Some(x) in t.fingers[i..])
            && (forall a, b :: 0 <= a < b < |c| ==> t.Off(c[b]) < t.Off(c[a]))
    decreases t.m - i
  {
    if i < t.m {
      var d := Candidates(t, id, i + 1);
      CandidatesAre(t, id, i + 1);
      assert t.fingers[i..] == [t.fingers[i]] + t.fingers[i + 1..];
      if t.fingers[i].Some? && d != [] {
        // everything collected so far sits in a later finger, hence no nearer
        forall a | 0 <= a < |d| ensures t.Off(t.fingers[i].value) <= t.Off(d[a]) {
          assert d[a] in d;
          var j :| 0 <= j < |t.fingers[i + 1..]| && t.fingers[i + 1..][j] == Some(d[a]);
          FingersMonotone(t, t.Nodes(), i, i + 1 + j);
        }
        var last := d[|d| - 1];
        assert last in d && IsId(t.m, last);
      }
    }
  }

  /** The candidates for `id` are exactly the fingers strictly between the node and `id`, farthest first and without
      repetition, followed by the node itself. */
  lemma PrecedingNodes(t: Table, id: Id)
    requires t.Consistent() && IsId(t.m, id)
    ensures var p := Preceding(t, id);
            && p[|p| - 1] == t.self
            && (forall x :: x in p[..|p| - 1] <==> x in t.Nodes() && Between(t.self, x, id))
            && (forall a, b :: 0 <= a < b < |p| ==> t.Off(p[b]) < t.Off(p[a]))
  {
    var p, c := Preceding(t, id), Candidates(t, id, 0);
    CandidatesAre(t, id, 0);
    assert p[..|p| - 1] == c && t.fingers[0..] == t.fingers;
    forall x ensures Some(x) in t.fingers <==> x in t.Nodes() {
      if x in t.Nodes() {
        var i :| 0 <= i < |t.fingers| && t.fingers[i] == Some(x);
      }
    }
    forall a | 0 <= a < |c| ensures t.Off(t.self) < t.Off(c[a]) {
      assert c[a] in c;
    }
  }
}
