/** How close two members may be: the first finger of a router starts one step ahead, or two, and holds only nodes
    strictly past that start. */
module Spacing {
  import opened Options
  import opened Ring
  import opened Collections
  import opened FingerTable
  import opened Lookup
  import opened Routing
  import opened Neighbours
  import opened Stabilization
  import opened Winding

  /** Every member of `s` has been told of all nodes of `xs`. */
  function Informed(m: nat, s: set<Id>, xs: seq<Id>): Net {
    map n | n in s :: Empty(m, n).UpdateAll(xs)
  }

  /** A router that has been told of all members. */
  ghost predicate KnowsAll(t: Table, s: set<Id>) {
    t.Consistent() && t.Exact(s) && t.Farthest(s) && Ids(t.m, s) && t.self in s
  }

  lemma SpacedSettles(t: Table, s: set<Id>)
    requires KnowsAll(t, s) && Spaced(t.m, s)
    ensures Settled(t, s)
  {
    KnowsAllSettles(t, s);
  }

  ghost predicate AllKnow(m: nat, net: Net, s: set<Id>) {
    && net.Keys == s
    && forall n {:trigger KnowsAll(net[n], s)} :: n in s ==> net[n].m == m && net[n].self == n && KnowsAll(net[n], s)
  }

  lemma InformedKnowsAll(m: nat, s: set<Id>, xs: seq<Id>, n: Id)
    requires m >= 2 && Ids(m, s) && Given(xs) == s && n in s
    ensures var t := Empty(m, n).UpdateAll(xs); t.m == m && t.self == n && KnowsAll(t, s)
  {
    assert forall x :: x in xs ==> x in Given(xs);
    UpdatesRefineSet(m, n, xs);
  }

  lemma InformedAllKnow(m: nat, s: set<Id>, xs: seq<Id>)
    requires m >= 2 && Ids(m, s) && Given(xs) == s
    ensures AllKnow(m, Informed(m, s, xs), s)
  {
    var net := Informed(m, s, xs);
    forall n | n in s ensures net[n].m == m && net[n].self == n && KnowsAll(net[n], s) {
      InformedKnowsAll(m, s, xs, n);
    }
  }

  lemma AllKnowIsShaped(m: nat, net: Net, s: set<Id>)
    requires AllKnow(m, net, s)
    ensures Shaped(m, net, s)
  {
    forall n | n in net ensures net[n].Shape() && net[n].m == m && net[n].self == n {
      assert KnowsAll(net[n], s);
    }
  }

  lemma SpacedAllKnowRing(m: nat, net: Net, s: set<Id>)
    requires AllKnow(m, net, s) && Ids(m, s) && Spaced(m, s)
    ensures CorrectRing(m, net, s)
  {
    AllKnowIsShaped(m, net, s);
    forall n {:trigger Settled(net[n], s)} | n in s ensures Settled(net[n], s) {
      assert KnowsAll(net[n], s);
      SpacedSettles(net[n], s);
    }
  }

  /** Routers that know all members form a correct ring if and only if no two members are too close. */
  lemma AllKnowRing(m: nat, net: Net, s: set<Id>)
    requires AllKnow(m, net, s) && Ids(m, s)
    ensures CorrectRing(m, net, s) <==> Spaced(m, s)
  {
    if Spaced(m, s) {
      SpacedAllKnowRing(m, net, s);
    } else if CorrectRing(m, net, s) {
      RingIsSpaced(m, net, s);
    }
  }

  /** A router that knows all members is settled if and only if no other member is too close in front of it. */
  lemma KnowsAllSettles(t: Table, s: set<Id>)
    requires KnowsAll(t, s)
    ensures Settled(t, s) <==> forall b :: b in s && b != t.self ==> t.Off(b) > Offset(t.m, t.self, 0)
  {
    assert t.Nearest(0, s);
    OffsetIsPower(t.m, t.self, 0);
    var y := SuccExists(t.m, s, t.self);
    if Settled(t, s) && y != t.self {
      NextIsPastStart(t, s, y);
    }
  }

  /** Telling a router again of what it knows changes nothing. */
  lemma ToldAgain(t: Table, s: set<Id>, x: Id)
    requires t.Shape() && t.Exact(s) && t.Farthest(s) && x in s
    ensures t.Update(x) == t
  {
    UpdateShape(t, x);
    UpdateExact(t, s, x);
    UpdateFarthest(t, s, x);
    assert s + {x} == s;
    ExactIsUnique(t, t.Update(x), s);
  }

  /** There are routers that form a correct ring of `s` if and only if no two members are too close. */
  lemma RingExistsIffSpaced(m: nat, s: set<Id>)
    requires m >= 2 && Ids(m, s)
    ensures (exists net :: CorrectRing(m, net, s)) <==> Spaced(m, s)
  {
    if net :| CorrectRing(m, net, s) {
      RingIsSpaced(m, net, s);
    }
    if Spaced(m, s) {
      var xs := Listed(s);
      assert Given(xs) == s;
      InformedAllKnow(m, s, xs);
      AllKnowRing(m, Informed(m, s, xs), s);
    }
  }

  lemma PairSpaced(m: nat, a: Id, b: Id)
    requires a != b
    ensures Spaced(m, {a, b}) <==> Dist(m, a, b) > Offset(m, a, 0) && Dist(m, b, a) > Offset(m, b, 0)
  {
    assert a in {a, b} && b in {a, b};
  }

  /** The start of the first finger is one step ahead, or two from the second last identifier. */
  lemma FirstOffset(m: nat, a: Id)
    requires m >= 2 && IsId(m, a)
    ensures Offset(m, a, 0) == if a == Pow2(m) - 2 then 2 else 1
  {
    OffsetIsPower(m, a, 0);
    assert Pow2(0) == 1;
  }

  lemma CircleIsLarge(m: nat)
    requires m >= 3
    ensures Pow2(m) >= 8
  {
    assert Pow2(m) == 2 * Pow2(m - 1) && Pow2(m - 1) == 2 * Pow2(m - 2) && Pow2(m - 2) == 2 * Pow2(m - 3);
  }

  /** Members two apart form a ring, members one apart do not, and neither do members on both sides of the largest
      identifier. */
  lemma CloseMembers(m: nat)
    requires m >= 3
    ensures Spaced(m, {0, 2}) && !Spaced(m, {0, 1}) && !Spaced(m, {Pow2(m) - 2, 0})
  {
    CircleIsLarge(m);
    FirstOffset(m, 0);
    FirstOffset(m, 2);
    FirstOffset(m, Pow2(m) - 2);
    PairSpaced(m, 0, 2);
    PairSpaced(m, 0, 1);
    PairSpaced(m, Pow2(m) - 2, 0);
  }

  // ---- When stabilization leads to inverse pointers ----

  /** Some member lies past the start of the first finger of `a`. */
  ghost predicate HasRoom(m: nat, s: set<Id>, a: Id) {
    exists b :: b in s && Dist(m, a, b) > Offset(m, a, 0)
  }

  ghost predicate Roomy(m: nat, s: set<Id>) {
    forall a {:trigger HasRoom(m, s, a)} :: a in s ==> HasRoom(m, s, a)
  }

  lemma KnowsAllIsHealthy(t: Table, s: set<Id>, b: Id)
    requires KnowsAll(t, s) && b in s && t.Off(b) > Offset(t.m, t.self, 0)
    ensures Healthy(t, s)
  {
    ExactForOwnNodes(t, s);
    assert t.Nearest(0, s);
  }

  lemma AllKnowIsStable(m: nat, net: Net, s: set<Id>)
    requires AllKnow(m, net, s) && Ids(m, s) && Roomy(m, s)
    ensures Stable(m, net, s)
  {
    AllKnowIsShaped(m, net, s);
    forall n {:trigger Healthy(net[n], s)} | n in s ensures Healthy(net[n], s) {
      assert KnowsAll(net[n], s) && HasRoom(m, s, n);
      var b :| b in s && Dist(m, n, b) > Offset(m, n, 0);
      KnowsAllIsHealthy(net[n], s, b);
    }
  }

  lemma HealthyHasRoom(t: Table, s: set<Id>)
    requires Healthy(t, s)
    ensures HasRoom(t.m, s, t.self)
  {
    assert t.Nearest(0, t.Nodes());
    var b := t.fingers[0].value;
    assert b in s && t.Off(b) > Offset(t.m, t.self, 0);
  }

  /** The hypothesis of the stabilization theorems can be met if and only if the members are roomy. */
  lemma StableExistsIffRoomy(m: nat, s: set<Id>)
    requires m >= 2 && Ids(m, s)
    ensures (exists net :: Stable(m, net, s)) <==> Roomy(m, s)
  {
    if net :| Stable(m, net, s) {
      forall a | a in s ensures HasRoom(m, s, a) {
        assert Healthy(net[a], s);
        HealthyHasRoom(net[a], s);
      }
    }
    if Roomy(m, s) {
      var xs := Listed(s);
      assert Given(xs) == s;
      InformedAllKnow(m, s, xs);
      AllKnowIsStable(m, Informed(m, s, xs), s);
    }
  }

  /** Nothing is left to stabilize among routers that know all members. */
  lemma KnowsAllIsQuiescent(m: nat, net: Net, s: set<Id>, n: Id)
    requires Stable(m, net, s) && AllKnow(m, net, s) && n in s
    ensures Stabilize(m, net, s, n) == net
  {
    assert Healthy(net[n], s);
    var y := net[n].fingers[0].value;
    assert y in net[n].Nodes();
    assert Healthy(net[y], s) && KnowsAll(net[y], s) && KnowsAll(net[n], s);
    var p := net[y].pred;
    if p.Some? {
      ToldAgain(net[n], s, p.value);
      assert net[n := net[n]] == net;
    }
    ToldAgain(net[y], s, n);
    assert net[y := net[y]] == net;
  }

  /** A member that is too close in front of another one stands between it and its successor. */
  lemma TooCloseIsBetween(t: Table, u: Table, s: set<Id>, b: Id)
    requires KnowsAll(t, s) && KnowsAll(u, s) && t.m == u.m && t.fingers[0] == Some(u.self)
    requires b in s && b != t.self && t.Off(b) <= Offset(t.m, t.self, 0)
    ensures u.pred != Some(t.self)
  {
    assert t.Nearest(0, s);
    OffsetIsPower(t.m, t.self, 0);
  }

  /** Members that are not spaced, and that all know each other, are not changed by any stabilization, and yet their
      pointers are not inverse. */
  lemma CloseAreNotInverse(m: nat, net: Net, s: set<Id>)
    requires AllKnow(m, net, s) && Stable(m, net, s) && !Spaced(m, s)
    ensures Quiescent(m, net, s) && !Inverse(net)
  {
    forall n | n in s ensures Stabilize(m, net, s, n) == net {
      KnowsAllIsQuiescent(m, net, s, n);
    }
    var a, b :| a in s && b in s && a != b && Dist(m, a, b) <= Offset(m, a, 0);
    assert Healthy(net[a], s) && KnowsAll(net[a], s);
    var y := net[a].fingers[0].value;
    assert y in net[a].Nodes();
    assert KnowsAll(net[y], s);
    TooCloseIsBetween(net[a], net[y], s, b);
    assert a in net && !Mutual(net, a);
  }

  /** In all states that no stabilization changes, successor and predecessor are inverse bijections. */
  ghost predicate AlwaysInverse(m: nat, s: set<Id>) {
    forall net :: Stable(m, net, s) && Quiescent(m, net, s) ==> Inverse(net)
  }

  lemma UnspacedIsNotInverse(m: nat, s: set<Id>) returns (net: Net)
    requires m >= 2 && Ids(m, s) && Roomy(m, s) && !Spaced(m, s)
    ensures Stable(m, net, s) && Quiescent(m, net, s) && !Inverse(net)
  {
    var xs := Listed(s);
    assert Given(xs) == s;
    net := Informed(m, s, xs);
    InformedAllKnow(m, s, xs);
    AllKnowIsStable(m, net, s);
    CloseAreNotInverse(m, net, s);
  }

  lemma SpacedIsInverse(m: nat, s: set<Id>)
    requires Spaced(m, s)
    ensures AlwaysInverse(m, s)
  {
    forall net | Stable(m, net, s) && Quiescent(m, net, s) ensures Inverse(net) {
      QuiescentIsInverse(m, net, s);
    }
  }

  /** For given members that is so if and only if no two of them are too close, provided that they have room for any
      such state. */
  lemma InverseIffSpaced(m: nat, s: set<Id>)
    requires m >= 2 && Ids(m, s)
    ensures AlwaysInverse(m, s) <==> (Roomy(m, s) ==> Spaced(m, s))
  {
    StableExistsIffRoomy(m, s);
    if Spaced(m, s) {
      SpacedIsInverse(m, s);
    } else if Roomy(m, s) {
      var net := UnspacedIsNotInverse(m, s);
    }
  }

  // ---- An example ----

  /** Of three members, two are neighbours in number. */
  function Three(m: nat): set<Id>
    requires m >= 1
  {
    {0, 1, Pow2(m - 1)}
  }

  lemma HalfAway(m: nat)
    requires m >= 3
    ensures Ids(m, Three(m)) && Roomy(m, Three(m)) && !Spaced(m, Three(m))
  {
    CircleIsLarge(m);
    var half := Pow2(m - 1);
    FirstOffset(m, 0);
    FirstOffset(m, 1);
    FirstOffset(m, half);
    assert half in Three(m) && 0 in Three(m) && 1 in Three(m) && Dist(m, 0, 1) == 1;
    assert Dist(m, 0, half) > 1 && Dist(m, 1, half) > 1 && Dist(m, half, 0) > 1;
    assert HasRoom(m, Three(m), 0) && HasRoom(m, Three(m), 1) && HasRoom(m, Three(m), half);
  }

  /** Even when everybody knows everybody, no stabilization changes anything, and yet the pointers are not inverse. */
  lemma CrowdedIsNotInverse(m: nat, xs: seq<Id>)
    requires m >= 3 && Given(xs) == Three(m)
    ensures var net := Informed(m, Three(m), xs);
            Stable(m, net, Three(m)) && Quiescent(m, net, Three(m)) && !Inverse(net)
  {
    HalfAway(m);
    InformedAllKnow(m, Three(m), xs);
    AllKnowIsStable(m, Informed(m, Three(m), xs), Three(m));
    CloseAreNotInverse(m, Informed(m, Three(m), xs), Three(m));
  }
}
