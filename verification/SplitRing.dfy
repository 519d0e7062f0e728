/** Quiescence is not connectedness: a state that no stabilization changes may consist of several rings. */
module SplitRing {
  import opened Options
  import opened Ring
  import opened FingerTable
  import opened Lookup
  import opened Routing
  import opened Neighbours
  import opened Stabilization
  import opened Spacing

  function Quarter(m: nat): Id
    requires m >= 4
  {
    Pow2(m - 2)
  }

  /** Four members, a quarter of the circle apart. */
  function FourMembers(m: nat): set<Id>
    requires m >= 4
  {
    {0, Quarter(m), 2 * Quarter(m), 3 * Quarter(m)}
  }

  function Opposite(m: nat, n: Id): Id
    requires m >= 4
  {
    if n < 2 * Quarter(m) then n + 2 * Quarter(m) else n - 2 * Quarter(m)
  }

  /** Two interleaved rings of two members each: everybody has been told of the opposite node only. */
  function TwoRings(m: nat): Net
    requires m >= 4
  {
    map n | n in FourMembers(m) :: Empty(m, n).UpdateAll([Opposite(m, n)])
  }

  lemma Quarters(m: nat)
    requires m >= 4
    ensures Pow2(m) == 4 * Quarter(m) && Quarter(m) >= 4
  {
    assert Pow2(m) == 2 * Pow2(m - 1) && Pow2(m - 2) == 2 * Pow2(m - 3) && Pow2(m - 3) == 2 * Pow2(m - 4);
  }

  lemma OppositeIsHalfway(m: nat, n: Id)
    requires m >= 4 && n in FourMembers(m)
    ensures IsId(m, n) && Opposite(m, n) in FourMembers(m) && Opposite(m, Opposite(m, n)) == n
    ensures Dist(m, n, Opposite(m, n)) == 2 * Quarter(m) > Offset(m, n, 0)
  {
    Quarters(m);
    FirstOffset(m, n);
  }

  /** The table knows the opposite node and nothing else. */
  ghost predicate Paired(m: nat, t: Table, n: Id)
    requires m >= 4
  {
    var o := Opposite(m, n);
    && t.m == m && t.self == n && t.Consistent() && t.Nodes() == {o}
    && t.fingers[0] == Some(o) && t.pred == Some(o) && t.Update(o) == t
  }

  lemma ToldIsPaired(m: nat, n: Id)
    requires m >= 4 && n in FourMembers(m)
    ensures Paired(m, Empty(m, n).UpdateAll([Opposite(m, n)]), n)
  {
    var o := Opposite(m, n);
    var xs := [o];
    var t := Empty(m, n).UpdateAll(xs);
    OppositeIsHalfway(m, n);
    OppositeIsHalfway(m, o);
    assert Given(xs) == {o};
    UpdatesRefineSet(m, n, xs);
    assert t.Nearest(0, {o});
    ExactForOwnNodes(t, {o});
    assert o in t.Nodes();
    ToldAgain(t, {o}, o);
  }

  ghost predicate PairedUp(m: nat, net: Net)
    requires m >= 4
  {
    && net.Keys == FourMembers(m)
    && forall n {:trigger Paired(m, net[n], n)} :: n in net ==> Paired(m, net[n], n)
  }

  lemma PairedIsHealthy(m: nat, t: Table, n: Id)
    requires m >= 4 && n in FourMembers(m) && Paired(m, t, n)
    ensures IsId(m, n) && t.Shape() && Healthy(t, FourMembers(m))
  {
    OppositeIsHalfway(m, n);
  }

  lemma PairedUpIsStable(m: nat, net: Net)
    requires m >= 4 && PairedUp(m, net)
    ensures Stable(m, net, FourMembers(m))
  {
    forall n | n in FourMembers(m) ensures IsId(m, n) && net[n].Shape() && net[n].m == m && net[n].self == n {
      assert Paired(m, net[n], n);
      PairedIsHealthy(m, net[n], n);
    }
    forall n {:trigger Healthy(net[n], FourMembers(m))} | n in FourMembers(m) ensures Healthy(net[n], FourMembers(m)) {
      assert Paired(m, net[n], n);
      PairedIsHealthy(m, net[n], n);
    }
  }

  lemma PairedUpFixed(m: nat, net: Net, n: Id)
    requires m >= 4 && PairedUp(m, net) && n in FourMembers(m) && Shaped(m, net, FourMembers(m))
    ensures Stabilize(m, net, FourMembers(m), n) == net
  {
    var o := Opposite(m, n);
    OppositeIsHalfway(m, n);
    assert Paired(m, net[n], n) && Paired(m, net[o], o);
    assert net[o := net[o].Update(n)] == net;
  }

  lemma FourAreSpaced(m: nat)
    requires m >= 4
    ensures Spaced(m, FourMembers(m))
  {
    Quarters(m);
    forall a | a in FourMembers(m) ensures Offset(m, a, 0) <= 2 {
      FirstOffset(m, a);
    }
  }

  /** Two interleaved rings of two members each: no two members are too close and no stabilization changes anything, yet
      the successor of 0 is not the next member. */
  lemma QuiescentMayBeSplit(m: nat)
    requires m >= 4
    ensures Stable(m, TwoRings(m), FourMembers(m)) && Spaced(m, FourMembers(m))
    ensures Quiescent(m, TwoRings(m), FourMembers(m))
    ensures !IsSucc(m, FourMembers(m), 0, TwoRings(m)[0].SuccessorOrSelf())
  {
    var net := TwoRings(m);
    forall n | n in FourMembers(m) ensures Paired(m, net[n], n) {
      ToldIsPaired(m, n);
    }
    PairedUpIsStable(m, net);
    FourAreSpaced(m);
    forall n | n in FourMembers(m) ensures Stabilize(m, net, FourMembers(m), n) == net {
      PairedUpFixed(m, net, n);
    }
    OppositeIsNotNext(m, net);
  }

  lemma OppositeIsNotNext(m: nat, net: Net)
    requires m >= 4 && PairedUp(m, net) && Shaped(m, net, FourMembers(m))
    ensures !IsSucc(m, FourMembers(m), 0, net[0].SuccessorOrSelf())
  {
    Quarters(m);
    assert Paired(m, net[0], 0) && Quarter(m) in FourMembers(m);
  }
}
