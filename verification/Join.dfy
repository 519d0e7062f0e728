/** A node joins: the request is forwarded to the gap it belongs to, and the two neighbours found are notified. */
module Join {
  import opened Options
  import opened Ring
  import opened FingerTable
  import opened Lookup
  import opened Routing
  import opened Neighbours
  import opened Stabilization

  /** The answer to a join request. `Nobody` is an answer without neighbours. */
  datatype Gap = Gap(succ: Id, pred: Id) | Nobody | Cancelled | Unfinished

  /** The `join` handler at `at` for the joining node `j`, with at most `budget` forwards. */
  function Request(m: nat, net: Net, live: set<Id>, at: Id, j: Id, budget: nat): Gap
    requires Shaped(m, net, live) && at in live
    decreases budget, 1, 0
  {
    var t := net[at];
    var succ := t.SuccessorOrSelf();
    if t.pred.Some? && !Between(at, j, succ) && !Between(t.pred.value, j, at) then
      Forward(m, net, live, Preceding(t, j), j, budget)
    else if Between(at, j, succ) then Gap(succ, at)
    else if t.pred.Some? then Gap(at, t.pred.value)
    else Nobody
  }

  function Forward(m: nat, net: Net, live: set<Id>, cands: seq<Id>, j: Id, budget: nat): Gap
    requires Shaped(m, net, live)
    decreases budget, 0, |cands|
  {
    if cands == [] then Gap.Cancelled
    else if cands[0] !in live then Forward(m, net, live, cands[1..], j, budget)
    else if budget == 0 then Gap.Unfinished
    else
      var a := Request(m, net, live, cands[0], j, budget - 1);
      if a.Cancelled? then Forward(m, net, live, cands[1..], j, budget) else a
  }

  /** The joining node takes over the neighbours it was told and notifies both of them; if one cannot be reached it
      resets its router. */
  function Link(m: nat, net: Net, live: set<Id>, j: Id, gap: Gap): Net
    requires gap.Gap? && m >= 2 && IsId(m, j) && live <= net.Keys
  {
    var t := Empty(m, j).Update(gap.succ).Update(gap.pred);
    var net1 := net[j := t];
    if t.pred.None? || t.fingers[0].None? then net1 else
      Announce(m, net1, live, j, t.pred.value, t.fingers[0].value)
  }

  /** The notifications of both neighbours. */
  function Announce(m: nat, net: Net, live: set<Id>, j: Id, pred: Id, succ: Id): Net
    requires live <= net.Keys
  {
    var net2 := if pred in live then Notify(m, net, pred, j, Some((succ, j))) else net;
    var net3 := if succ in live then Notify(m, net2, succ, j, Some((pred, j))) else net2;
    if pred in live && succ in live && pred != j && succ != j then net3 else net3[j := Empty(m, j)]
  }

  lemma {:induction false} RequestNamesIds(m: nat, net: Net, live: set<Id>, at: Id, j: Id, budget: nat)
    requires Shaped(m, net, live) && at in live
    ensures var gap := Request(m, net, live, at, j, budget); gap.Gap? ==> IsId(m, gap.succ) && IsId(m, gap.pred)
    decreases budget, 1, 0
  {
    ForwardNamesIds(m, net, live, Preceding(net[at], j), j, budget);
  }

  lemma {:induction false} ForwardNamesIds(m: nat, net: Net, live: set<Id>, cands: seq<Id>, j: Id, budget: nat)
    requires Shaped(m, net, live)
    ensures var gap := Forward(m, net, live, cands, j, budget); gap.Gap? ==> IsId(m, gap.succ) && IsId(m, gap.pred)
    decreases budget, 0, |cands|
  {
    if cands != [] {
      ForwardNamesIds(m, net, live, cands[1..], j, budget);
      if cands[0] in live && budget > 0 {
        RequestNamesIds(m, net, live, cands[0], j, budget - 1);
      }
    }
  }

  // ---- The request finds the gap ----

  lemma GapAhead(m: nat, s: set<Id>, at: Id, y: Id, j: Id)
    requires Ids(m, s + {j}) && at in s && j !in s && IsSucc(m, s, at, y) && Between(at, j, y)
    ensures IsSucc(m, s, j, y) && IsPred(m, s, j, at)
  {}

  lemma GapBehind(m: nat, s: set<Id>, at: Id, p: Id, j: Id)
    requires Ids(m, s + {j}) && at in s && j !in s && IsPred(m, s, at, p) && Between(p, j, at)
    ensures IsSucc(m, s, j, at) && IsPred(m, s, j, p)
  {}

  lemma {:induction false} FirstLive(cands: seq<Id>, live: set<Id>, k: nat) returns (i: nat)
    requires k < |cands| && cands[k] in live
    ensures i <= k && cands[i] in live && forall h :: 0 <= h < i ==> cands[h] !in live
  {
    i := k;
    if h :| 0 <= h < k && cands[h] in live {
      i := FirstLive(cands, live, h);
    }
  }

  /** Outside of both gaps next to a member, its first live candidate lies strictly on the way. */
  lemma CandidateAhead(t: Table, s: set<Id>, j: Id) returns (i: nat)
    requires Settled(t, s) && t.self in s && j !in s && Ids(t.m, s + {j})
    requires !Between(t.self, j, t.SuccessorOrSelf())
    ensures var cands := Preceding(t, j);
            && i < |cands| && cands[i] in s && Dist(t.m, cands[i], j) < Dist(t.m, t.self, j)
            && forall h :: 0 <= h < i ==> cands[h] !in s
    ensures t.pred.Some?
  {
    PrecedingNodes(t, j);
    var cands, succ := Preceding(t, j), t.SuccessorOrSelf();
    assert succ in t.Nodes() && succ in cands[..|cands| - 1];
    var k :| 0 <= k < |cands| - 1 && cands[k] == succ;
    i := FirstLive(cands, s, k);
    assert cands[i] in cands[..|cands| - 1];
    BetweenIsDistance(t.m, t.self, cands[i], j);
  }

  /** A request is answered by the first live candidate, unless that one cancels it. */
  lemma {:induction false} ForwardSkipsDead(m: nat, net: Net, live: set<Id>, cands: seq<Id>, j: Id, budget: nat, i: nat)
    requires Shaped(m, net, live) && budget > 0 && i < |cands| && cands[i] in live
    requires forall h :: 0 <= h < i ==> cands[h] !in live
    requires Request(m, net, live, cands[i], j, budget - 1).Gap?
    ensures Forward(m, net, live, cands, j, budget) == Request(m, net, live, cands[i], j, budget - 1)
    decreases |cands|
  {
    if i > 0 {
      ForwardSkipsDead(m, net, live, cands[1..], j, budget, i - 1);
    }
  }

  lemma {:induction false} RequestFindsGap(m: nat, net: Net, s: set<Id>, at: Id, j: Id, budget: nat) returns (gap: Gap)
    requires CorrectRing(m, net, s) && at in s && j !in s && IsId(m, j) && budget >= Dist(m, at, j)
    ensures gap == Request(m, net, s, at, j, budget)
    ensures gap.Gap? && IsSucc(m, s, j, gap.succ) && IsPred(m, s, j, gap.pred)
    decreases budget
  {
    var t := net[at];
    assert Settled(t, s);
    if Between(at, j, t.SuccessorOrSelf()) {
      gap := Gap(t.SuccessorOrSelf(), at);
      GapAhead(m, s, at, gap.succ, j);
    } else {
      var i := CandidateAhead(t, s, j);
      if Between(t.pred.value, j, at) {
        gap := Gap(at, t.pred.value);
        GapBehind(m, s, at, gap.pred, j);
      } else {
        var cands := Preceding(t, j);
        gap := RequestFindsGap(m, net, s, cands[i], j, budget - 1);
        ForwardSkipsDead(m, net, s, cands, j, budget, i);
      }
    }
  }

  /** Without any forwards left, a request that has to be passed on to a live candidate is not answered. */
  lemma {:induction false} NoForwardLeft(m: nat, net: Net, live: set<Id>, cands: seq<Id>, j: Id, i: nat)
    requires Shaped(m, net, live) && i < |cands| && cands[i] in live && forall h :: 0 <= h < i ==> cands[h] !in live
    ensures Forward(m, net, live, cands, j, 0) == Gap.Unfinished
    decreases |cands|
  {
    if i > 0 {
      NoForwardLeft(m, net, live, cands[1..], j, i - 1);
    }
  }

  /** A member answers a join request itself if and only if it is one of the two neighbours of the joining node. */
  lemma NeighboursAnswer(m: nat, net: Net, s: set<Id>, at: Id, j: Id)
    requires CorrectRing(m, net, s) && at in s && j !in s && IsId(m, j)
    ensures Request(m, net, s, at, j, 0).Gap? <==> IsPred(m, s, j, at) || IsSucc(m, s, j, at)
  {
    var t := net[at];
    assert Settled(t, s);
    var succ := t.SuccessorOrSelf();
    if Between(at, j, succ) {
      GapAhead(m, s, at, succ, j);
    } else {
      var i := CandidateAhead(t, s, j);
      if Between(t.pred.value, j, at) {
        GapBehind(m, s, at, t.pred.value, j);
      } else {
        NoForwardLeft(m, net, s, Preceding(t, j), j, i);
        assert succ in s && t.pred.value in s;
      }
    }
  }

  // ---- The notifications close the gap ----

  /** The router of the joining node, after being told of its neighbours. */
  lemma JoinerSettles(m: nat, s: set<Id>, j: Id, y: Id, p: Id)
    requires m >= 2 && Ids(m, s + {j}) && Spaced(m, s + {j}) && j !in s
    requires IsSucc(m, s, j, y) && IsPred(m, s, j, p)
    ensures var t := Empty(m, j).Update(y).Update(p);
            Settled(t, s + {j}) && t.fingers[0] == Some(y) && t.pred == Some(p)
  {
    var s', e := s + {j}, Empty(m, j);
    EmptyIsExact(m, j);
    InsertNext(e, s', y);
    var t1 := e.Update(y);
    UpdateKeepsFirst(t1, s', p);
    ImprovesPredIsFarther(t1, p);
  }

  /** A member that is not next to the joining node keeps its neighbours. */
  lemma OthersKeepNeighbours(t: Table, s: set<Id>, j: Id, y: Id, p: Id)
    requires Settled(t, s) && t.self in s && j !in s && Ids(t.m, s + {j})
    requires IsSucc(t.m, s, j, y) && IsPred(t.m, s, j, p) && t.self != y && t.self != p
    ensures Settled(t, s + {j})
  {}

  lemma {:induction false} SettledAfterUpdates(t: Table, s: set<Id>, xs: seq<Id>)
    requires Settled(t, s) && Ids(t.m, s) && t.self in s && forall x :: x in xs ==> x in s
    ensures var u := t.UpdateAll(xs); Settled(u, s) && u.m == t.m && u.self == t.self
    decreases |xs|
  {
    if xs != [] {
      SettledAfterUpdates(t, s, xs[..|xs| - 1]);
      SettledAfterUpdate(t.UpdateAll(xs[..|xs| - 1]), s, xs[|xs| - 1]);
    }
  }

  /** A notified neighbour is settled in the enlarged ring. */
  lemma NotifiedSettles(t: Table, s: set<Id>, j: Id, other: Id)
    requires Settled(t, s) && t.self in s && j !in s && Ids(t.m, s + {j}) && Spaced(t.m, s + {j}) && other in s
    ensures Settled(t.Update(j).Update(other).Update(j), s + {j})
  {
    SettledAfterJoin(t, s, j);
    SettledAfterUpdate(t.Update(j), s + {j}, other);
    SettledAfterUpdate(t.Update(j).Update(other), s + {j}, j);
  }

  /** The one member of a ring of one is both neighbours and is notified twice. */
  lemma NotifiedTwiceSettles(t: Table, s: set<Id>, j: Id)
    requires Settled(t, s) && t.self in s && j !in s && Ids(t.m, s + {j}) && Spaced(t.m, s + {j})
    ensures var u := t.Update(j).Update(t.self).Update(j); Settled(u.Update(j).Update(t.self).Update(j), s + {j})
  {
    NotifiedSettles(t, s, j, t.self);
    var u := t.Update(j).Update(t.self).Update(j);
    SettledAfterUpdate(u, s + {j}, j);
    SettledAfterUpdate(u.Update(j), s + {j}, t.self);
    SettledAfterUpdate(u.Update(j).Update(t.self), s + {j}, j);
  }

  /** What becomes of the three routers involved. */
  lemma LinkTables(m: nat, net: Net, s: set<Id>, j: Id, gap: Gap)
    requires m >= 2 && Shaped(m, net, s) && Ids(m, s + {j}) && Spaced(m, s + {j}) && j !in s
    requires gap.Gap? && IsSucc(m, s, j, gap.succ) && IsPred(m, s, j, gap.pred)
    requires Settled(net[gap.succ], s) && Settled(net[gap.pred], s)
    ensures var net', y, p := Link(m, net, s, j, gap), gap.succ, gap.pred;
            && net'.Keys == net.Keys + {j}
            && (forall n :: n in net && n != j && n != y && n != p ==> net'[n] == net[n])
            && net'[j] == Empty(m, j).Update(y).Update(p)
            && var u := net[p].Update(j).Update(y).Update(j);
            if y == p then net'[y] == u.Update(j).Update(p).Update(j)
            else net'[p] == u && net'[y] == net[y].Update(j).Update(p).Update(j)
  {
    JoinerSettles(m, s, j, gap.succ, gap.pred);
  }

  lemma InvolvedSettle(m: nat, net: Net, s: set<Id>, j: Id, gap: Gap)
    requires m >= 2 && CorrectRing(m, net, s) && j !in s && IsId(m, j) && Spaced(m, s + {j})
    requires gap.Gap? && IsSucc(m, s, j, gap.succ) && IsPred(m, s, j, gap.pred)
    ensures var net' := Link(m, net, s, j, gap);
            && net'.Keys == net.Keys + {j}
            && (forall n :: n in net && n != j && n != gap.succ && n != gap.pred ==> net'[n] == net[n])
            && (forall n {:trigger Settled(net'[n], s + {j})} :: n in {j, gap.succ, gap.pred} ==>
                  Settled(net'[n], s + {j}) && net'[n].m == m && net'[n].self == n)
  {
    var y, p := gap.succ, gap.pred;
    assert Settled(net[y], s) && Settled(net[p], s);
    LinkTables(m, net, s, j, gap);
    JoinerSettles(m, s, j, y, p);
    if y == p {
      NotifiedTwiceSettles(net[p], s, j);
    } else {
      NotifiedSettles(net[p], s, j, y);
      NotifiedSettles(net[y], s, j, p);
    }
  }

  lemma OtherSettles(m: nat, net: Net, s: set<Id>, j: Id, gap: Gap, n: Id)
    requires CorrectRing(m, net, s) && j !in s && IsId(m, j)
    requires gap.Gap? && IsSucc(m, s, j, gap.succ) && IsPred(m, s, j, gap.pred)
    requires n in s && n != gap.succ && n != gap.pred
    ensures Settled(net[n], s + {j})
  {
    assert Settled(net[n], s);
    OthersKeepNeighbours(net[n], s, j, gap.succ, gap.pred);
  }

  lemma LinkIsShaped(m: nat, net: Net, s: set<Id>, j: Id, gap: Gap)
    requires m >= 2 && CorrectRing(m, net, s) && j !in s && IsId(m, j) && Spaced(m, s + {j})
    requires gap.Gap? && IsSucc(m, s, j, gap.succ) && IsPred(m, s, j, gap.pred)
    ensures Shaped(m, Link(m, net, s, j, gap), s + {j})
  {
    var net' := Link(m, net, s, j, gap);
    InvolvedSettle(m, net, s, j, gap);
    forall n | n in net' ensures net'[n].Shape() && net'[n].m == m && net'[n].self == n {
      if n in {j, gap.succ, gap.pred} {
        assert Settled(net'[n], s + {j});
      }
    }
  }

  /** After the updates and the two notifications the enlarged ring is correct. */
  lemma LinkKeepsRing(m: nat, net: Net, s: set<Id>, j: Id, gap: Gap)
    requires m >= 2 && CorrectRing(m, net, s) && j !in s && IsId(m, j) && Spaced(m, s + {j})
    requires gap.Gap? && IsSucc(m, s, j, gap.succ) && IsPred(m, s, j, gap.pred)
    ensures CorrectRing(m, Link(m, net, s, j, gap), s + {j})
  {
    var net' := Link(m, net, s, j, gap);
    LinkIsShaped(m, net, s, j, gap);
    InvolvedSettle(m, net, s, j, gap);
    forall n {:trigger Settled(net'[n], s + {j})} | n in s + {j} ensures Settled(net'[n], s + {j}) {
      if n !in {j, gap.succ, gap.pred} {
        OtherSettles(m, net, s, j, gap, n);
      }
    }
  }

  /** A join sent to any member of a correct ring finds two consecutive members around the joining node, and linking it
      in leaves the enlarged ring correct if and only if no two of its members are too close. */
  lemma JoinKeepsRing(m: nat, net: Net, s: set<Id>, at: Id, j: Id, budget: nat) returns (gap: Gap)
    requires m >= 2 && CorrectRing(m, net, s) && at in s && j !in s && IsId(m, j) && budget >= Dist(m, at, j)
    ensures gap == Request(m, net, s, at, j, budget)
    ensures gap.Gap? && IsSucc(m, s, j, gap.succ) && IsPred(m, s, j, gap.pred)
    ensures CorrectRing(m, Link(m, net, s, j, gap), s + {j}) <==> Spaced(m, s + {j})
  {
    gap := RequestFindsGap(m, net, s, at, j, budget);
    if Spaced(m, s + {j}) {
      LinkKeepsRing(m, net, s, j, gap);
    }
    if CorrectRing(m, Link(m, net, s, j, gap), s + {j}) {
      RingIsSpaced(m, Link(m, net, s, j, gap), s + {j});
    }
  }

  // ---- What the members signal ----

  /** Routers that are consistent never answer without neighbours, except to one of the members itself. */
  lemma {:induction false} RequestIsAnswered(m: nat, net: Net, live: set<Id>, at: Id, j: Id, budget: nat)
    requires Shaped(m, net, live) && at in live && j !in live && IsId(m, j)
    requires forall n :: n in live ==> net[n].Consistent()
    ensures !Request(m, net, live, at, j, budget).Nobody?
    decreases budget, 1, 0
  {
    var t := net[at];
    assert t.fingers[0].Some? ==> t.fingers[0].value in t.Nodes();
    ForwardIsAnswered(m, net, live, Preceding(t, j), j, budget);
  }

  lemma {:induction false} ForwardIsAnswered(m: nat, net: Net, live: set<Id>, cands: seq<Id>, j: Id, budget: nat)
    requires Shaped(m, net, live) && j !in live && IsId(m, j) && forall n :: n in live ==> net[n].Consistent()
    ensures !Forward(m, net, live, cands, j, budget).Nobody?
    decreases budget, 0, |cands|
  {
    if cands != [] {
      ForwardIsAnswered(m, net, live, cands[1..], j, budget);
      if cands[0] in live && budget > 0 {
        RequestIsAnswered(m, net, live, cands[0], j, budget - 1);
      }
    }
  }

  /** Of the two notified neighbours exactly the successor of the joined node signals a new predecessor, and so is the
      one that rebalances. A single member signals it once. */
  lemma SuccessorSignalsJoin(t: Table, s: set<Id>, j: Id, y: Id, p: Id)
    requires Settled(t, s) && t.self in s && j !in s && Ids(t.m, s + {j})
    requires IsSucc(t.m, s, j, y) && IsPred(t.m, s, j, p) && (t.self == y || t.self == p)
    ensures !ReadsMissing(t, j) && (SignalsPredecessor(t, j) <==> t.self == y)
    ensures y == p ==> var u := t.Update(j).Update(y).Update(j);
                       u.Shape() && (u.fingers[0].Some? ==> !ReadsMissing(u, j) && !SignalsPredecessor(u, j))
  {
    var z := SuccExists(t.m, s, t.self);
    if y == p {
      assert forall x :: x in s ==> x == y;
    }
  }
}
