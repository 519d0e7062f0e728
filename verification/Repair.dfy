/** Repair after failures: checks free the routers of failed predecessors, and stabilizations skip the failed successors
    and link the members that are left. */
module Repair {
  import opened Options
  import opened Ring
  import opened Collections
  import opened FingerTable
  import opened Lookup
  import opened Routing
  import opened Neighbours
  import opened Stabilization
  import opened Checking

  /** Some member other than `n` is alive. */
  ghost predicate Accompanied(live: set<Id>, n: Id) {
    exists x :: x in live && x != n
  }

  lemma NextInTable(t: Table, live: set<Id>) returns (y: Id)
    requires t.Consistent() && KnowsNext(t, live) && t.self in live && Ids(t.m, live) && Accompanied(live, t.self)
    ensures IsSucc(t.m, live, t.self, y) && y != t.self && y in t.Nodes() && t.fingers[0].Some?
  {
    y := SuccExists(t.m, live, t.self);
    var k :| 0 <= k < t.m && t.fingers[k] == Some(y);
    FingersMonotone(t, t.Nodes(), 0, k);
  }

  ghost predicate Company(live: set<Id>) {
    forall n {:trigger Accompanied(live, n)} :: n in live ==> Accompanied(live, n)
  }

  // ---- Failed successors ----

  /** The number of failed nodes in front of the first live one. */
  function FailedAhead(t: Table, live: set<Id>): nat
    requires t.Shape() && t.self in live
    decreases |t.Nodes()|
  {
    var s := t.SuccessorOrSelf();
    if s in live then 0 else
      RemoveNodes(t, s);
      assert s in t.Nodes();
      1 + FailedAhead(t.Remove(s), live)
  }

  lemma FailedSuccessor(t: Table, live: set<Id>)
    requires t.Consistent() && KnowsNext(t, live) && t.self in live && (forall n :: n in live ==> IsId(t.m, n))
    ensures var s := t.SuccessorOrSelf();
            if FailedAhead(t, live) == 0 then IsSucc(t.m, live, t.self, s)
            else s !in live && t.Remove(s).Consistent() && KnowsNext(t.Remove(s), live)
                 && FailedAhead(t.Remove(s), live) == FailedAhead(t, live) - 1
  {
    var s := t.SuccessorOrSelf();
    if s in live {
      FirstFingerIsNext(t, live);
    } else {
      assert s in t.Nodes();
      RemoveRebuilds(t, s);
    }
  }

  /** Whatever its predecessor, a node finds the next live one by its own stabilizations: each of them drops one of the
      failed nodes in front and changes no other router, and when there is none left the successor is the next live
      node. */
  lemma StabilizeDropsFailed(m: nat, net: Net, live: set<Id>, n: Id)
    requires Good(m, net, live) && n in live
    ensures var net', k := Stabilize(m, net, live, n), FailedAhead(net[n], live);
            if k == 0 then IsSucc(m, live, n, net[n].SuccessorOrSelf())
            else Good(m, net', live) && net' == net[n := net'[n]] && FailedAhead(net'[n], live) == k - 1
  {
    FailedSuccessor(net[n], live);
    if FailedAhead(net[n], live) != 0 {
      assert Stabilize(m, net, live, n) == net[n := net[n].Remove(net[n].SuccessorOrSelf())];
    }
  }

  /** The failed nodes in front of all live ones. */
  ghost function Ahead(t: Table, live: set<Id>): set<Id> {
    set d | d in t.Nodes() && d !in live && forall x :: x in live && x != t.self ==> t.Off(d) < t.Off(x)
  }

  /** The first finger is failed and in front of all live nodes, or it is the next live node. */
  lemma FirstIsNextOrAhead(t: Table, live: set<Id>)
    requires t.Consistent() && KnowsNext(t, live) && t.self in live && Ids(t.m, live) && Accompanied(live, t.self)
    ensures t.fingers[0].Some?
    ensures var s := t.fingers[0].value;
            if s in live then IsSucc(t.m, live, t.self, s) && s != t.self else s in Ahead(t, live)
  {
    var y := NextInTable(t, live);
    var s := t.fingers[0].value;
    assert t.Nearest(0, t.Nodes()) && s in t.Nodes();
    if s in live {
      FirstFingerIsNext(t, live);
    } else {
      var k :| 0 <= k < t.m && t.fingers[k] == Some(y);
      FingersMonotone(t, t.Nodes(), 0, k);
    }
  }

  /** The successor of `n` is the next live node and has `n` as its predecessor. */
  ghost predicate Joined(m: nat, net: Net, live: set<Id>, n: Id)
    requires Shaped(m, net, live) && n in live
  {
    var y := net[n].SuccessorOrSelf();
    IsSucc(m, live, n, y) && y in net && net[y].pred == Some(n)
  }

  // ---- The steps ----

  /** No member loses its place by a step, and none gets failed nodes in front of it. */
  ghost predicate NoWorse(m: nat, net: Net, net': Net, live: set<Id>)
    requires Shaped(m, net, live) && Shaped(m, net', live)
  {
    && (forall k {:trigger Ahead(net'[k], live)} :: k in live ==> Ahead(net'[k], live) <= Ahead(net[k], live))
    && forall k {:trigger Joined(m, net', live, k)} :: k in live && Joined(m, net, live, k) ==> Joined(m, net', live, k)
  }

  lemma GoodWith(m: nat, net: Net, live: set<Id>, n: Id, r: Table)
    requires Good(m, net, live) && n in live && r.m == m && r.self == n && r.Consistent() && KnowsNext(r, live)
    ensures Good(m, net[n := r], live)
  {}

  /** A failed node is dropped from a router. */
  lemma DropFailed(t: Table, live: set<Id>, u: Id)
    requires t.Consistent() && KnowsNext(t, live) && t.self in live && Ids(t.m, live) && u !in live
    ensures var r := t.Remove(u);
            && r.Consistent() && KnowsNext(r, live) && Ahead(r, live) == Ahead(t, live) - {u}
            && (t.pred != Some(u) ==> r.pred == t.pred)
            && (IsSucc(t.m, live, t.self, t.SuccessorOrSelf()) ==> r.SuccessorOrSelf() == t.SuccessorOrSelf())
  {
    RemoveRebuilds(t, u);
    if IsSucc(t.m, live, t.self, t.SuccessorOrSelf()) {
      assert t.fingers[0] != Some(u);
    }
  }

  lemma DroppedNoWorse(m: nat, net: Net, live: set<Id>, n: Id, u: Id)
    requires Good(m, net, live) && n in live && u !in live
    ensures var net' := net[n := net[n].Remove(u)]; Good(m, net', live) && NoWorse(m, net, net', live)
  {
    DropFailed(net[n], live, u);
    GoodWith(m, net, live, n, net[n].Remove(u));
  }

  /** A check makes nobody worse off, and frees the router or brings it nearer to that. */
  lemma CheckStep(m: nat, net: Net, live: set<Id>, n: Id)
    requires Good(m, net, live) && n in live
    ensures var net' := Check(m, net, live, n);
            && Good(m, net', live) && NoWorse(m, net, net', live) && net' == net[n := net'[n]]
            && (Freed(net[n], live) ==> net' == net)
            && (!Freed(net[n], live) && Accompanied(live, n) ==> |Failed(net'[n], live)| < |Failed(net[n], live)|)
  {
    var t := net[n];
    assert net[n := net[n]] == net;
    if !Freed(t, live) {
      DroppedNoWorse(m, net, live, n, t.pred.value);
      RemoveFailedPredecessor(t, live);
      if Accompanied(live, n) {
        var y := NextInTable(t, live);
      }
    }
  }

  lemma StabilizeDrops(m: nat, net: Net, live: set<Id>, n: Id)
    requires Shaped(m, net, live) && n in live && net[n].SuccessorOrSelf() !in live
    ensures Stabilize(m, net, live, n) == net[n := net[n].Remove(net[n].SuccessorOrSelf())]
  {}

  /** A failed successor is dropped. */
  lemma SkipsFailed(m: nat, net: Net, live: set<Id>, n: Id)
    requires Good(m, net, live) && n in live && Accompanied(live, n) && net[n].SuccessorOrSelf() !in live
    ensures var net' := net[n := net[n].Remove(net[n].SuccessorOrSelf())];
            Good(m, net', live) && NoWorse(m, net, net', live) && |Ahead(net'[n], live)| < |Ahead(net[n], live)|
  {
    var t := net[n];
    var s := t.SuccessorOrSelf();
    FirstIsNextOrAhead(t, live);
    DropFailed(t, live, s);
    DroppedNoWorse(m, net, live, n, s);
  }

  /** The successor is failed, or it is free of a failed predecessor. */
  ghost predicate Guard(m: nat, net: Net, live: set<Id>, n: Id)
    requires Shaped(m, net, live) && n in live
  {
    var y := net[n].SuccessorOrSelf();
    y in live ==> Freed(net[y], live)
  }

  /** A live successor is the next member, and is told of its predecessor. */
  lemma JoinsNext(m: nat, net: Net, live: set<Id>, n: Id)
    requires Good(m, net, live) && n in live && Accompanied(live, n)
    requires net[n].SuccessorOrSelf() in live && Freed(net[net[n].SuccessorOrSelf()], live)
    ensures var y, net' := net[n].SuccessorOrSelf(), Stabilize(m, net, live, n);
            && IsSucc(m, live, n, y) && y != n && net' == net[y := net[y].Update(n)] && net'[y].pred == Some(n)
  {
    FirstIsNextOrAhead(net[n], live);
    var y := net[n].fingers[0].value;
    ImprovesPredIsFarther(net[y], n);
  }

  /** A router that is told of a live node. */
  lemma ToldOfLive(t: Table, live: set<Id>, x: Id)
    requires t.Consistent() && KnowsNext(t, live) && t.self in live && Ids(t.m, live) && x in live
    ensures var u := t.Update(x);
            u.Consistent() && KnowsNext(u, live) && Ahead(u, live) <= Ahead(t, live) &&
              Failed(u, live) <= Failed(t, live)
  {
    UpdateKeepsNext(t, live, x);
    UpdateConsistent(t, x);
  }

  lemma ToldNoWorse(m: nat, net: Net, net': Net, live: set<Id>, n: Id, y: Id)
    requires Good(m, net, live) && n in live && IsSucc(m, live, n, y) && y != n
    requires net' == net[y := net[y].Update(n)] && net'[y].pred == Some(n)
    ensures Good(m, net', live) && NoWorse(m, net, net', live)
  {
    ToldOfLive(net[y], live, n);
    GoodWith(m, net, live, y, net[y].Update(n));
    forall k | k in live && Joined(m, net, live, k) ensures Joined(m, net', live, k) {
      if k == y {
        UpdateKeepsFirst(net[y], live, n);
      } else if net[k].SuccessorOrSelf() == y {
        assert k == n;
      }
    }
  }

  /** One guarded stabilization of any member. */
  lemma StabilizeStep(m: nat, net: Net, live: set<Id>, n: Id)
    requires Good(m, net, live) && n in live && Accompanied(live, n) && Guard(m, net, live, n)
    ensures var net' := Stabilize(m, net, live, n);
            && Good(m, net', live) && NoWorse(m, net, net', live)
            && (Joined(m, net', live, n) || |Ahead(net'[n], live)| < |Ahead(net[n], live)|)
  {
    if net[n].SuccessorOrSelf() !in live {
      StabilizeDrops(m, net, live, n);
      SkipsFailed(m, net, live, n);
    } else {
      JoinsNext(m, net, live, n);
      ToldNoWorse(m, net, Stabilize(m, net, live, n), live, n, net[n].SuccessorOrSelf());
    }
  }

  // ---- Any interleaving ----

  /** At most that many stabilizations of `n` join it with the next member. */
  ghost function StabilizesNeeded(m: nat, net: Net, live: set<Id>, n: Id): nat
    requires Shaped(m, net, live) && n in live
  {
    if Joined(m, net, live, n) then 0 else |Ahead(net[n], live)| + 1
  }

  function Count(tasks: seq<Task>, task: Task): nat {
    if tasks == [] then 0 else (if tasks[0] == task then 1 else 0) + Count(tasks[1..], task)
  }

  /** The guard holds wherever a member stabilizes. */
  ghost predicate Guarded(m: nat, net: Net, live: set<Id>, tasks: seq<Task>)
    requires Shaped(m, net, live) && forall task :: task in tasks ==> task.n in live
    decreases |tasks|
  {
    tasks == [] || ((tasks[0].StabilizeOf? ==> Guard(m, net, live, tasks[0].n))
                    && Guarded(m, Perform(m, net, live, tasks[0]), live, tasks[1..]))
  }

  ghost predicate Enough(m: nat, net: Net, live: set<Id>, tasks: seq<Task>)
    requires Shaped(m, net, live)
  {
    forall n {:trigger Count(tasks, StabilizeOf(n))} :: n in live ==>
      Count(tasks, StabilizeOf(n)) >= StabilizesNeeded(m, net, live, n)
  }

  lemma EnoughLeft(m: nat, net: Net, net': Net, live: set<Id>, tasks: seq<Task>)
    requires Shaped(m, net, live) && Shaped(m, net', live) && tasks != [] && Enough(m, net, live, tasks) &&
             NoWorse(m, net, net', live)
    requires tasks[0].n in live
    requires tasks[0].StabilizeOf? ==>
               Joined(m, net', live, tasks[0].n) || |Ahead(net'[tasks[0].n], live)| < |Ahead(net[tasks[0].n], live)|
    ensures Enough(m, net', live, tasks[1..])
  {
    forall n | n in live ensures Count(tasks[1..], StabilizeOf(n)) >= StabilizesNeeded(m, net', live, n) {
      assert Count(tasks, StabilizeOf(n)) >= StabilizesNeeded(m, net, live, n);
      SubsetSize(Ahead(net'[n], live), Ahead(net[n], live));
    }
  }

  /** Any interleaving of checks and guarded stabilizations joins all members. */
  lemma {:induction false} WorkJoins(m: nat, net: Net, live: set<Id>, tasks: seq<Task>)
    requires Good(m, net, live) && Company(live) && forall task :: task in tasks ==> task.n in live
    requires Guarded(m, net, live, tasks) && Enough(m, net, live, tasks)
    ensures var end := Work(m, net, live, tasks);
            Good(m, end, live) && forall n {:trigger Joined(m, end, live, n)} :: n in live ==> Joined(m, end, live, n)
    decreases |tasks|
  {
    if tasks == [] {
      forall n | n in live ensures Joined(m, net, live, n) {
        assert Count(tasks, StabilizeOf(n)) == 0;
      }
    } else {
      assert tasks[0] in tasks && Accompanied(live, tasks[0].n);
      var net' := Perform(m, net, live, tasks[0]);
      if tasks[0].StabilizeOf? {
        StabilizeStep(m, net, live, tasks[0].n);
      } else {
        CheckStep(m, net, live, tasks[0].n);
      }
      EnoughLeft(m, net, net', live, tasks);
      WorkJoins(m, net', live, tasks[1..]);
    }
  }

  lemma JoinedIsLinked(m: nat, net: Net, live: set<Id>, n: Id)
    requires Good(m, net, live) && n in live && Accompanied(live, n)
    requires forall k {:trigger Joined(m, net, live, k)} :: k in live ==> Joined(m, net, live, k)
    ensures Settled(net[n], live)
  {
    var p := PredExists(m, live, n);
    assert Joined(m, net, live, n) && Joined(m, net, live, p);
  }

  lemma {:induction false} FingersNameFew(fs: seq<Option<Id>>)
    ensures |set i | 0 <= i < |fs| && fs[i].Some? :: fs[i].value| <= |fs|
    decreases |fs|
  {
    if fs != [] {
      var k := |fs| - 1;
      var nodes := set i | 0 <= i < |fs| && fs[i].Some? :: fs[i].value;
      var rest := set i | 0 <= i < k && fs[..k][i].Some? :: fs[..k][i].value;
      FingersNameFew(fs[..k]);
      assert nodes == rest + if fs[k].Some? then {fs[k].value} else {};
    }
  }

  /** No member needs more than m + 1 stabilizations, or checks. */
  lemma NeedsAreBounded(m: nat, net: Net, live: set<Id>, n: Id)
    requires Shaped(m, net, live) && n in live
    ensures |Failed(net[n], live)| <= m + 1 && StabilizesNeeded(m, net, live, n) <= m + 1
  {
    var t := net[n];
    FingersNameFew(t.fingers);
    var all := t.Nodes() + if t.pred.Some? then {t.pred.value} else {};
    SubsetSize(Failed(t, live), all);
    SubsetSize(Ahead(t, live), t.Nodes());
  }

  /** After any failures that leave every member with the next live one among its fingers, any interleaving of checks
      and stabilizations makes the correct ring of the members that are left, if every member makes m + 1 stabilizations
      and none of them meets a live successor that still has a failed predecessor. */
  lemma RepairsRing(m: nat, net: Net, live: set<Id>, tasks: seq<Task>)
    requires Good(m, net, live) && Company(live) && forall task :: task in tasks ==> task.n in live
    requires Guarded(m, net, live, tasks)
    requires forall n {:trigger Count(tasks, StabilizeOf(n))} :: n in live ==> Count(tasks, StabilizeOf(n)) > m
    ensures CorrectRing(m, Work(m, net, live, tasks), live)
  {
    forall n | n in live ensures Count(tasks, StabilizeOf(n)) >= StabilizesNeeded(m, net, live, n) {
      NeedsAreBounded(m, net, live, n);
    }
    WorkJoins(m, net, live, tasks);
    AllJoinedIsRing(m, Work(m, net, live, tasks), live);
  }

  lemma AllJoinedIsRing(m: nat, net: Net, live: set<Id>)
    requires Good(m, net, live) && Company(live)
    requires forall n {:trigger Joined(m, net, live, n)} :: n in live ==> Joined(m, net, live, n)
    ensures CorrectRing(m, net, live)
  {
    forall n {:trigger Settled(net[n], live)} | n in live ensures Settled(net[n], live) {
      assert Accompanied(live, n);
      JoinedIsLinked(m, net, live, n);
    }
  }

  // ---- Checks first ----

  ghost predicate AllFreed(net: Net, live: set<Id>)
    requires live <= net.Keys
  {
    forall n {:trigger Freed(net[n], live)} :: n in live ==> Freed(net[n], live)
  }

  lemma StabilizeKeepsFreed(m: nat, net: Net, live: set<Id>, n: Id)
    requires Good(m, net, live) && n in live && Accompanied(live, n) && AllFreed(net, live)
    ensures AllFreed(Stabilize(m, net, live, n), live)
  {
    var t, net' := net[n], Stabilize(m, net, live, n);
    assert Freed(t, live);
    if t.SuccessorOrSelf() !in live {
      StabilizeDrops(m, net, live, n);
      DropFailed(t, live, t.SuccessorOrSelf());
    } else {
      assert Freed(net[t.SuccessorOrSelf()], live);
      JoinsNext(m, net, live, n);
    }
    forall k | k in live ensures Freed(net'[k], live) {
      assert Freed(net[k], live);
    }
  }

  lemma {:induction false} FreedIsGuarded(m: nat, net: Net, live: set<Id>, tasks: seq<Task>)
    requires Good(m, net, live) && Company(live) && AllFreed(net, live)
    requires forall task :: task in tasks ==> task.n in live && task.StabilizeOf?
    ensures Guarded(m, net, live, tasks)
    decreases |tasks|
  {
    if tasks != [] {
      assert tasks[0] in tasks && Accompanied(live, tasks[0].n);
      var n := tasks[0].n;
      var y := net[n].SuccessorOrSelf();
      assert y in live ==> Freed(net[y], live);
      StabilizeStep(m, net, live, n);
      StabilizeKeepsFreed(m, net, live, n);
      FreedIsGuarded(m, Stabilize(m, net, live, n), live, tasks[1..]);
    }
  }

  /** At most that many checks free a router. */
  function ChecksNeeded(t: Table, live: set<Id>): nat {
    if Freed(t, live) then 0 else |Failed(t, live)|
  }

  ghost predicate EnoughChecks(net: Net, live: set<Id>, tasks: seq<Task>)
    requires live <= net.Keys
  {
    forall n {:trigger Count(tasks, CheckOf(n))} :: n in live ==> Count(tasks, CheckOf(n)) >= ChecksNeeded(net[n], live)
  }

  lemma ChecksLeft(m: nat, net: Net, live: set<Id>, tasks: seq<Task>)
    requires Good(m, net, live) && tasks != [] && tasks[0].CheckOf? && tasks[0].n in live &&
             Accompanied(live, tasks[0].n)
    requires EnoughChecks(net, live, tasks)
    ensures Good(m, Check(m, net, live, tasks[0].n), live) &&
            EnoughChecks(Check(m, net, live, tasks[0].n), live, tasks[1..])
  {
    var net' := Check(m, net, live, tasks[0].n);
    CheckStep(m, net, live, tasks[0].n);
    forall n | n in live ensures Count(tasks[1..], CheckOf(n)) >= ChecksNeeded(net'[n], live) {
      assert Count(tasks, CheckOf(n)) >= ChecksNeeded(net[n], live);
    }
  }

  lemma SomeFailed(t: Table, live: set<Id>)
    requires !Freed(t, live)
    ensures ChecksNeeded(t, live) > 0
  {
    assert t.pred.value in Failed(t, live);
  }

  /** Enough checks of every member guard all the stabilizations that follow. */
  lemma {:induction false} ChecksGuard(m: nat, net: Net, live: set<Id>, checks: seq<Task>, stabilizes: seq<Task>)
    requires Good(m, net, live) && Company(live) && EnoughChecks(net, live, checks)
    requires forall task :: task in checks ==> task.n in live && task.CheckOf?
    requires forall task :: task in stabilizes ==> task.n in live && task.StabilizeOf?
    ensures Guarded(m, net, live, checks + stabilizes)
    decreases |checks|
  {
    if checks == [] {
      assert checks + stabilizes == stabilizes;
      forall n | n in live ensures Freed(net[n], live) {
        assert Count(checks, CheckOf(n)) == 0;
        if !Freed(net[n], live) {
          SomeFailed(net[n], live);
        }
      }
      FreedIsGuarded(m, net, live, stabilizes);
    } else {
      assert checks[0] in checks && Accompanied(live, checks[0].n);
      ChecksLeft(m, net, live, checks);
      ChecksGuard(m, Check(m, net, live, checks[0].n), live, checks[1..], stabilizes);
      assert (checks + stabilizes)[1..] == checks[1..] + stabilizes;
    }
  }

  lemma {:induction false} CountConcat(a: seq<Task>, b: seq<Task>, task: Task)
    ensures Count(a + b, task) == Count(a, task) + Count(b, task)
  {
    if a == [] {
      assert a + b == b;
    } else {
      CountConcat(a[1..], b, task);
      assert (a + b)[1..] == a[1..] + b;
    }
  }

  /** So m + 1 checks and then m + 1 stabilizations of every member repair the ring, each in any order. */
  lemma ChecksFirstRepairRing(m: nat, net: Net, live: set<Id>, checks: seq<Task>, stabilizes: seq<Task>)
    requires Good(m, net, live) && Company(live)
    requires forall task :: task in checks ==> task.n in live && task.CheckOf?
    requires forall task :: task in stabilizes ==> task.n in live && task.StabilizeOf?
    requires forall n {:trigger Count(checks, CheckOf(n))} :: n in live ==> Count(checks, CheckOf(n)) > m
    requires forall n {:trigger Count(stabilizes, StabilizeOf(n))} :: n in live ==>
             Count(stabilizes, StabilizeOf(n)) > m
    ensures CorrectRing(m, Work(m, net, live, checks + stabilizes), live)
  {
    forall n | n in live ensures Count(checks, CheckOf(n)) >= ChecksNeeded(net[n], live) {
      NeedsAreBounded(m, net, live, n);
    }
    ChecksGuard(m, net, live, checks, stabilizes);
    forall n | n in live ensures Count(checks + stabilizes, StabilizeOf(n)) > m {
      CountConcat(checks, stabilizes, StabilizeOf(n));
    }
    RepairsRing(m, net, live, checks + stabilizes);
  }

  // ---- What an unguarded stabilization can do ----

  /** Some finger of `t` starts between the nodes, or at the first of them. */
  ghost predicate StartBetween(t: Table, d: Id, y: Id) {
    exists i :: 0 <= i < t.m && t.Off(d) <= Offset(t.m, t.self, i) < t.Off(y)
  }

  lemma AdoptedAtFinger(t: Table, d: Id, y: Id, i: nat)
    requires t.Consistent() && t.fingers[0] == Some(y) && IsId(t.m, d) && 0 < t.Off(d) < t.Off(y) && i < t.m
    ensures t.Update(d).fingers[i] == Some(y) <==> t.Off(d) <= Offset(t.m, t.self, i) < t.Off(y)
  {
    OffsetsOrdered(t, 0, i);
    assert t.Nearest(0, t.Nodes()) && t.Nearest(i, t.Nodes()) && y in t.Nodes();
    ImprovesIsNearer(t, i, d);
  }

  /** A router that adopts a failed node in front of the next live one still knows the latter if and only if one of its
      fingers starts in between. */
  lemma AdoptedKeepsNext(t: Table, live: set<Id>, d: Id)
    requires t.Consistent() && t.fingers[0].Some? && IsSucc(t.m, live, t.self, t.fingers[0].value)
    requires t.fingers[0].value != t.self && IsId(t.m, d) && d !in live && 0 < t.Off(d) < t.Off(t.fingers[0].value)
    requires t.self in live && Ids(t.m, live)
    ensures KnowsNext(t.Update(d), live) <==> StartBetween(t, d, t.fingers[0].value)
  {
    var y, u := t.fingers[0].value, t.Update(d);
    forall i | 0 <= i < t.m ensures u.fingers[i] == Some(y) <==> t.Off(d) <= Offset(t.m, t.self, i) < t.Off(y) {
      AdoptedAtFinger(t, d, y, i);
    }
    assert forall z :: IsSucc(t.m, live, t.self, z) ==> z == y;
    if KnowsNext(u, live) {
      var i :| 0 <= i < t.m && u.fingers[i] == Some(y);
      assert StartBetween(t, d, y);
    }
    if StartBetween(t, d, y) {
      var i :| 0 <= i < t.m && t.Off(d) <= Offset(t.m, t.self, i) < t.Off(y);
      assert u.fingers[i] == Some(y) && y in u.Nodes();
    }
  }

  /** A stabilization that meets a live successor with a failed predecessor in between keeps every member listing the
      next live one if and only if a finger of the node starts between the two. */
  lemma UnguardedKeepsGood(m: nat, net: Net, live: set<Id>, n: Id, y: Id, d: Id)
    requires Good(m, net, live) && n in live && net[n].fingers[0] == Some(y) && y in live && y != n
    requires net[y].pred == Some(d) && d !in live && Between(n, d, y)
    ensures Good(m, Stabilize(m, net, live, n), live) <==> StartBetween(net[n], d, y)
  {
    var u, net' := net[n].Update(d), Stabilize(m, net, live, n);
    FirstFingerIsNext(net[n], live);
    AdoptedKeepsNext(net[n], live, d);
    UpdateConsistent(net[n], d);
    assert net'[n] == u;
    if KnowsNext(u, live) {
      if u.fingers[0] == Some(y) {
        UpdateKeepsNext(net[y], live, n);
      }
    }
  }

  /** A place `y` behind the last finger start of 0, from where 0 is past the first one. */
  lemma Place(m: nat) returns (y: Id)
    requires m >= 4
    ensures IsId(m, y) && y > 1 && Dist(m, 0, y) > Offset(m, 0, 0) && Dist(m, y, 0) > Offset(m, y, 0)
    ensures forall i :: 0 <= i < m ==> Offset(m, 0, i) < y - 1
  {
    y := Pow2(m) - 3;
    assert Pow2(m) == 2 * Pow2(m - 1) && Pow2(m - 1) == 2 * Pow2(m - 2) && Pow2(m - 2) == 2 * Pow2(m - 3);
    assert Pow2(m - 3) == 2 * Pow2(m - 4) && Pow2(0) == 1;
    OffsetIsPower(m, y, 0);
    forall i | 0 <= i < m ensures Offset(m, 0, i) < y - 1 {
      OffsetIsPower(m, 0, i);
      if i < m - 1 {
        Pow2Increases(i, m - 1);
      }
    }
    assert Offset(m, 0, 0) < y - 1;
  }

  /** A router that has been told of one node. */
  lemma ToldOne(m: nat, n: Id, y: Id) returns (t: Table)
    requires m >= 2 && IsId(m, n) && IsId(m, y) && Dist(m, n, y) > Offset(m, n, 0)
    ensures t == Empty(m, n).UpdateAll([y]) && t.Consistent() && t.m == m && t.self == n && t.fingers[0] == Some(y)
  {
    var xs := [y];
    t := Empty(m, n).UpdateAll(xs);
    UpdatesRefineSet(m, n, xs);
    assert y in Given(xs) && t.Nearest(0, Given(xs));
  }

  /** A router that has been told of two nodes, the second one nearer in front. */
  lemma ToldTwo(m: nat, n: Id, d: Id, y: Id) returns (t: Table)
    requires m >= 2 && IsId(m, n) && IsId(m, y) && IsId(m, d) && Offset(m, n, 0) < Dist(m, n, y) < Dist(m, n, d)
    ensures t == Empty(m, n).UpdateAll([d, y]) && t.Consistent() && t.m == m && t.self == n
    ensures t.fingers[0] == Some(y) && t.pred == Some(d)
  {
    var xs := [d, y];
    t := Empty(m, n).UpdateAll(xs);
    UpdatesRefineSet(m, n, xs);
    assert d in Given(xs) && y in Given(xs) && t.Nearest(0, Given(xs));
  }

  lemma TwoAreGood(m: nat, net: Net, y: Id)
    requires y != 0 && net.Keys == {0, y} && IsId(m, 0) && IsId(m, y)
    requires net[0].Consistent() && net[0].m == m && net[0].self == 0 && net[0].fingers[0] == Some(y)
    requires net[y].Consistent() && net[y].m == m && net[y].self == y && net[y].fingers[0] == Some(0)
    ensures Good(m, net, {0, y})
  {
    assert y in net[0].Nodes() && 0 in net[y].Nodes();
  }

  /** Two live nodes list each other, and the second one has a failed predecessor right in front of it. The
      stabilization of the first one adopts the failed node and forgets the only other live one. */
  lemma UnguardedMayForget(m: nat) returns (net: Net, live: set<Id>)
    requires m >= 4
    ensures 0 in live && Good(m, net, live) && !Good(m, Stabilize(m, net, live, 0), live)
  {
    var y := Place(m);
    var a := ToldOne(m, 0, y);
    var b := ToldTwo(m, y, y - 1, 0);
    net, live := map[0 := a, y := b], {0, y};
    TwoAreGood(m, net, y);
    UnguardedKeepsGood(m, net, live, 0, y, y - 1);
    assert !StartBetween(a, y - 1, y);
  }
}
