/** The check of a predecessor, and the tasks by which a node keeps its router up to date: when they get rid of failed
    predecessors. */
module Checking {
  import opened Options
  import opened Ring
  import opened Collections
  import opened FingerTable
  import opened Lookup
  import opened Stabilization

  /** One `check` of node `n`: a predecessor that does not answer is removed, unless the node has no successor. */
  function Check(m: nat, net: Net, live: set<Id>, n: Id): (r: Net)
    requires Shaped(m, net, live) && n in net
    ensures r.Keys == net.Keys && Shaped(m, r, live)
  {
    var t := net[n];
    if t.pred.None? || t.Successor().None? || t.pred.value in live then net else
      RemoveNodes(t, t.pred.value);
      net[n := t.Remove(t.pred.value)]
  }

  /** What a node does periodically. */
  datatype Task = CheckOf(n: Id) | StabilizeOf(n: Id)

  function Perform(m: nat, net: Net, live: set<Id>, task: Task): (r: Net)
    requires Shaped(m, net, live) && task.n in net
    ensures r.Keys == net.Keys && Shaped(m, r, live)
  {
    match task
    case CheckOf(n) => Check(m, net, live, n)
    case StabilizeOf(n) => Stabilize(m, net, live, n)
  }

  /** The tasks one after the other. */
  function Work(m: nat, net: Net, live: set<Id>, tasks: seq<Task>): (r: Net)
    requires Shaped(m, net, live) && forall task :: task in tasks ==> task.n in net
    ensures r.Keys == net.Keys && Shaped(m, r, live)
    decreases |tasks|
  {
    if tasks == [] then net else Work(m, Perform(m, net, live, tasks[0]), live, tasks[1..])
  }

  // ---- Failed predecessors ----

  predicate Freed(t: Table, live: set<Id>) {
    t.pred.Some? ==> t.pred.value in live
  }

  /** The failed nodes that a router knows. */
  function Failed(t: Table, live: set<Id>): set<Id> {
    (t.Nodes() + if t.pred.Some? then {t.pred.value} else {}) - live
  }

  lemma RemoveFailedPredecessor(t: Table, live: set<Id>)
    requires t.Consistent() && !Freed(t, live)
    ensures var r := t.Remove(t.pred.value);
            && r.Consistent() && |Failed(r, live)| < |Failed(t, live)| && (r.pred.Some? ==> r.pred.value in r.Nodes())
  {
    var u := t.pred.value;
    var r := t.Remove(u);
    RemoveRebuilds(t, u);
    assert Failed(r, live) <= Failed(t, live) - {u};
    SubsetSize(Failed(r, live), Failed(t, live) - {u});
  }

  ghost predicate AllOf(tasks: seq<Task>, n: Id) {
    forall task :: task in tasks ==> task.n == n
  }

  /** The router can still get rid of a failed predecessor. */
  predicate Mendable(t: Table, live: set<Id>)
    requires t.Shape()
  {
    Freed(t, live) || t.fingers[0].Some?
  }

  lemma NodesHaveFirst(t: Table)
    requires t.Consistent()
    ensures t.fingers[0].None? <==> t.Nodes() == {}
  {
    if t.Nodes() != {} {
      var x := AnyOf(t.Nodes());
      var k :| 0 <= k < t.m && t.fingers[k] == Some(x);
      FingersMonotone(t, t.Nodes(), 0, k);
    }
    assert forall x :: t.fingers[0] == Some(x) ==> x in t.Nodes();
  }

  /** A check of a failed predecessor leaves the router mendable. */
  lemma CheckedIsMendable(t: Table, live: set<Id>)
    requires t.Consistent() && !Freed(t, live)
    ensures var r := t.Remove(t.pred.value); r.Consistent() && Mendable(r, live)
  {
    RemoveFailedPredecessor(t, live);
    NodesHaveFirst(t.Remove(t.pred.value));
  }

  /** Checks free a mendable router. */
  lemma {:induction false} ChecksFreeOne(m: nat, net: Net, live: set<Id>, n: Id) returns (tasks: seq<Task>)
    requires Shaped(m, net, live) && n in net && net[n].Consistent() && Mendable(net[n], live)
    ensures AllOf(tasks, n) && |tasks| <= |Failed(net[n], live)| && Freed(Work(m, net, live, tasks)[n], live)
    decreases |Failed(net[n], live)|
  {
    var t := net[n];
    if Freed(t, live) {
      tasks := [];
    } else {
      RemoveFailedPredecessor(t, live);
      CheckedIsMendable(t, live);
      var net' := Check(m, net, live, n);
      assert net'[n] == t.Remove(t.pred.value);
      var rest := ChecksFreeOne(m, net', live, n);
      tasks := [CheckOf(n)] + rest;
      assert tasks[1..] == rest;
    }
  }

  /** Without a finger neither task changes anything. */
  lemma {:induction false} NothingToDo(m: nat, net: Net, live: set<Id>, n: Id, tasks: seq<Task>)
    requires Shaped(m, net, live) && n in net && net[n].fingers[0].None? && AllOf(tasks, n)
    ensures Work(m, net, live, tasks) == net
    decreases |tasks|
  {
    if tasks != [] {
      assert tasks[0] in tasks;
      NothingToDo(m, net, live, n, tasks[1..]);
    }
  }

  /** Some checks and stabilizations of its own rid a node of a failed predecessor if and only if it has none, or has
      any finger left. */
  lemma FreedIffMendable(m: nat, net: Net, live: set<Id>, n: Id)
    requires Shaped(m, net, live) && n in net && net[n].Consistent()
    ensures (exists tasks :: AllOf(tasks, n) && Freed(Work(m, net, live, tasks)[n], live)) <==> Mendable(net[n], live)
  {
    if Mendable(net[n], live) {
      var tasks := ChecksFreeOne(m, net, live, n);
    }
    if tasks :| AllOf(tasks, n) && Freed(Work(m, net, live, tasks)[n], live) {
      if net[n].fingers[0].None? {
        NothingToDo(m, net, live, n, tasks);
      }
    }
  }

  // ---- A node that is left alone ----

  /** The predecessor is one of the fingers, if there is one. */
  predicate Held(t: Table) {
    t.pred.Some? ==> t.pred.value in t.Nodes()
  }

  /** A stabilization of a node that is left alone drops its first finger. */
  lemma AloneStabilizes(m: nat, net: Net, n: Id)
    requires Shaped(m, net, {n}) && net[n].Consistent() && net[n].fingers[0].Some?
    ensures var t, r := net[n], Stabilize(m, net, {n}, n)[n];
            && r == t.Remove(t.fingers[0].value) && r.Consistent() && r.Nodes() < t.Nodes()
            && (if Held(t) then Held(r) else r.pred == t.pred && !Held(r))
  {
    var t := net[n];
    assert t.fingers[0].value in t.Nodes();
    RemoveRebuilds(t, t.fingers[0].value);
  }

  lemma AloneChecks(m: nat, net: Net, n: Id)
    requires Shaped(m, net, {n}) && net[n].Consistent() && Held(net[n])
    ensures var r := Check(m, net, {n}, n)[n]; r.Consistent() && Held(r)
  {
    if !Freed(net[n], {n}) {
      RemoveFailedPredecessor(net[n], {n});
    }
  }

  lemma {:induction false} HeldIsMended(m: nat, net: Net, n: Id, tasks: seq<Task>)
    requires Shaped(m, net, {n}) && net[n].Consistent() && Held(net[n]) && AllOf(tasks, n)
    ensures Mendable(Work(m, net, {n}, tasks)[n], {n})
    decreases |tasks|
  {
    if tasks == [] {
      NodesHaveFirst(net[n]);
    } else {
      assert tasks[0] in tasks;
      if tasks[0].CheckOf? {
        AloneChecks(m, net, n);
      } else if net[n].fingers[0].Some? {
        AloneStabilizes(m, net, n);
      }
      HeldIsMended(m, Perform(m, net, {n}, tasks[0]), n, tasks[1..]);
    }
  }

  lemma {:induction false} StabilizesGetStuck(m: nat, net: Net, n: Id) returns (tasks: seq<Task>)
    requires Shaped(m, net, {n}) && net[n].Consistent() && !Held(net[n])
    ensures AllOf(tasks, n) && !Mendable(Work(m, net, {n}, tasks)[n], {n})
    decreases net[n].Nodes()
  {
    if net[n].fingers[0].None? {
      tasks := [];
    } else {
      var net' := Perform(m, net, {n}, StabilizeOf(n));
      AloneStabilizes(m, net, n);
      var rest := StabilizesGetStuck(m, net', n);
      tasks := [StabilizeOf(n)] + rest;
      assert tasks[1..] == rest;
    }
  }

  /** A node that is left alone can end up with a failed predecessor for ever if and only if its predecessor is none of
      its fingers: stabilizations may use up the fingers before a check is made. */
  lemma AloneMayGetStuck(m: nat, net: Net, n: Id)
    requires Shaped(m, net, {n}) && net[n].Consistent()
    ensures (exists tasks :: AllOf(tasks, n) && !Mendable(Work(m, net, {n}, tasks)[n], {n})) <==> !Held(net[n])
  {
    if !Held(net[n]) {
      var tasks := StabilizesGetStuck(m, net, n);
    }
    if tasks :| AllOf(tasks, n) && !Mendable(Work(m, net, {n}, tasks)[n], {n}) {
      if Held(net[n]) {
        HeldIsMended(m, net, n, tasks);
      }
    }
  }

  /** A router that has lost its last finger and kept its predecessor is stuck once that one fails, whatever it does. */
  lemma StuckForEver(m: nat, tasks: seq<Task>)
    requires m >= 4 && AllOf(tasks, 0)
    ensures var net := map[0 := Empty(m, 0).Update(Pow2(m) - 1).Update(Pow2(m) - 2).Remove(Pow2(m) - 2)];
            Shaped(m, net, {0}) && !Freed(Work(m, net, {0}, tasks)[0], {0})
  {
    SuccessorMayBeMissing(m, 0);
    var net := map[0 := Empty(m, 0).Update(Pow2(m) - 1).Update(Pow2(m) - 2).Remove(Pow2(m) - 2)];
    NothingToDo(m, net, {0}, 0, tasks);
  }
}
