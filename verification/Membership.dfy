/** Whole histories of a ring: members join, leave, fail and are repaired around, stabilize and look things up. */
module Membership {
  import opened Options
  import opened Ring
  import opened Collections
  import opened FingerTable
  import opened Lookup
  import opened Routing
  import opened Neighbours
  import opened Stabilization
  import opened Checking
  import opened Fixing
  import J = Join
  import V = Leave
  import R = Repair

  /** A leave includes the next stabilization of the predecessor; a failure includes the checks and stabilizations that
      repair the ring. */
  datatype Event =
    | Joins(at: Id, j: Id)
    | Leaves(l: Id, entries: seq<Id>)
    | Fails(dead: set<Id>, tasks: seq<Task>)
    | Stabilizes(n: Id)
    | Fixes(n: Id, i: nat)
    | Asks(at: Id, src: Id, id: Id)

  datatype World = World(net: Net, members: set<Id>)

  ghost predicate Correct(m: nat, w: World) {
    m >= 2 && CorrectRing(m, w.net, w.members)
  }

  // ---- Stabilizations change no neighbour ----

  lemma StabilizeKeepsRing(m: nat, net: Net, s: set<Id>, n: Id)
    requires CorrectRing(m, net, s) && n in s
    ensures CorrectRing(m, Stabilize(m, net, s, n), s)
  {
    var y := net[n].SuccessorOrSelf();
    assert Settled(net[n], s) && Settled(net[y], s);
    if y != n {
      assert !Between(n, net[y].pred.value, y);
      UpdateImproves(m, net, s, y, n);
    }
  }

  // ---- Histories ----

  /** What the theorems of the single operations ask for. */
  ghost predicate Possible(m: nat, w: World, e: Event)
    requires Correct(m, w)
  {
    match e
    case Joins(at, j) => at in w.members && j !in w.members && IsId(m, j) && Spaced(m, w.members + {j})
    case Leaves(l, entries) =>
      && l in w.members && w.members != {l} && V.Entries(w.net[l], entries)
      && var y, p := w.net[l].SuccessorOrSelf(), w.net[l].pred.Or(l);
         y in w.net && p in w.net && V.Undisturbed(w.net, w.members, l, y, p)
    case Fails(dead, tasks) =>
      var live := w.members - dead;
      && Good(m, w.net, live) && R.Company(live) && (forall task :: task in tasks ==> task.n in live)
      && R.Guarded(m, w.net, live, tasks)
      && forall n {:trigger R.Count(tasks, StabilizeOf(n))} :: n in live ==> R.Count(tasks, StabilizeOf(n)) > m
    case Stabilizes(n) => n in w.members
    case Fixes(n, i) => n in w.members && i < m
    case Asks(at, src, id) => at in w.members && src in w.members && IsId(m, id)
  }

  ghost function After(m: nat, w: World, e: Event): World
    requires Correct(m, w) && Possible(m, w, e)
  {
    var net, s := w.net, w.members;
    match e
    case Joins(at, j) =>
      var gap := J.Request(m, net, s, at, j, Pow2(m));
      if gap.Gap? then World(J.Link(m, net, s, j, gap), s + {j}) else w
    case Leaves(l, entries) =>
      LeaveSteps(m, w, l, entries);
      World(Stabilize(m, V.Leave(net, s - {l}, l, entries), s - {l}, net[l].pred.Or(l)), s - {l})
    case Fails(dead, tasks) => World(Work(m, net, s - dead, tasks), s - dead)
    case Stabilizes(n) => World(Stabilize(m, net, s, n), s)
    case Fixes(n, i) => World(FixFinger(m, net, s, n, i), s)
    case Asks(at, src, id) => World(Successor(m, net, s, at, src, id, Pow2(m)).0, s)
  }

  lemma LeaveSteps(m: nat, w: World, l: Id, entries: seq<Id>)
    requires Correct(m, w) && Possible(m, w, Leaves(l, entries))
    ensures var s, net1, p := w.members - {l}, V.Leave(w.net, w.members - {l}, l, entries), w.net[l].pred.Or(l);
            p in net1 && Shaped(m, net1, s) && CorrectRing(m, Stabilize(m, net1, s, p), s)
  {
    var net, s := w.net, w.members;
    assert Settled(net[l], s);
    var y, p := net[l].SuccessorOrSelf(), net[l].pred.Or(l);
    var x := AnyOf(s - {l});
    assert y != l;
    V.LeaveKeepsRing(m, net, s, l, entries, y, p);
  }

  /** Every possible event leads from a correct ring to a correct ring. */
  lemma EventKeepsRing(m: nat, w: World, e: Event)
    requires Correct(m, w) && Possible(m, w, e)
    ensures Correct(m, After(m, w, e))
  {
    match e
    case Joins(at, j) =>
      var gap := J.JoinKeepsRing(m, w.net, w.members, at, j, Pow2(m));
    case Leaves(l, entries) => LeaveSteps(m, w, l, entries);
    case Fails(dead, tasks) => R.RepairsRing(m, w.net, w.members - dead, tasks);
    case Stabilizes(n) => StabilizeKeepsRing(m, w.net, w.members, n);
    case Fixes(n, i) => FixImproves(m, w.net, w.members, n, i);
    case Asks(at, src, id) => SuccessorImproves(m, w.net, w.members, at, src, id, Pow2(m));
  }

  /** An event happens only where it is possible. Nothing is asked of a state that is not correct. */
  ghost predicate Happens(m: nat, w: World, e: Event, w': World) {
    Correct(m, w) ==> Possible(m, w, e) && w' == After(m, w, e)
  }

  ghost predicate History(m: nat, ws: seq<World>, es: seq<Event>) {
    |ws| == |es| + 1 && forall i :: 0 <= i < |es| ==> Happens(m, ws[i], es[i], ws[i + 1])
  }

  /** A node that has just been started is a correct ring of its own. */
  lemma AloneIsCorrect(m: nat, n: Id)
    requires m >= 2 && IsId(m, n)
    ensures Correct(m, World(map[n := Empty(m, n)], {n}))
  {
    EmptyIsExact(m, n);
  }

  /** In every state of every history the ring is correct. */
  lemma {:induction false} RingThroughout(m: nat, ws: seq<World>, es: seq<Event>, i: nat)
    requires History(m, ws, es) && Correct(m, ws[0]) && i <= |es|
    ensures Correct(m, ws[i])
  {
    if i > 0 {
      RingThroughout(m, ws, es, i - 1);
      assert Happens(m, ws[i - 1], es[i - 1], ws[i - 1 + 1]);
      EventKeepsRing(m, ws[i - 1], es[i - 1]);
    }
  }

  /** A history that begins with one node that has just been started. */
  lemma RingFromOneNode(m: nat, n: Id, ws: seq<World>, es: seq<Event>, i: nat)
    requires m >= 2 && IsId(m, n) && History(m, ws, es) && i <= |es|
    requires ws[0] == World(map[n := Empty(m, n)], {n})
    ensures Correct(m, ws[i])
  {
    AloneIsCorrect(m, n);
    RingThroughout(m, ws, es, i);
  }

  /** In every state of every history, every lookup of an identifier that is no member is answered rightly. */
  lemma LookupsThroughout(m: nat, ws: seq<World>, es: seq<Event>, i: nat, at: Id, src: Id, id: Id)
    requires History(m, ws, es) && Correct(m, ws[0]) && i <= |es|
    requires at in ws[i].members && src in ws[i].members && IsId(m, id) && id !in ws[i].members
    ensures Correct(m, ws[i])
    ensures exists y ::
              IsSucc(m, ws[i].members, id, y) &&
              Successor(m, ws[i].net, ws[i].members, at, src, id, Pow2(m)).1 == Found(y)
  {
    RingThroughout(m, ws, es, i);
    LookupInRing(m, ws[i].net, ws[i].members, at, src, id);
  }

  lemma LookupInRing(m: nat, net: Net, s: set<Id>, at: Id, src: Id, id: Id)
    requires CorrectRing(m, net, s) && at in s && src in s && IsId(m, id) && id !in s
    ensures exists y :: IsSucc(m, s, id, y) && Successor(m, net, s, at, src, id, Pow2(m)).1 == Found(y)
  {
    RingIsGood(m, net, s);
    SuccessorAnswers(m, net, s, at, src, id, Pow2(m));
    var a := Successor(m, net, s, at, src, id, Pow2(m)).1;
    assert Answered(m, s, at, id, Pow2(m), a);
    assert a == Found(a.node);
  }
}
