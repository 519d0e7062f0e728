/** Finding the successor of an identifier by forwarding it from router to router, with nodes that may have died. */
module Lookup {
  import opened Options
  import opened Ring
  import opened FingerTable

  /** The routers of all nodes. A node outside the set `live` answers no call. */
  type Net = map<Id, Table>

  /** `Unfinished` says that the allowed number of forwards did not suffice. */
  datatype Answer = Found(node: Id) | Cancelled | Unfinished

  /** The ping loop: drop the successor until the first one that answers, or the node itself. */
  function DropDead(t: Table, live: set<Id>): (r: Table)
    requires t.Shape() && t.self in live
    ensures r.Shape() && r.m == t.m && r.self == t.self
    decreases |t.Nodes()|
  {
    var s := t.SuccessorOrSelf();
    if s in live then t else
      RemoveNodes(t, s);
      assert s in t.Nodes();
      DropDead(t.Remove(s), live)
  }

  ghost predicate Shaped(m: nat, net: Net, live: set<Id>) {
    && live <= net.Keys
    && forall n :: n in net ==> net[n].Shape() && net[n].m == m && net[n].self == n
  }

  /** The `successor` request for `id` at node `at`, received from `src`, with at most `budget` forwards. */
  function Successor(m: nat, net: Net, live: set<Id>, at: Id, src: Id, id: Id, budget: nat): (r: (Net, Answer))
    requires Shaped(m, net, live) && at in live && IsId(m, src)
    ensures r.0.Keys == net.Keys && Shaped(m, r.0, live)
    decreases budget, 1, 0
  {
    UpdateShape(net[at], src);
    var t := DropDead(net[at].Update(src), live);
    var net' := net[at := t];
    var s := t.SuccessorOrSelf();
    if id == at || Between(at, id, s) then (net', Found(s))
    else Forward(m, net', live, at, Preceding(t, id), id, budget)
  }

  /** Pass the request on to the candidates in turn, until one of them answers. */
  function Forward(m: nat, net: Net, live: set<Id>, at: Id, cands: seq<Id>, id: Id, budget: nat): (r: (Net, Answer))
    requires Shaped(m, net, live) && at in live
    ensures r.0.Keys == net.Keys && Shaped(m, r.0, live)
    decreases budget, 0, |cands|
  {
    if cands == [] then (net, Cancelled)
    else if cands[0] !in live then Forward(m, net, live, at, cands[1..], id, budget)
    else if budget == 0 then (net, Unfinished)
    else
      var (net', a) := Successor(m, net, live, cands[0], at, id, budget - 1);
      if a.Cancelled? then Forward(m, net', live, at, cands[1..], id, budget) else (net', a)
  }

  /** Whatever is answered is an identifier. */
  lemma {:induction false} SuccessorNamesId(m: nat, net: Net, live: set<Id>, at: Id, src: Id, id: Id, budget: nat)
    requires Shaped(m, net, live) && at in live && IsId(m, src)
    ensures var a := Successor(m, net, live, at, src, id, budget).1; a.Found? ==> IsId(m, a.node)
    decreases budget, 1, 0
  {
    UpdateShape(net[at], src);
    var t := DropDead(net[at].Update(src), live);
    ForwardNamesId(m, net[at := t], live, at, Preceding(t, id), id, budget);
  }

  lemma {:induction false} ForwardNamesId(m: nat, net: Net, live: set<Id>, at: Id, cands: seq<Id>, id: Id, budget: nat)
    requires Shaped(m, net, live) && at in live
    ensures var a := Forward(m, net, live, at, cands, id, budget).1; a.Found? ==> IsId(m, a.node)
    decreases budget, 0, |cands|
  {
    if cands != [] {
      if cands[0] !in live {
        ForwardNamesId(m, net, live, at, cands[1..], id, budget);
      } else if budget > 0 {
        SuccessorNamesId(m, net, live, cands[0], at, id, budget - 1);
        var net' := Successor(m, net, live, cands[0], at, id, budget - 1).0;
        ForwardNamesId(m, net', live, at, cands[1..], id, budget);
      }
    }
  }

  // ---- Correctness ----

  /** The next live node is among the fingers, next to any number of dead ones. */
  ghost predicate KnowsNext(t: Table, live: set<Id>) {
    forall y :: IsSucc(t.m, live, t.self, y) && y != t.self ==> y in t.Nodes()
  }

  /** The hypothesis on the network: every live node has a consistent table that lists the next live node. */
  ghost predicate Good(m: nat, net: Net, live: set<Id>) {
    && Shaped(m, net, live)
    && (forall n :: n in live ==> IsId(m, n))
    && forall n :: n in live ==> net[n].Consistent() && KnowsNext(net[n], live)
  }

  lemma UpdateKeepsNext(t: Table, live: set<Id>, x: Id)
    requires t.Consistent() && KnowsNext(t, live) && x in live
    requires forall n :: n in live ==> IsId(t.m, n)
    ensures t.Update(x).Consistent() && KnowsNext(t.Update(x), live)
  {
    var u := t.Update(x);
    UpdateConsistent(t, x);
    forall y | IsSucc(t.m, live, t.self, y) && y != t.self ensures y in u.Nodes() {
      var k :| 0 <= k < t.m && t.fingers[k] == Some(y);
      assert t.Nearest(k, t.Nodes());
      ImprovesIsNearer(t, k, x);
      assert u.fingers[k] == Some(y) || x == y;
    }
  }

  lemma FirstFingerIsNext(t: Table, live: set<Id>)
    requires t.Consistent() && KnowsNext(t, live) && t.self in live && t.SuccessorOrSelf() in live
    requires forall n :: n in live ==> IsId(t.m, n)
    ensures IsSucc(t.m, live, t.self, t.SuccessorOrSelf())
  {
    var y := SuccExists(t.m, live, t.self);
    if y != t.self {
      var k :| 0 <= k < t.m && t.fingers[k] == Some(y);
      FingersMonotone(t, t.Nodes(), 0, k);
    } else {
      assert forall z :: z in live ==> z == t.self;
    }
  }

  /** The ping loop ends at the next live node, or at the node itself when it is alone. */
  lemma {:induction false} DropDeadFindsNext(t: Table, live: set<Id>)
    requires t.Consistent() && KnowsNext(t, live) && t.self in live
    requires forall n :: n in live ==> IsId(t.m, n)
    ensures var r := DropDead(t, live);
            && r.Consistent() && KnowsNext(r, live) && r.Nodes() <= t.Nodes()
            && IsSucc(t.m, live, t.self, r.SuccessorOrSelf())
    decreases |t.Nodes()|
  {
    var s := t.SuccessorOrSelf();
    if s in live {
      FirstFingerIsNext(t, live);
    } else {
      assert s in t.Nodes();
      RemoveRebuilds(t, s);
      DropDeadFindsNext(t.Remove(s), live);
    }
  }

  /** The local answer is right: the first live node past `at` is also the first one past an identifier in between. */
  lemma LocalAnswer(m: nat, live: set<Id>, at: Id, id: Id, s: Id)
    requires IsId(m, at) && IsId(m, id) && forall n :: n in live ==> IsId(m, n)
    requires IsSucc(m, live, at, s) && (id == at || Between(at, id, s)) && at in live
    ensures IsSucc(m, live, id, s) && (id == at || id !in live)
  {}

  ghost predicate Answered(m: nat, live: set<Id>, at: Id, id: Id, budget: nat, a: Answer) {
    match a
    case Found(y) => (id == at || id !in live) && IsSucc(m, live, id, y)
    case Cancelled => false
    case Unfinished => budget < Dist(m, at, id) || (id in live && id != at)
  }

  /** Candidates of `at` for `id`: strictly on the way, and `at` itself at the end. */
  ghost predicate OnTheWay(at: Id, cands: seq<Id>, id: Id) {
    && cands != [] && cands[|cands| - 1] == at
    && forall i :: 0 <= i < |cands| - 1 ==> Between(at, cands[i], id)
  }

  /** Some candidate before the last one is alive. */
  ghost predicate SomeLive(cands: seq<Id>, live: set<Id>) {
    exists k :: 0 <= k < |cands| - 1 && cands[k] in live
  }

  lemma RestOnTheWay(at: Id, live: set<Id>, cands: seq<Id>, id: Id)
    requires at in live && OnTheWay(at, cands, id) && cands[0] !in live
    ensures OnTheWay(at, cands[1..], id) && (SomeLive(cands, live) ==> SomeLive(cands[1..], live))
  {
    if k :| 0 <= k < |cands| - 1 && cands[k] in live {
      assert cands[1..][k - 1] in live;
    }
  }

  lemma {:induction false} SuccessorAnswers(m: nat, net: Net, live: set<Id>, at: Id, src: Id, id: Id, budget: nat)
    requires Good(m, net, live) && at in live && src in live && IsId(m, id)
    ensures var (net', a) := Successor(m, net, live, at, src, id, budget);
            Good(m, net', live) && Answered(m, live, at, id, budget, a)
    decreases budget, 1, 0
  {
    UpdateKeepsNext(net[at], live, src);
    var u := net[at].Update(src);
    DropDeadFindsNext(u, live);
    var t := DropDead(u, live);
    var net' := net[at := t];
    var s := t.SuccessorOrSelf();
    assert Good(m, net', live);
    if id == at || Between(at, id, s) {
      LocalAnswer(m, live, at, id, s);
    } else {
      PrecedingNodes(t, id);
      var cands := Preceding(t, id);
      assert cands[|cands| - 1] == at;
      forall i | 0 <= i < |cands| - 1 ensures Between(at, cands[i], id) {
        assert cands[i] in cands[..|cands| - 1];
      }
      if id !in live {
        assert s in t.Nodes() && s in cands[..|cands| - 1];
        var k :| 0 <= k < |cands| - 1 && cands[k] == s;
        assert SomeLive(cands, live);
      }
      ForwardAnswers(m, net', live, at, cands, id, budget);
    }
  }

  lemma {:induction false} ForwardAnswers(m: nat, net: Net, live: set<Id>, at: Id, cands: seq<Id>, id: Id, budget: nat)
    requires Good(m, net, live) && at in live && IsId(m, id) && id != at && OnTheWay(at, cands, id)
    requires id in live || SomeLive(cands, live)
    ensures var (net', a) := Forward(m, net, live, at, cands, id, budget);
            Good(m, net', live) && Answered(m, live, at, id, budget, a)
    decreases budget, 0, |cands|
  {
    var c, rest := cands[0], cands[1..];
    if c !in live {
      RestOnTheWay(at, live, cands, id);
      ForwardAnswers(m, net, live, at, rest, id, budget);
    } else if budget > 0 {
      SuccessorAnswers(m, net, live, c, at, id, budget - 1);
    }
  }

  /** A lookup is answered exactly when the identifier is no live node other than the one asked, and the answer is
      then the first live node past it. */
  lemma LookupAnswers(m: nat, net: Net, live: set<Id>, at: Id, src: Id, id: Id)
    requires Good(m, net, live) && at in live && src in live && IsId(m, id)
    ensures (exists b: nat :: Successor(m, net, live, at, src, id, b).1.Found?) <==> id == at || id !in live
    ensures forall b: nat :: b >= Dist(m, at, id) && (id == at || id !in live) ==>
                               Successor(m, net, live, at, src, id, b).1.Found?
    ensures forall b: nat, y :: Successor(m, net, live, at, src, id, b).1 == Found(y) ==> IsSucc(m, live, id, y)
  {
    forall b: nat ensures Answered(m, live, at, id, b, Successor(m, net, live, at, src, id, b).1) {
      SuccessorAnswers(m, net, live, at, src, id, b);
    }
    if id == at || id !in live {
      assert Successor(m, net, live, at, src, id, Dist(m, at, id)).1.Found?;
    }
  }
}
