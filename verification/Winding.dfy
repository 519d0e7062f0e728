/** When a state that no stabilization changes is one ring: exactly if the successor pointers wind around once. */
module Winding {
  import opened Options
  import opened Ring
  import opened Collections
  import opened FingerTable
  import opened Lookup
  import opened Routing
  import opened Neighbours
  import opened Stabilization

  /** The arc from `n` leads to another member. */
  ghost predicate Arc(f: map<Id, Id>, s: set<Id>, n: Id) {
    n in f && f[n] in s && f[n] != n
  }

  ghost predicate Meet(f: map<Id, Id>, a: Id, b: Id) {
    a in f && b in f && f[a] == f[b]
  }

  /** A successor map on the members, with every member the successor of exactly one other. */
  ghost predicate Rotates(f: map<Id, Id>, s: set<Id>) {
    && f.Keys == s
    && (forall n {:trigger Arc(f, s, n)} :: n in s ==> Arc(f, s, n))
    && forall a, b {:trigger Meet(f, a, b)} :: Meet(f, a, b) ==> a == b
  }

  lemma ImageSize(f: map<Id, Id>, s: set<Id>, d: set<Id>)
    requires Rotates(f, s) && d <= s
    ensures |set n | n in d :: f[n]| == |d|
  {
    forall a, b | a in d && b in d && f[a] == f[b] ensures a == b {
      assert Meet(f, a, b);
    }
    InjectiveImage(f, d);
  }

  lemma ArcsLand(f: map<Id, Id>, s: set<Id>)
    requires Rotates(f, s)
    ensures (set n | n in s :: f[n]) <= s
  {
    forall y | y in (set n | n in s :: f[n]) ensures y in s {
      var n :| n in s && f[n] == y;
      assert Arc(f, s, n);
    }
  }

  lemma Before(f: map<Id, Id>, s: set<Id>, x: Id) returns (n: Id)
    requires Rotates(f, s) && x in s
    ensures n in s && f[n] == x && n != x
  {
    var image := set n | n in s :: f[n];
    ImageSize(f, s, s);
    ArcsLand(f, s);
    if x !in image {
      SubsetSize(image, s - {x});
      assert false;
    }
    n :| n in s && f[n] == x;
    assert Arc(f, s, n);
  }

  /** `n` is the only member whose successor lies past the origin of the circle. */
  ghost predicate OnlyWrap(f: map<Id, Id>, s: set<Id>, n: Id)
    requires f.Keys == s
  {
    n in s && f[n] < n && forall k :: k in s && f[k] < k ==> k == n
  }

  function Up(f: map<Id, Id>, c: Id): set<Id> {
    set n | n in f && n < c <= f[n]
  }

  function Down(f: map<Id, Id>, c: Id): set<Id> {
    set n | n in f && f[n] < c <= n
  }

  lemma SameRest(a: set<Id>, b: set<Id>)
    requires |a| == |b|
    ensures |a - b| == |b - a|
  {
    assert a == (a * b) + (a - b) && b == (a * b) + (b - a);
  }

  /** As many members lie below a cut as have a successor below it. */
  lemma BelowCut(f: map<Id, Id>, s: set<Id>, c: Id)
    requires Rotates(f, s)
    ensures |set n | n in s && n < c| == |set n | n in s && f[n] < c|
  {
    var low, from := set n | n in s && n < c, set n | n in s && f[n] < c;
    ImageSize(f, s, from);
    var image := set n | n in from :: f[n];
    forall x | x in low ensures x in image {
      var n := Before(f, s, x);
      assert n in from;
    }
    forall x | x in image ensures x in low {
      var n :| n in from && f[n] == x;
      assert Arc(f, s, n);
    }
    assert image == low;
  }

  /** As many arcs lead over a cut upwards as downwards. */
  lemma CrossingsBalance(f: map<Id, Id>, s: set<Id>, c: Id)
    requires Rotates(f, s)
    ensures |Up(f, c)| == |Down(f, c)|
  {
    var low, from := set n | n in s && n < c, set n | n in s && f[n] < c;
    BelowCut(f, s, c);
    SameRest(low, from);
    assert Up(f, c) == low - from && Down(f, c) == from - low;
  }

  /** With one wrap, no cut is crossed upwards by two arcs. */
  lemma OneArcUp(f: map<Id, Id>, s: set<Id>, n: Id, c: Id, a: Id, b: Id)
    requires Rotates(f, s) && OnlyWrap(f, s, n)
    requires a in s && b in s && a < c <= f[a] && b < c <= f[b]
    ensures a == b
  {
    CrossingsBalance(f, s, c);
    SubsetSize(Down(f, c), {n});
    SubsetSize({a, b}, Up(f, c));
  }

  lemma LowestAndHighest(m: nat, s: set<Id>) returns (lo: Id, hi: Id)
    requires s != {} && Ids(m, s)
    ensures lo in s && hi in s && forall n :: n in s ==> lo <= n <= hi
  {
    lo := SuccExists(m, s, -1);
    hi := PredExists(m, s, Pow2(m));
    forall n | n in s ensures lo <= n <= hi {
      assert Dist(m, -1, lo) <= Dist(m, -1, n);
      assert Dist(m, hi, Pow2(m)) <= Dist(m, n, Pow2(m));
    }
  }

  lemma NothingSkipped(m: nat, f: map<Id, Id>, s: set<Id>, only: Id, n: Id, x: Id)
    requires Ids(m, s) && Rotates(f, s) && OnlyWrap(f, s, only) && n in s && x in s
    ensures !Between(n, x, f[n])
  {
    assert Arc(f, s, n);
    if Between(n, x, f[n]) {
      if n == only {
        var lo, hi := LowestAndHighest(m, s);
        assert Arc(f, s, hi);
        if x < n {
          // the arc that reaches the lowest member is a second wrap
          var p := Before(f, s, lo);
        }
      } else {
        assert Arc(f, s, x);
        var p := Before(f, s, x);
        if p < x {
          OneArcUp(f, s, only, x, n, p);
        } else {
          OneArcUp(f, s, only, x + 1, n, x);
        }
      }
      assert false;
    }
  }

  /** The successor map leads every member to the next one on the circle. */
  ghost predicate InOrder(m: nat, f: map<Id, Id>, s: set<Id>) {
    forall n {:trigger Arc(f, s, n)} :: n in s ==> Arc(f, s, n) && IsSucc(m, s, n, f[n])
  }

  lemma OneWrapInOrder(m: nat, f: map<Id, Id>, s: set<Id>, only: Id)
    requires Ids(m, s) && Rotates(f, s) && OnlyWrap(f, s, only)
    ensures InOrder(m, f, s)
  {
    forall n | n in s ensures Arc(f, s, n) && IsSucc(m, s, n, f[n]) {
      assert Arc(f, s, n);
      forall z | z in s && z != n ensures Dist(m, n, f[n]) <= Dist(m, n, z) {
        NothingSkipped(m, f, s, only, n, z);
        BetweenIsDistance(m, n, z, f[n]);
      }
    }
  }

  lemma InOrderWrapsOnce(m: nat, f: map<Id, Id>, s: set<Id>) returns (hi: Id)
    requires Ids(m, s) && s != {} && f.Keys == s && InOrder(m, f, s)
    ensures OnlyWrap(f, s, hi)
  {
    var lo;
    lo, hi := LowestAndHighest(m, s);
    assert Arc(f, s, hi);
    forall n | n in s && f[n] < n ensures n == hi {
      assert Arc(f, s, n);
    }
  }

  lemma NextIsMutual(m: nat, s: set<Id>, n: Id, y: Id)
    requires Ids(m, s) && n in s && y != n && IsSucc(m, s, n, y)
    ensures IsPred(m, s, y, n)
  {
    forall z | z in s && z != y ensures Dist(m, n, y) <= Dist(m, z, y) {
      if z != n {
        assert Dist(m, n, y) <= Dist(m, n, z);
      }
    }
  }

  function Successors(net: Net): map<Id, Id>
    requires forall n :: n in net ==> net[n].Shape()
  {
    map n | n in net :: net[n].SuccessorOrSelf()
  }

  /** The successor of `n` is a member and has `n` as its predecessor. */
  ghost predicate Returned(net: Net, n: Id)
    requires n in net && net[n].Shape()
  {
    var y := net[n].SuccessorOrSelf();
    y in net && y != n && net[y].pred == Some(n)
  }

  /** The predecessor of the successor of `n` lies behind `n`, but no further than the start of its first finger. */
  ghost predicate Crowded(m: nat, net: Net, n: Id)
    requires n in net && net[n].Shape()
  {
    var y := net[n].SuccessorOrSelf();
    y in net && net[y].pred.Some? && 0 < Dist(m, n, net[y].pred.value) <= Offset(m, n, 0)
  }

  lemma QuiescentReturns(m: nat, net: Net, s: set<Id>, n: Id)
    requires Stable(m, net, s) && n in s && Stabilize(m, net, s, n) == net
    ensures Returned(net, n) <==> !Crowded(m, net, n)
    ensures Spaced(m, s) ==> Returned(net, n)
  {
    QuiescentSuccessor(m, net, s, n);
  }

  lemma ReturnedRotates(net: Net)
    requires forall n :: n in net ==> net[n].Shape()
    requires forall n {:trigger Returned(net, n)} :: n in net ==> Returned(net, n)
    ensures Rotates(Successors(net), net.Keys)
  {
    var f := Successors(net);
    forall n | n in net ensures Arc(f, net.Keys, n) {
      assert Returned(net, n);
    }
    forall a, b | Meet(f, a, b) ensures a == b {
      assert Returned(net, a) && Returned(net, b);
    }
  }

  lemma ReturnedIsInverse(net: Net, n: Id)
    requires forall n :: n in net ==> net[n].Shape()
    requires forall n {:trigger Returned(net, n)} :: n in net ==> Returned(net, n)
    requires n in net
    ensures net[n].pred.Some? && var p := net[n].pred.value; p in net && p != n && net[p].SuccessorOrSelf() == n
  {
    ReturnedRotates(net);
    var p := Before(Successors(net), net.Keys, n);
    assert Returned(net, p);
  }

  ghost predicate Mutual(net: Net, n: Id)
    requires n in net && forall k :: k in net ==> net[k].Shape()
  {
    Returned(net, n) && net[n].pred.Some? && net[n].pred.value in net && net[net[n].pred.value].SuccessorOrSelf() == n
  }

  /** Successor and predecessor are inverse bijections on the members. */
  ghost predicate Inverse(net: Net)
    requires forall n :: n in net ==> net[n].Shape()
  {
    forall n {:trigger Mutual(net, n)} :: n in net ==> Mutual(net, n)
  }

  lemma ReturnedAreInverse(net: Net)
    requires forall n :: n in net ==> net[n].Shape()
    requires forall n {:trigger Returned(net, n)} :: n in net ==> Returned(net, n)
    ensures Inverse(net)
  {
    forall n | n in net ensures Mutual(net, n) {
      ReturnedIsInverse(net, n);
      assert Returned(net, n);
    }
  }

  ghost predicate NobodyCrowded(m: nat, net: Net)
    requires forall n :: n in net ==> net[n].Shape()
  {
    forall n {:trigger Crowded(m, net, n)} :: n in net ==> !Crowded(m, net, n)
  }

  lemma QuiescentUncrowdedReturn(m: nat, net: Net, s: set<Id>)
    requires Stable(m, net, s) && Quiescent(m, net, s) && (NobodyCrowded(m, net) || Spaced(m, s))
    ensures Inverse(net)
  {
    forall n | n in net ensures Returned(net, n) {
      assert Stabilize(m, net, s, n) == net;
      QuiescentReturns(m, net, s, n);
    }
    ReturnedAreInverse(net);
  }

  /** In a state that no stabilization changes, successor and predecessor are inverse bijections if and only if no
      member is crowded; so they are if no two members are too close. */
  lemma QuiescentIsInverse(m: nat, net: Net, s: set<Id>)
    requires Stable(m, net, s) && Quiescent(m, net, s)
    ensures Inverse(net) <==> NobodyCrowded(m, net)
    ensures Spaced(m, s) ==> Inverse(net)
  {
    if NobodyCrowded(m, net) || Spaced(m, s) {
      QuiescentUncrowdedReturn(m, net, s);
    }
    if Inverse(net) {
      forall n | n in net ensures !Crowded(m, net, n) {
        assert Stabilize(m, net, s, n) == net && Mutual(net, n);
        QuiescentReturns(m, net, s, n);
      }
    }
  }

  lemma NextReturnedIsLinked(m: nat, net: Net, s: set<Id>, p: Id, n: Id)
    requires Shaped(m, net, s) && Ids(m, s) && p in s && n in s
    requires Returned(net, p) && net[p].SuccessorOrSelf() == n
    requires IsSucc(m, s, p, n) && IsSucc(m, s, n, net[n].SuccessorOrSelf())
    ensures Linked(net[n], s)
  {
    NextIsMutual(m, s, p, n);
  }

  lemma InOrderIsRing(m: nat, net: Net, s: set<Id>)
    requires Stable(m, net, s)
    requires forall n {:trigger Returned(net, n)} :: n in net ==> Returned(net, n)
    requires Rotates(Successors(net), s) && InOrder(m, Successors(net), s)
    ensures CorrectRing(m, net, s)
  {
    var f := Successors(net);
    forall n | n in s ensures Settled(net[n], s) {
      var p := Before(f, s, n);
      assert Arc(f, s, p) && Arc(f, s, n) && Returned(net, p);
      NextReturnedIsLinked(m, net, s, p, n);
      assert Healthy(net[n], s);
    }
  }

  /** A state that no stabilization changes is the correct ring of all members if and only if no two members are too
      close and the successor pointer of exactly one member passes the origin. */
  lemma QuiescentRingIffOneWrap(m: nat, net: Net, s: set<Id>)
    requires s != {} && Stable(m, net, s) && Quiescent(m, net, s)
    ensures CorrectRing(m, net, s) <==> Spaced(m, s) && exists n :: OnlyWrap(Successors(net), s, n)
  {
    if CorrectRing(m, net, s) {
      RingIsSpaced(m, net, s);
    }
    if Spaced(m, s) {
      SpacedRingIffOneWrap(m, net, s);
    }
  }

  lemma SpacedRingIffOneWrap(m: nat, net: Net, s: set<Id>)
    requires s != {} && Stable(m, net, s) && Spaced(m, s) && Quiescent(m, net, s)
    ensures CorrectRing(m, net, s) <==> exists n :: OnlyWrap(Successors(net), s, n)
  {
    var f := Successors(net);
    forall n | n in net ensures Returned(net, n) {
      assert Stabilize(m, net, s, n) == net;
      QuiescentReturns(m, net, s, n);
    }
    ReturnedRotates(net);
    if only :| OnlyWrap(f, s, only) {
      OneWrapInOrder(m, f, s, only);
      InOrderIsRing(m, net, s);
    }
    if CorrectRing(m, net, s) {
      RingInOrder(m, net, s);
      var hi := InOrderWrapsOnce(m, f, s);
    }
  }

  lemma RingInOrder(m: nat, net: Net, s: set<Id>)
    requires net.Keys == s && CorrectRing(m, net, s) && Rotates(Successors(net), s)
    ensures InOrder(m, Successors(net), s)
  {
    forall n | n in s ensures Arc(Successors(net), s, n) && IsSucc(m, s, n, Successors(net)[n]) {
      assert Settled(net[n], s);
    }
  }
}
