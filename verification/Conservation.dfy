/** What rebalancing does to the bytes of a file when not every member that is to hold it does. */
module Conservation {
  import opened Options
  import opened Placement
  import opened Rebalance

  /** What the members have of one file. */
  ghost predicate SameFile(a: Ring, b: Ring, u: Uri) {
    |a| == |b| && forall p :: 0 <= p < |a| ==> SameEntry(a[p], b[p], u)
  }

  lemma OtherFile(a: Ring, b: Ring, v: Uri, u: Uri)
    requires SameExcept(a, b, v) && u != v
    ensures SameFile(a, b, u)
  {
    forall p | 0 <= p < |a| ensures SameEntry(a[p], b[p], u) {
      OtherEntry(a[p], b[p], v, u);
    }
  }

  /** The member puts the file again when it rebalances. */
  predicate Refreshes(node: Node, u: Uri) {
    u in node.metas && u in node.files && node.metas[u].repl != Repl(0, 1)
  }

  lemma RebalanceTouchesOneFile(ring: Ring, home: nat, s: nat, u: Uri)
    requires s < |ring| && home < |ring|
    ensures SameExcept(ring, Rebalance.Rebalance(ring, home, s, u), u)
  {
    if Refreshes(ring[s], u) {
      PutTouchesOneFile(ring, home, home, u, ring[s].files[u], Repl(0, ring[s].metas[u].repl.count), None, true);
    }
  }

  /** From any state: a member that has lost a file, or has its only copy, rebalances all of its other files without any
      member losing or changing what it has of that one. */
  lemma {:induction false} LostFileStays(ring: Ring, ids: seq<int>, hash: Uri -> int, s: nat, us: seq<Uri>, u: Uri)
    requires s < |ring| == |ids| && !Refreshes(ring[s], u)
    ensures SameFile(ring, RebalanceAll(ring, ids, hash, s, us), u)
    decreases |us|
  {
    if us != [] {
      var v := us[0];
      var ring1 := Rebalance.Rebalance(ring, Owner(ids, hash(v)), s, v);
      if u == v {
        assert ring1 == ring;
      } else {
        RebalanceTouchesOneFile(ring, Owner(ids, hash(v)), s, v);
        OtherFile(ring, ring1, v, u);
      }
      assert SameEntry(ring[s], ring1[s], u);
      LostFileStays(ring1, ids, hash, s, us[1..], u);
    }
  }

  // ---- The failure of a predecessor ----

  /** From any state: upon the failure of its predecessor a member leaves everything as it is unless it has the file as
      a further copy. If it does, it stores its bytes, once more, on all of the first members if and only if none of
      them is stale. */
  lemma FailureRefreshes(ring: Ring, home: nat, s: nat, u: Uri)
    requires s < |ring| && home < |ring|
    ensures var ring' := RebalanceReplicas(ring, home, s, u);
            if Refreshes(ring[s], u) && ring[s].metas[u].repl.index >= 1 && ring[s].metas[u].repl.count > 1 then
              var data, k := ring[s].files[u], ring[s].metas[u].repl.count;
              Stored(ring', home, u, data, k) <==> NobodyStale(ring, home, u, data, k)
            else ring' == ring
  {
    if Refreshes(ring[s], u) && ring[s].metas[u].repl.index >= 1 && ring[s].metas[u].repl.count > 1 {
      PutStoresIffNotStale(ring, home, u, ring[s].files[u], ring[s].metas[u].repl.count, true);
    }
  }

  // ---- The bytes of a file ----

  /** All stored copies of the file have the same bytes. */
  ghost predicate Agree(ring: Ring, u: Uri, data: Bytes) {
    forall p :: 0 <= p < |ring| && u in ring[p].files ==> ring[p].files[u] == data
  }

  /** The member records the digest of the file without having it. */
  predicate HasLost(node: Node, u: Uri, data: Bytes) {
    u !in node.files && u in node.metas && node.metas[u].digest == Sha(data)
  }

  /** The members that a put of `k` copies gets to: the owner always, whatever the count. */
  function Reached(ring: Ring, k: Uint32): nat
    requires ring != []
  {
    if k == 0 then 1 else Copies(ring, k)
  }

  lemma {:induction false} DelOnlyDrops(ring: Ring, at: nat, u: Uri, src: Option<nat>)
    requires at < |ring|
    ensures var ring' := Del(ring, at, u, src).ring;
            forall p :: 0 <= p < |ring| ==> ring'[p] == ring[p] || ring'[p] == ring[p].Drop(u)
    decreases Holders(ring, u)
  {
    if src != Some(at) && u in ring[at].metas {
      var next, ring1 := Succ(|ring|, at), ring[at := ring[at].Drop(u)];
      if PassesOn(ring[at], u) && next != at {
        assert at in Holders(ring, u) && at !in Holders(ring1, u);
        DelOnlyDrops(ring1, next, u, Some(src.Or(at)));
        assert ring[at].Drop(u).Drop(u) == ring[at].Drop(u);
      }
    }
  }

  lemma DelKeepsAgreement(ring: Ring, at: nat, u: Uri, src: Option<nat>, data: Bytes)
    requires at < |ring| && Agree(ring, u, data)
    ensures Agree(Del(ring, at, u, src).ring, u, data)
  {
    DelOnlyDrops(ring, at, u, src);
  }

  /** The ring after a rebalancing put, apart from the trailing delete. */
  lemma PutAgreesIf(ring: Ring, home: nat, u: Uri, data: Bytes, k: Uint32)
    requires home < |ring| && Agree(ring, u, data) && 1 <= k && NobodyStale(ring, home, u, data, k)
    ensures Agree(Put(ring, home, home, u, data, Repl(0, k), None, true), u, data)
  {
    var full := Fill(ring, home, u, data, k, 0);
    PutFills(ring, home, home, u, data, k, 0, None, true);
    FilledHold(ring, home, u, data, k);
    if k < |ring| {
      DelKeepsAgreement(full, At(|ring|, home, k), u, Some(home), data);
    }
  }

  lemma PutAgreesOnlyIf(ring: Ring, home: nat, u: Uri, data: Bytes, k: Uint32, h: nat)
    requires home < |ring| && 1 <= k && h < Copies(ring, k) && StaleAt(ring, home, u, data, h)
    ensures !Agree(Put(ring, home, home, u, data, Repl(0, k), None, true), u, data)
  {
    var i := StaleShows(ring, home, u, data, 0, h);
    PutCarries(ring, home, u, data, k, true, i);
  }

  /** A put of no copies stores one nevertheless. */
  lemma PutOfNone(ring: Ring, home: nat, u: Uri, data: Bytes)
    requires home < |ring| && Agree(ring, u, data)
    ensures Agree(Put(ring, home, home, u, data, Repl(0, 0), None, true), u, data) <==> !ring[home].Stale(u, data)
  {
    var ring1, next := ring[home := ring[home].Store(u, data, Repl(0, 0))], Succ(|ring|, home);
    if next == home {
      assert Put(ring, home, home, u, data, Repl(0, 0), None, true) == ring1;
      assert ring1[home].files[u] == ring[home].Kept(u, data);
    } else {
      assert Put(ring, home, home, u, data, Repl(0, 0), None, true) == Del(ring1, next, u, Some(home)).ring;
      assert Rank(|ring|, home, next) == 1;
      DelSpares(ring1, home, next, u, 1);
      assert Rank(|ring|, home, home) == 0;
      if !ring[home].Stale(u, data) {
        DelKeepsAgreement(ring1, next, u, Some(home), data);
      }
    }
  }

  /** If all stored copies of a file agree, then they do so after a rebalancing, with the same bytes, if and only if the
      rebalancing member does not put the file again, or the file is empty, or no member that the put gets to has lost
      its copy. */
  lemma RebalanceKeepsBytes(ring: Ring, home: nat, s: nat, u: Uri, data: Bytes)
    requires s < |ring| && home < |ring| && Agree(ring, u, data)
    ensures Agree(Rebalance.Rebalance(ring, home, s, u), u, data) <==>
            !Refreshes(ring[s], u) || data == []
            || forall i: nat :: i < Reached(ring, ring[s].metas[u].repl.count) ==>
                                  !HasLost(ring[At(|ring|, home, i)], u, data)
  {
    if Refreshes(ring[s], u) {
      var k := ring[s].metas[u].repl.count;
      forall i: nat | i < |ring|
        ensures StaleAt(ring, home, u, data, i) <==> data != [] && HasLost(ring[At(|ring|, home, i)], u, data)
      {}
      if k == 0 {
        PutOfNone(ring, home, u, data);
        assert At(|ring|, home, 0) == home;
      } else if h: nat :| h < Copies(ring, k) && StaleAt(ring, home, u, data, h) {
        PutAgreesOnlyIf(ring, home, u, data, k, h);
      } else {
        PutAgreesIf(ring, home, u, data, k);
      }
    }
  }

  /** A ring of three in which the second member has lost its copy. */
  function SecondLost(u: Uri, data: Bytes): Ring {
    var digest := Sha(data);
    [Node(map[u := data], map[u := Meta(Repl(0, 3), digest)]), Node(map[], map[u := Meta(Repl(1, 3), digest)]),
      Node(map[u := data], map[u := Meta(Repl(2, 3), digest)])]
  }

  /** The rebalancing by the owner makes an empty file of the lost copy, and of the good one behind it. */
  lemma RebalanceMayOverwrite(u: Uri, data: Bytes)
    requires Sha(data) != Sha([])
    ensures var ring := SecondLost(u, data);
            var ring' := Rebalance.Rebalance(ring, 0, 0, u);
            && Agree(ring, u, data) && u in ring[2].files && ring[2].files[u] == data
            && u in ring'[2].files && ring'[2].files[u] == []
  {
    var ring := SecondLost(u, data);
    PutFills(ring, 0, 0, u, data, 3, 0, None, true);
    assert ring[0].Kept(u, data) == data && ring[1].Kept(u, data) == [] && ring[2].Kept(u, []) == [];
    assert Carried(ring, 0, u, [], 2, 2) == [];
    assert Carried(ring, 0, u, data, 1, 2) == [];
    assert Carried(ring, 0, u, data, 0, 2) == [];
  }
}
