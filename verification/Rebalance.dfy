/** Rebalancing: after a node has joined or failed, a file is put again from its owner on, and the copy that has become
    one too many is deleted. */
module Rebalance {
  import opened Options
  import opened Collections
  import opened Placement

  /** `rebalance` of one file at member `s`: a file stored here with its metadata is put from copy 0 on. Single copies
      (index 0 of 1) take the metadata-only path, which is not modelled. */
  function Rebalance(ring: Ring, home: nat, s: nat, u: Uri): (r: Ring)
    requires s < |ring| && home < |ring|
    ensures |r| == |ring|
  {
    if u in ring[s].metas && u in ring[s].files && ring[s].metas[u].repl != Repl(0, 1)
    then Put(ring, home, home, u, ring[s].files[u], Repl(0, ring[s].metas[u].repl.count), None, true)
    else ring
  }

  /** On the failure of its predecessor a member rebalances what it replicates under an index of at least 1. */
  function RebalanceReplicas(ring: Ring, home: nat, s: nat, u: Uri): (r: Ring)
    requires s < |ring| && home < |ring|
    ensures |r| == |ring|
  {
    if u in ring[s].metas && ring[s].metas[u].repl.count > 1 && ring[s].metas[u].repl.index >= 1
    then Rebalance(ring, home, s, u)
    else ring
  }

  // ---- The owner of a file, by uuid ----

  ghost predicate Increasing(ids: seq<int>) {
    forall i, j :: 0 <= i < j < |ids| ==> ids[i] < ids[j]
  }

  /** The first member past `h` on the circle, where the members are listed by ascending uuid. */
  function Owner(ids: seq<int>, h: int): (o: nat)
    requires ids != []
    ensures o < |ids|
  {
    FirstPast(ids, h, 0)
  }

  function FirstPast(ids: seq<int>, h: int, i: nat): (o: nat)
    requires i <= |ids| && ids != []
    ensures o < |ids|
    ensures (forall j :: i <= j < o ==> ids[j] <= h) &&
            (ids[o] > h || (o == 0 && forall j :: i <= j < |ids| ==> ids[j] <= h))
    decreases |ids| - i
  {
    if i == |ids| then 0 else if ids[i] > h then i else FirstPast(ids, h, i + 1)
  }

  function Insert<T>(xs: seq<T>, q: nat, x: T): seq<T>
    requires q <= |xs|
  {
    xs[..q] + [x] + xs[q..]
  }

  function Delete<T>(xs: seq<T>, f: nat): seq<T>
    requires f < |xs|
  {
    xs[..f] + xs[f + 1..]
  }

  // ---- A node has joined ----

  /** The ring right after a join at position `q`: every member holds what it held before, so that members behind the
      joining node are one rank too far out. */
  ghost predicate AfterJoin(ring: Ring, home: nat, q: nat, u: Uri, data: Bytes, k: Uint32) {
    forall p :: 0 <= p < |ring| ==> Holds(ring[p], u, data, k, RankBefore(|ring|, home, q, p))
  }

  /** The rank under which member `p` holds its copy; the joined node `q` holds none. */
  function RankBefore(n: nat, home: nat, q: nat, p: nat): int {
    if p == q then -1 else if Rank(n, home, q) < Rank(n, home, p) then Rank(n, home, p) - 1 else Rank(n, home, p)
  }

  /** Where a member stands after a join at position `q`. */
  function Moved(q: nat, p: nat): nat {
    if p < q then p else p + 1
  }

  lemma Inserted(ids: seq<int>, q: nat, x: int, h: int)
    requires q <= |ids| && Increasing(ids) && Increasing(Insert(ids, q, x)) && h !in Insert(ids, q, x)
    ensures Insert(ids, q, x)[q] == x && h != x && h !in ids
    ensures forall i :: 0 <= i < |ids| ==> Insert(ids, q, x)[Moved(q, i)] == ids[i]
  {
    var ids' := Insert(ids, q, x);
    assert forall i :: 0 <= i < |ids| ==> ids'[Moved(q, i)] == ids[i];
    assert ids'[q] == x;
  }

  /** The joined node is the owner only in place of the one behind it. */
  lemma NewOwner(ids: seq<int>, h: int, q: nat, x: int)
    requires ids != [] && q <= |ids| && Increasing(ids) && Increasing(Insert(ids, q, x)) && h !in Insert(ids, q, x)
    requires Owner(Insert(ids, q, x), h) == q
    ensures Moved(q, Owner(ids, h)) == Succ(|ids| + 1, q)
  {
    var ids', o := Insert(ids, q, x), Owner(ids, h);
    Inserted(ids, q, x, h);
    assert ids'[Moved(q, o)] == ids[o];
    if q < |ids| {
      assert ids'[Moved(q, q)] == ids[q];
    }
    assert forall i :: 0 <= i < q ==> ids[i] == ids'[i];
  }

  lemma SameOwner(ids: seq<int>, h: int, q: nat, x: int)
    requires ids != [] && q <= |ids| && Increasing(ids) && Increasing(Insert(ids, q, x)) && h !in Insert(ids, q, x)
    requires Owner(Insert(ids, q, x), h) != q
    ensures Owner(Insert(ids, q, x), h) == Moved(q, Owner(ids, h))
  {
    var ids', o, o' := Insert(ids, q, x), Owner(ids, h), Owner(Insert(ids, q, x), h);
    Inserted(ids, q, x, h);
    var back := if o' < q then o' else o' - 1;
    assert Moved(q, back) == o' && ids'[o'] == ids[back] && ids'[Moved(q, o)] == ids[o];
  }

  lemma OwnerAfterInsert(ids: seq<int>, h: int, q: nat, x: int)
    requires ids != [] && q <= |ids| && Increasing(ids) && Increasing(Insert(ids, q, x)) && h !in Insert(ids, q, x)
    ensures var moved, o' := Moved(q, Owner(ids, h)), Owner(Insert(ids, q, x), h);
            o' == moved || (o' == q && moved == Succ(|ids| + 1, q))
  {
    if Owner(Insert(ids, q, x), h) == q {
      NewOwner(ids, h, q, x);
    } else {
      SameOwner(ids, h, q, x);
    }
  }

  lemma RanksAfterInsert(n: nat, o: nat, o': nat, q: nat, p: nat)
    requires o < n && p < n && q <= n && (o' == Moved(q, o) || (o' == q && Moved(q, o) == Succ(n + 1, q)))
    ensures var r, r' := Rank(n, o, p), Rank(n + 1, o', Moved(q, p));
            r == if Rank(n + 1, o', q) < r' then r' - 1 else r'
  {}

  lemma JoinShifts(ids: seq<int>, h: int, ring: Ring, q: nat, x: int, u: Uri, data: Bytes, k: Uint32)
    requires ids != [] && |ring| == |ids| && q <= |ids|
    requires Increasing(ids) && Increasing(Insert(ids, q, x)) && h !in Insert(ids, q, x)
    requires Placed(ring, Owner(ids, h), u, data, k)
    ensures AfterJoin(Insert(ring, q, Node(map[], map[])), Owner(Insert(ids, q, x), h), q, u, data, k)
  {
    OwnerAfterInsert(ids, h, q, x);
    RingShifts(ring, Owner(ids, h), Owner(Insert(ids, q, x), h), q, u, data, k);
  }

  lemma RingShifts(ring: Ring, o: nat, o': nat, q: nat, u: Uri, data: Bytes, k: Uint32)
    requires o < |ring| && q <= |ring| && Placed(ring, o, u, data, k)
    requires o' == Moved(q, o) || (o' == q && Moved(q, o) == Succ(|ring| + 1, q))
    ensures AfterJoin(Insert(ring, q, Node(map[], map[])), o', q, u, data, k)
  {
    var ring' := Insert(ring, q, Node(map[], map[]));
    forall p: nat | p < |ring'| ensures Holds(ring'[p], u, data, k, RankBefore(|ring'|, o', q, p)) {
      if p != q {
        RingShiftsAt(ring, o, o', q, u, data, k, if p < q then p else p - 1);
      }
    }
  }

  lemma RingShiftsAt(ring: Ring, o: nat, o': nat, q: nat, u: Uri, data: Bytes, k: Uint32, p: nat)
    requires o < |ring| && q <= |ring| && p < |ring| && Holds(ring[p], u, data, k, Rank(|ring|, o, p))
    requires o' == Moved(q, o) || (o' == q && Moved(q, o) == Succ(|ring| + 1, q))
    ensures Holds(Insert(ring, q, Node(map[], map[]))[Moved(q, p)], u, data, k,
            RankBefore(|ring| + 1, o', q, Moved(q, p)))
  {
    RanksAfterInsert(|ring|, o, o', q, p);
    assert Insert(ring, q, Node(map[], map[]))[Moved(q, p)] == ring[p];
  }

  /** The rebalancing by the successor of the joined node leaves exactly the first members from the owner on as
      holders. */
  lemma JoinRebalances(ring: Ring, home: nat, q: nat, u: Uri, data: Bytes, k: Uint32)
    requires home < |ring| && q < |ring| && |ring| >= 2 && 2 <= k && AfterJoin(ring, home, q, u, data, k)
    ensures var ring' := Rebalance(ring, home, Succ(|ring|, q), u);
            Placed(ring', home, u, data, k) && SameExcept(ring, ring', u)
  {
    var n, s := |ring|, Succ(|ring|, q);
    var r := Rank(n, home, s) - if Rank(n, home, q) < Rank(n, home, s) then 1 else 0;
    assert Holds(ring[s], u, data, k, r);
    if r < k {
      Refill(ring, home, u, data, k);
      PutTouchesOneFile(ring, home, home, u, data, Repl(0, k), None, true);
    } else {
      assert Rank(n, home, q) >= k;
    }
  }

  /** A rebalancing put repairs any ring in which no member that is to hold a copy is stale and the members past the
      last copy hold nothing, except that the first of them may hold what used to be the last copy. */
  lemma Refill(ring: Ring, home: nat, u: Uri, data: Bytes, k: Uint32)
    requires home < |ring| && 2 <= k
    requires forall p :: 0 <= p < |ring| && Rank(|ring|, home, p) > k ==> Holds(ring[p], u, data, k, -1)
    requires forall p :: 0 <= p < |ring| && Rank(|ring|, home, p) == k ==>
               Holds(ring[p], u, data, k, -1) || Holds(ring[p], u, data, k, k - 1)
    requires NobodyStale(ring, home, u, data, k)
    ensures Placed(Put(ring, home, home, u, data, Repl(0, k), None, true), home, u, data, k)
  {
    var full := Fill(ring, home, u, data, k, 0);
    PutFills(ring, home, home, u, data, k, 0, None, true);
    FilledHold(ring, home, u, data, k);
    if k < |ring| {
      var last := At(|ring|, home, k);
      assert Rank(|ring|, home, last) == k && full[last] == ring[last];
      TrimmedDrops(full, home, u, data, k);
    }
  }

  lemma FilledHold(ring: Ring, home: nat, u: Uri, data: Bytes, k: Uint32)
    requires home < |ring| && NobodyStale(ring, home, u, data, k)
    ensures var full := Fill(ring, home, u, data, k, 0);
            forall p :: 0 <= p < |ring| ==>
                          if Rank(|ring|, home, p) < k then Holds(full[p], u, data, k, Rank(|ring|, home, p))
                          else full[p] == ring[p]
  {
    var full := Fill(ring, home, u, data, k, 0);
    forall p: nat | p < |ring| && Rank(|ring|, home, p) < k ensures Holds(full[p], u, data, k, Rank(|ring|, home, p)) {
      CarriedFresh(ring, home, u, data, 0, Rank(|ring|, home, p));
    }
  }

  lemma TrimmedDrops(full: Ring, home: nat, u: Uri, data: Bytes, k: Uint32)
    requires home < |full| && 2 <= k < |full|
    requires var node := full[At(|full|, home, k)]; Holds(node, u, data, k, -1) || Holds(node, u, data, k, k - 1)
    ensures var last := At(|full|, home, k); Trimmed(full, home, u, k, true) == full[last := full[last].Drop(u)]
  {}

  // ---- A node has failed ----

  /** The ring right after the member of rank `f` has failed: the members behind it have moved up by one. */
  ghost predicate AfterFail(ring: Ring, home: nat, f: int, u: Uri, data: Bytes, k: Uint32) {
    var n := |ring|;
    forall p :: 0 <= p < n ==> Holds(ring[p], u, data, k, Rank(n, home, p) + if Rank(n, home, p) >= f then 1 else 0)
  }

  lemma Deleted(ids: seq<int>, f: nat, h: int)
    requires f < |ids| && Increasing(ids) && h !in ids
    ensures Increasing(Delete(ids, f)) && h !in Delete(ids, f)
    ensures forall i :: 0 <= i < |ids| - 1 ==> Delete(ids, f)[i] == ids[Moved(f, i)]
  {
    var ids' := Delete(ids, f);
    assert forall i :: 0 <= i < |ids'| ==> ids'[i] == ids[Moved(f, i)];
  }

  lemma OwnerAfterDelete(ids: seq<int>, h: int, f: nat)
    requires |ids| >= 2 && f < |ids| && Increasing(ids) && h !in ids
    ensures var o, o' := Owner(ids, h), Owner(Delete(ids, f), h);
            Moved(f, o') == if o == f then Succ(|ids|, f) else o
  {
    var ids', o, o' := Delete(ids, f), Owner(ids, h), Owner(Delete(ids, f), h);
    Deleted(ids, f, h);
    var goal := if o == f then Succ(|ids|, f) else o;
    var g := if goal < f then goal else goal - 1;
    assert Moved(f, g) == goal && ids'[g] == ids[goal] && ids'[o'] == ids[Moved(f, o')];
    assert ids[o] in ids && ids[goal] in ids && ids[Moved(f, o')] in ids;
  }

  lemma RanksAfterDelete(n: nat, o: nat, o': nat, f: nat, p: nat)
    requires n >= 2 && o < n && o' < n - 1 && f < n && p < n - 1
    requires Moved(f, o') == if o == f then Succ(n, f) else o
    ensures var r := Rank(n - 1, o', p);
            Rank(n, o, Moved(f, p)) == if r >= Rank(n, o, f) then r + 1 else r
  {}

  lemma FailShifts(ring: Ring, o: nat, o': nat, f: nat, u: Uri, data: Bytes, k: Uint32)
    requires |ring| >= 2 && o < |ring| && o' < |ring| - 1 && f < |ring| && Placed(ring, o, u, data, k)
    requires Moved(f, o') == if o == f then Succ(|ring|, f) else o
    ensures AfterFail(Delete(ring, f), o', Rank(|ring|, o, f), u, data, k)
  {
    var n, ring', r := |ring| - 1, Delete(ring, f), Rank(|ring|, o, f);
    forall p | 0 <= p < n ensures Holds(ring'[p], u, data, k, Rank(n, o', p) + if Rank(n, o', p) >= r then 1 else 0) {
      FailShiftsAt(ring, o, o', f, u, data, k, p);
    }
  }

  lemma FailShiftsAt(ring: Ring, o: nat, o': nat, f: nat, u: Uri, data: Bytes, k: Uint32, p: nat)
    requires |ring| >= 2 && o < |ring| && o' < |ring| - 1 && f < |ring| && p < |ring| - 1
    requires Moved(f, o') == (if o == f then Succ(|ring|, f) else o)
    requires Holds(ring[Moved(f, p)], u, data, k, Rank(|ring|, o, Moved(f, p)))
    ensures var n := |ring| - 1;
            Holds(Delete(ring, f)[p], u, data, k,
                  Rank(n, o', p) + if Rank(n, o', p) >= Rank(|ring|, o, f) then 1 else 0)
  {
    RanksAfterDelete(|ring|, o, o', f, p);
    assert Delete(ring, f)[p] == ring[Moved(f, p)];
  }

  /** The first member behind the gap left by rank `f`. */
  function Behind(n: nat, home: nat, f: int): int {
    if f == n then home else At(n, home, f)
  }

  /** After a failure the rebalancing by the next member restores the number of copies, unless the failed member held
      the last copy and members without a copy remain. */
  lemma FailRebalances(ring: Ring, home: nat, f: int, u: Uri, data: Bytes, k: Uint32)
    requires home < |ring| && 0 <= f <= |ring| && 2 <= k && AfterFail(ring, home, f, u, data, k)
    ensures var ring' := RebalanceReplicas(ring, home, Behind(|ring|, home, f), u);
            (Placed(ring', home, u, data, k) <==> !(f == k - 1 && k <= |ring|)) && SameExcept(ring, ring', u)
  {
    var n, s := |ring|, Behind(|ring|, home, f);
    assert Holds(ring[s], u, data, k, Rank(n, home, s) + if Rank(n, home, s) >= f then 1 else 0);
    if f < n && f + 1 < k {
      Refill(ring, home, u, data, k);
      PutTouchesOneFile(ring, home, home, u, data, Repl(0, k), None, true);
    } else if f == k - 1 && k <= n {
      assert !Holds(ring[At(n, home, f)], u, data, k, f);
    }
  }

  // ---- From one correct placement to the next ----

  /** A file on the ring of the members `ids`, with hash `h`, in `k` copies. */
  ghost predicate WellPlaced(ids: seq<int>, h: int, ring: Ring, u: Uri, data: Bytes, k: Uint32) {
    && ids != [] && |ring| == |ids| && Increasing(ids) && h !in ids && 2 <= k
    && Placed(ring, Owner(ids, h), u, data, k)
  }

  /** A join followed by the rebalancing of the joined node's successor keeps the replica count. */
  lemma JoinKeepsReplicas(ids: seq<int>, h: int, ring: Ring, q: nat, x: int, u: Uri, data: Bytes, k: Uint32)
    requires WellPlaced(ids, h, ring, u, data, k)
    requires q <= |ids| && Increasing(Insert(ids, q, x)) && h != x
    ensures var ids', ring' := Insert(ids, q, x), Insert(ring, q, Node(map[], map[]));
            WellPlaced(ids', h, Rebalance(ring', Owner(ids', h), Succ(|ids'|, q), u), u, data, k)
  {
    JoinShifts(ids, h, ring, q, x, u, data, k);
    JoinRebalances(Insert(ring, q, Node(map[], map[])), Owner(Insert(ids, q, x), h), q, u, data, k);
  }

  /** A failure followed by the rebalancing of the failed node's successor keeps the replica count exactly when the
      failed node did not hold the last of fewer copies than members. */
  lemma FailKeepsReplicas(ids: seq<int>, h: int, ring: Ring, f: nat, u: Uri, data: Bytes, k: Uint32)
    requires WellPlaced(ids, h, ring, u, data, k) && |ids| >= 2 && f < |ids|
    ensures var ids', ring', s := Delete(ids, f), Delete(ring, f), if f == |ids| - 1 then 0 else f;
            WellPlaced(ids', h, RebalanceReplicas(ring', Owner(ids', h), s, u), u, data, k)
            <==> !(Rank(|ids|, Owner(ids, h), f) == k - 1 && k < |ids|)
  {
    Deleted(ids, f, h);
    OwnerAfterDelete(ids, h, f);
    FailKeepsPlacement(ring, Owner(ids, h), Owner(Delete(ids, f), h), f, u, data, k);
  }

  lemma FailKeepsPlacement(ring: Ring, o: nat, o': nat, f: nat, u: Uri, data: Bytes, k: Uint32)
    requires |ring| >= 2 && o < |ring| && o' < |ring| - 1 && f < |ring| && 2 <= k && Placed(ring, o, u, data, k)
    requires Moved(f, o') == if o == f then Succ(|ring|, f) else o
    ensures var ring', s := Delete(ring, f), if f == |ring| - 1 then 0 else f;
            Placed(RebalanceReplicas(ring', o', s, u), o', u, data, k) <==> !(Rank(|ring|, o, f) == k - 1 && k < |ring|)
  {
    FailShifts(ring, o, o', f, u, data, k);
    BehindFailed(|ring|, o, o', f);
    FailRebalances(Delete(ring, f), o', Rank(|ring|, o, f), u, data, k);
  }

  lemma BehindFailed(n: nat, o: nat, o': nat, f: nat)
    requires n >= 2 && o < n && o' < n - 1 && f < n && Moved(f, o') == if o == f then Succ(n, f) else o
    ensures Behind(n - 1, o', Rank(n, o, f)) == if f == n - 1 then 0 else f
  {}

  // ---- All files ----

  /** `rebalance` over the metadata of member `s`, file by file; `hash` places a file on the circle. */
  function RebalanceAll(ring: Ring, ids: seq<int>, hash: Uri -> int, s: nat, us: seq<Uri>): (r: Ring)
    requires s < |ring| == |ids|
    ensures |r| == |ring|
    decreases |us|
  {
    if us == [] then ring else
      RebalanceAll(Rebalance(ring, Owner(ids, hash(us[0])), s, us[0]), ids, hash, s, us[1..])
  }

  lemma HoldsSame(a: Node, b: Node, v: Uri, u: Uri, data: Bytes, k: Uint32, j: int)
    requires a.files - {v} == b.files - {v} && a.metas - {v} == b.metas - {v} && u != v
    ensures Holds(a, u, data, k, j) <==> Holds(b, u, data, k, j)
  {
    OtherEntry(a, b, v, u);
  }

  /** Rebalancing one file moves no other. */
  lemma OthersStay(a: Ring, b: Ring, home: nat, q: nat, v: Uri, u: Uri, data: Bytes, k: Uint32)
    requires SameExcept(a, b, v) && u != v
    ensures AfterJoin(a, home, q, u, data, k) ==> AfterJoin(b, home, q, u, data, k)
    ensures Placed(a, home, u, data, k) ==> Placed(b, home, u, data, k)
  {
    forall p, j | 0 <= p < |a| ensures Holds(a[p], u, data, k, j) <==> Holds(b[p], u, data, k, j) {
      HoldsSame(a[p], b[p], v, u, data, k, j);
    }
  }

  /** What each file is: its bytes and its number of copies. */
  type Files = map<Uri, (Bytes, Uint32)>

  ghost predicate Lagging(ring: Ring, ids: seq<int>, hash: Uri -> int, q: nat, files: Files, u: Uri)
    requires u in files && ids != []
  {
    2 <= files[u].1 && AfterJoin(ring, Owner(ids, hash(u)), q, u, files[u].0, files[u].1)
  }

  ghost predicate InPlace(ring: Ring, ids: seq<int>, hash: Uri -> int, files: Files, u: Uri)
    requires u in files && ids != []
  {
    Placed(ring, Owner(ids, hash(u)), u, files[u].0, files[u].1)
  }

  lemma {:induction false} RebalancesInTurn(ring: Ring, ids: seq<int>, hash: Uri -> int, q: nat, us: seq<Uri>,
                                            files: Files)
    requires |ring| == |ids| >= 2 && q < |ids| && Distinct(us)
    requires forall u :: u in us ==> u in files && Lagging(ring, ids, hash, q, files, u)
    requires forall u :: u in files && u !in us ==> InPlace(ring, ids, hash, files, u)
    ensures var ring' := RebalanceAll(ring, ids, hash, Succ(|ids|, q), us);
            forall u :: u in files ==> InPlace(ring', ids, hash, files, u)
    decreases |us|
  {
    if us != [] {
      var v, rest, s := us[0], us[1..], Succ(|ids|, q);
      var home := Owner(ids, hash(v));
      var ring1 := Rebalance(ring, home, s, v);
      assert v in us && Lagging(ring, ids, hash, q, files, v);
      JoinRebalances(ring, home, q, v, files[v].0, files[v].1);
      assert forall u :: u in us <==> u == v || u in rest;
      forall u | u in files && u != v
        ensures u in rest ==> Lagging(ring1, ids, hash, q, files, u)
        ensures u !in rest ==> InPlace(ring1, ids, hash, files, u)
      {
        OthersStay(ring, ring1, Owner(ids, hash(u)), q, v, u, files[u].0, files[u].1);
      }
      assert v !in rest;
      RebalancesInTurn(ring1, ids, hash, q, rest, files);
    }
  }

  /** After a join, one pass of the joined node's successor over its metadata leaves every file of the ring on exactly
      its first members again. */
  lemma JoinKeepsAllReplicas(ids: seq<int>, hash: Uri -> int, ring: Ring, q: nat, x: int, us: seq<Uri>, files: Files)
    requires q <= |ids| && Increasing(Insert(ids, q, x))
    requires ids != []
    requires forall u :: u in files ==>
               hash(u) != x && WellPlaced(ids, hash(u), ring, u, files[u].0, files[u].1)
    requires |ring| == |ids| && Distinct(us)
    requires var ring' := Insert(ring, q, Node(map[], map[]));
             forall u :: u in us <==> u in files && u in ring'[Succ(|ids| + 1, q)].metas
    ensures var ids' := Insert(ids, q, x);
            var ring' := RebalanceAll(Insert(ring, q, Node(map[], map[])), ids', hash, Succ(|ids'|, q), us);
            forall u :: u in files ==> InPlace(ring', ids', hash, files, u)
  {
    var ids', ring' := Insert(ids, q, x), Insert(ring, q, Node(map[], map[]));
    forall u | u in files
      ensures Lagging(ring', ids', hash, q, files, u) && (u !in us ==> InPlace(ring', ids', hash, files, u))
    {
      JoinShifts(ids, hash(u), ring, q, x, u, files[u].0, files[u].1);
      JoinRebalances(ring', Owner(ids', hash(u)), q, u, files[u].0, files[u].1);
    }
    RebalancesInTurn(ring', ids', hash, q, us, files);
  }
}
