/** Where the copies of a file live: every member forwards a request to its ring successor, carrying a replication
    index, a count, and the member the walk started from. */
module Placement {
  import opened Options

  type Uri = string
  type Bytes = seq<bv8>

  const UINT32: int := 0x1_0000_0000

  type Uint32 = x: int | 0 <= x < UINT32

  /** `Replication`: which copy out of how many; both are 32-bit. */
  datatype Repl = Repl(index: Uint32, count: Uint32) {
    function Inc(): Repl {
      Repl(if index + 1 == UINT32 then 0 else index + 1, count)
    }

    predicate HasNext() {
      Inc().index < count
    }

    /** `operator bool` */
    predicate Active() {
      index < count && count > 1
    }
  }

  /** `sha256` of a file, of which nothing is assumed. */
  const Sha: Bytes -> int

  /** What the metadata of a file record: which copy it is, and the digest of the bytes when it was last put. */
  datatype Meta = Meta(repl: Repl, digest: int)

  /** The files and the metadata stored by one member. */
  datatype Node = Node(files: map<Uri, Bytes>, metas: map<Uri, Meta>) {
    /** The file, which a put creates first if there is none. */
    function Local(u: Uri): Bytes {
      if u in files then files[u] else []
    }

    /** `file_hashes_equal`: the recorded digest is that of the bytes to be put. */
    predicate SameDigest(u: Uri, data: Bytes) {
      u in metas && metas[u].digest == Sha(data)
    }

    /** The file after a put: an upload with the recorded digest is skipped. */
    function Kept(u: Uri, data: Bytes): Bytes {
      if SameDigest(u, data) then Local(u) else data
    }

    /** The metadata say that the bytes are here, but they are not. */
    predicate Stale(u: Uri, data: Bytes) {
      SameDigest(u, data) && Local(u) != data
    }

    function Hold(u: Uri, file: Bytes, r: Repl): Node {
      Node(files[u := file], metas[u := Meta(r, Sha(file))])
    }

    function Store(u: Uri, data: Bytes, r: Repl): Node {
      Hold(u, Kept(u, data), r)
    }

    function Drop(u: Uri): Node {
      Node(files - {u}, metas - {u})
    }

    function Receive(u: Uri, data: Bytes): Node {
      this.(files := files[u := data])
    }
  }

  /** The members in clockwise order. */
  type Ring = seq<Node>

  function Succ(n: nat, p: nat): nat
    requires p < n
  {
    if p + 1 == n then 0 else p + 1
  }

  /** How many hops member `p` is past member `home`. */
  function Rank(n: nat, home: nat, p: nat): int {
    if p >= home then p - home else p - home + n
  }

  function At(n: nat, home: nat, j: int): int {
    if home + j < n then home + j else home + j - n
  }

  // ---- Delete ----

  /** The number of members that hold metadata of a file. */
  ghost function Holders(ring: Ring, u: Uri): set<nat> {
    set p: nat | p < |ring| && u in ring[p].metas
  }

  datatype Trace = Trace(ring: Ring, visited: seq<nat>)

  /** `del` of a file at member `at`; `src` is the member the request started from. The trace lists the members that
      dropped the file. */
  function Del(ring: Ring, at: nat, u: Uri, src: Option<nat>): (t: Trace)
    requires at < |ring|
    ensures |t.ring| == |ring|
    decreases Holders(ring, u)
  {
    if src == Some(at) then Trace(ring, [])
    else if u !in ring[at].metas then
      // a left-over file is removed; otherwise there is nothing to be found
      Trace(ring[at := ring[at].Drop(u)], [])
    else
      var r := ring[at].metas[u].repl;
      var ring1 := ring[at := ring[at].Drop(u)];
      var next := Succ(|ring|, at);
      if r.Active() && r.HasNext() && next != at then
        assert Holders(ring1, u) < Holders(ring, u) by {
          assert at in Holders(ring, u) && at !in Holders(ring1, u);
        }
        var rest := Del(ring1, next, u, Some(src.Or(at)));
        Trace(rest.ring, [at] + rest.visited)
      else Trace(ring1, [at])
  }

  // ---- Put ----

  ghost function Steps(r: Repl): int {
    if r.index + 1 == UINT32 then UINT32 + 1 else if r.index < r.count then r.count - r.index else 0
  }

  /** `put` at member `at`: store, hand what is stored on as the next copy, and after the last copy of a rebalancing put
      delete the one behind it. */
  function Put(ring: Ring, home: nat, at: nat, u: Uri, data: Bytes, r: Repl, src: Option<nat>,
               rebalance: bool): (res: Ring)
    requires at < |ring|
    ensures |res| == |ring|
    decreases Steps(r)
  {
    if src == Some(at) then ring else
      var ring1 := ring[at := ring[at].Store(u, data, r)];
      var next := Succ(|ring|, at);
      var origin := Some(src.Or(at));
      var ring2 :=
        if !r.Inc().Active() || (next == at && origin == Some(at)) then ring1
        else Put(ring1, home, next, u, ring[at].Kept(u, data), r.Inc(), origin, rebalance);
      if rebalance && !r.HasNext() && next != home then Del(ring2, next, u, origin).ring else ring2
  }

  // ---- Frames ----

  /** Only file `u` may differ. */
  ghost predicate SameExcept(a: Ring, b: Ring, u: Uri) {
    && |a| == |b|
    && forall p :: 0 <= p < |a| ==> a[p].files - {u} == b[p].files - {u} && a[p].metas - {u} == b[p].metas - {u}
  }

  /** What two members have of file `u`. */
  ghost predicate SameEntry(a: Node, b: Node, u: Uri) {
    && (u in a.files <==> u in b.files) && (u in a.files ==> a.files[u] == b.files[u])
    && (u in a.metas <==> u in b.metas) && (u in a.metas ==> a.metas[u] == b.metas[u])
  }

  /** If only file `v` may differ, the others do not. */
  lemma OtherEntry(a: Node, b: Node, v: Uri, u: Uri)
    requires a.files - {v} == b.files - {v} && a.metas - {v} == b.metas - {v} && u != v
    ensures SameEntry(a, b, u)
  {
    assert u in a.files <==> u in a.files - {v};
    assert u in b.files <==> u in b.files - {v};
    assert u in a.metas <==> u in a.metas - {v};
    assert u in b.metas <==> u in b.metas - {v};
    assert u in a.files ==> (a.files - {v})[u] == a.files[u];
    assert u in b.files ==> (b.files - {v})[u] == b.files[u];
    assert u in a.metas ==> (a.metas - {v})[u] == a.metas[u];
    assert u in b.metas ==> (b.metas - {v})[u] == b.metas[u];
  }

  lemma {:induction false} DelTouchesOneFile(ring: Ring, at: nat, u: Uri, src: Option<nat>)
    requires at < |ring|
    ensures SameExcept(ring, Del(ring, at, u, src).ring, u)
    decreases Holders(ring, u)
  {
    if src != Some(at) && u in ring[at].metas {
      var r, next := ring[at].metas[u].repl, Succ(|ring|, at);
      var ring1 := ring[at := ring[at].Drop(u)];
      if r.Active() && r.HasNext() && next != at {
        assert at in Holders(ring, u) && at !in Holders(ring1, u);
        DelTouchesOneFile(ring1, next, u, Some(src.Or(at)));
      }
    }
  }

  lemma SameExceptTransitive(a: Ring, b: Ring, c: Ring, u: Uri)
    requires SameExcept(a, b, u) && SameExcept(b, c, u)
    ensures SameExcept(a, c, u)
  {}

  lemma StoreTouchesOneFile(ring: Ring, at: nat, u: Uri, data: Bytes, r: Repl)
    requires at < |ring|
    ensures SameExcept(ring, ring[at := ring[at].Store(u, data, r)], u)
  {}

  lemma {:induction false} PutTouchesOneFile(ring: Ring, home: nat, at: nat, u: Uri, data: Bytes, r: Repl,
                                             src: Option<nat>, rebalance: bool)
    requires at < |ring|
    ensures SameExcept(ring, Put(ring, home, at, u, data, r, src, rebalance), u)
    decreases Steps(r)
  {
    if src != Some(at) {
      var ring1 := ring[at := ring[at].Store(u, data, r)];
      var next, origin := Succ(|ring|, at), Some(src.Or(at));
      var ring2 := ring1;
      StoreTouchesOneFile(ring, at, u, data, r);
      if r.Inc().Active() && !(next == at && origin == Some(at)) {
        PutTouchesOneFile(ring1, home, next, u, ring[at].Kept(u, data), r.Inc(), origin, rebalance);
        ring2 := Put(ring1, home, next, u, ring[at].Kept(u, data), r.Inc(), origin, rebalance);
        SameExceptTransitive(ring, ring1, ring2, u);
      }
      DelTouchesOneFile(ring2, next, u, origin);
      SameExceptTransitive(ring, ring2, Del(ring2, next, u, origin).ring, u);
    }
  }

  // ---- The placement of a file ----

  /** The member holds copy `j` of `k`, or nothing if there is no such copy. */
  ghost predicate Holds(node: Node, u: Uri, data: Bytes, k: Uint32, j: int) {
    if 0 <= j < k then
      u in node.files && node.files[u] == data && u in node.metas && node.metas[u] == Meta(Repl(j, k), Sha(data))
    else u !in node.files && u !in node.metas
  }

  /** The first `k` members from the owner on, or all of them, hold the file, each under its own index. */
  ghost predicate Placed(ring: Ring, home: nat, u: Uri, data: Bytes, k: Uint32) {
    forall p :: 0 <= p < |ring| ==> Holds(ring[p], u, data, k, Rank(|ring|, home, p))
  }

  ghost predicate Absent(ring: Ring, u: Uri) {
    forall p :: 0 <= p < |ring| ==> u !in ring[p].files && u !in ring[p].metas
  }

  /** What the member of rank `i` stores when `data` arrives at rank `j`: every member hands on what it keeps. */
  function Carried(ring: Ring, home: nat, u: Uri, data: Bytes, j: nat, i: nat): Bytes
    requires home < |ring| && j <= i < |ring|
    decreases i - j
  {
    var file := ring[At(|ring|, home, j)].Kept(u, data);
    if i == j then file else Carried(ring, home, u, file, j + 1, i)
  }

  /** The ring with copies `j` to `k - 1` stored, after `data` has arrived at rank `j`. */
  function Fill(ring: Ring, home: nat, u: Uri, data: Bytes, k: Uint32, j: nat): Ring
    requires home < |ring|
  {
    seq(|ring|, p requires 0 <= p < |ring| =>
      var i := Rank(|ring|, home, p);
      if j <= i < k then ring[p].Hold(u, Carried(ring, home, u, data, j, i), Repl(i, k)) else ring[p])
  }

  lemma {:induction false} CarriedSame(a: Ring, b: Ring, home: nat, u: Uri, data: Bytes, j: nat, i: nat)
    requires |a| == |b| && home < |a| && j <= i < |a|
    requires forall h :: j <= h < |a| ==> a[At(|a|, home, h)] == b[At(|a|, home, h)]
    ensures Carried(a, home, u, data, j, i) == Carried(b, home, u, data, j, i)
    decreases i - j
  {
    if j < i {
      assert a[At(|a|, home, j)] == b[At(|a|, home, j)];
      CarriedSame(a, b, home, u, a[At(|a|, home, j)].Kept(u, data), j + 1, i);
    }
  }

  /** The member of rank `i` takes the bytes for present without having them. */
  predicate StaleAt(ring: Ring, home: nat, u: Uri, data: Bytes, i: nat)
    requires home < |ring| && i < |ring|
  {
    ring[At(|ring|, home, i)].Stale(u, data)
  }

  /** The bytes arrive unchanged where nobody on the way is stale. */
  lemma {:induction false} CarriedFresh(ring: Ring, home: nat, u: Uri, data: Bytes, j: nat, i: nat)
    requires home < |ring| && j <= i < |ring| && forall h :: j <= h <= i ==> !StaleAt(ring, home, u, data, h)
    ensures Carried(ring, home, u, data, j, i) == data
    decreases i - j
  {
    assert !StaleAt(ring, home, u, data, j);
    if j < i {
      CarriedFresh(ring, home, u, data, j + 1, i);
    }
  }

  /** A stale member on the way leaves some member with other bytes. */
  lemma {:induction false} StaleShows(ring: Ring, home: nat, u: Uri, data: Bytes, j: nat, h: nat) returns (i: nat)
    requires home < |ring| && j <= h < |ring| && StaleAt(ring, home, u, data, h)
    ensures j <= i <= h && Carried(ring, home, u, data, j, i) != data
    decreases h - j
  {
    if StaleAt(ring, home, u, data, j) {
      i := j;
    } else {
      i := StaleShows(ring, home, u, data, j + 1, h);
    }
  }

  lemma FillStep(ring: Ring, home: nat, at: nat, u: Uri, data: Bytes, k: Uint32, j: nat)
    requires home < |ring| && at < |ring| && j == Rank(|ring|, home, at) && j < k
    ensures var ring1, file := ring[at := ring[at].Store(u, data, Repl(j, k))], ring[at].Kept(u, data);
            Fill(ring, home, u, data, k, j) == if j + 1 < |ring| then Fill(ring1, home, u, file, k, j + 1) else ring1
  {
    var n, ring1, file := |ring|, ring[at := ring[at].Store(u, data, Repl(j, k))], ring[at].Kept(u, data);
    assert at == At(n, home, j);
    forall i | j < i < n ensures Carried(ring, home, u, data, j, i) == Carried(ring1, home, u, file, j + 1, i) {
      CarriedSame(ring, ring1, home, u, file, j + 1, i);
    }
  }

  lemma NothingToFill(ring: Ring, home: nat, u: Uri, data: Bytes, k: Uint32, j: nat)
    requires home < |ring| && j >= k
    ensures Fill(ring, home, u, data, k, j) == ring
  {}

  /** The ring after the trailing delete of a rebalancing put. */
  function Trimmed(full: Ring, home: nat, u: Uri, k: Uint32, rebalance: bool): Ring
    requires home < |full|
  {
    if rebalance && k < |full| then Del(full, At(|full|, home, k), u, Some(home)).ring else full
  }

  /** What one member does in a put that has arrived at rank `j`. */
  lemma PutStep(ring: Ring, home: nat, at: nat, u: Uri, data: Bytes, k: Uint32, j: nat, src: Option<nat>,
                rebalance: bool)
    requires home < |ring| && at < |ring| && j == Rank(|ring|, home, at) && j < k
    requires src == if j == 0 then None else Some(home)
    ensures var ring1, next := ring[at := ring[at].Store(u, data, Repl(j, k))], Succ(|ring|, at);
            var file := ring[at].Kept(u, data);
            && (j + 1 < |ring| ==> next == At(|ring|, home, j + 1) && Rank(|ring|, home, next) == j + 1)
            && Put(ring, home, at, u, data, Repl(j, k), src, rebalance) ==
               if j + 1 < k && j + 1 < |ring| then
                 Put(ring1, home, next, u, file, Repl(j + 1, k), Some(home), rebalance)
               else Trimmed(ring1, home, u, k, rebalance)
  {
    assert j + 1 == |ring| ==> Succ(|ring|, at) == home;
  }

  /** A put walks the members from the owner on and stops after the last copy, or where it started. */
  lemma {:induction false} PutFills(ring: Ring, home: nat, at: nat, u: Uri, data: Bytes, k: Uint32, j: nat,
                                    src: Option<nat>, rebalance: bool)
    requires home < |ring| && at < |ring| && j == Rank(|ring|, home, at) && j < k
    requires src == if j == 0 then None else Some(home)
    ensures var full := Fill(ring, home, u, data, k, j);
            Put(ring, home, at, u, data, Repl(j, k), src, rebalance) == Trimmed(full, home, u, k, rebalance)
    decreases |ring| - j
  {
    var ring1, file := ring[at := ring[at].Store(u, data, Repl(j, k))], ring[at].Kept(u, data);
    PutStep(ring, home, at, u, data, k, j, src, rebalance);
    FillStep(ring, home, at, u, data, k, j);
    if j + 1 < k && j + 1 < |ring| {
      PutFills(ring1, home, Succ(|ring|, at), u, file, k, j + 1, Some(home), rebalance);
    } else if j + 1 < |ring| {
      NothingToFill(ring1, home, u, file, k, j + 1);
    }
  }

  /** The trailing delete, which starts behind the last copy, spares the copies. */
  lemma {:induction false} DelSpares(ring: Ring, home: nat, at: nat, u: Uri, j: nat)
    requires home < |ring| && at < |ring| && 0 < j == Rank(|ring|, home, at)
    ensures forall p :: 0 <= p < |ring| && Rank(|ring|, home, p) < j ==> Del(ring, at, u, Some(home)).ring[p] == ring[p]
    decreases |ring| - j
  {
    var n, next := |ring|, Succ(|ring|, at);
    var ring1 := ring[at := ring[at].Drop(u)];
    if j + 1 < n {
      DelSpares(ring1, home, next, u, j + 1);
    } else {
      assert next == home && Del(ring1, home, u, Some(home)) == Trace(ring1, []);
    }
  }

  /** The number of copies that fit on the ring. */
  function Copies(ring: Ring, k: Uint32): nat {
    if k < |ring| then k else |ring|
  }

  /** The member of rank `i` stores `file`, as copy `i` of `k` and under its digest. */
  ghost predicate Has(ring: Ring, home: nat, u: Uri, file: Bytes, k: Uint32, i: nat)
    requires home < |ring| && i < |ring| && i < k
  {
    Holds(ring[At(|ring|, home, i)], u, file, k, i)
  }

  /** What a put at the owner leaves at each of the first members, from any state. */
  lemma PutCarries(ring: Ring, home: nat, u: Uri, data: Bytes, k: Uint32, rebalance: bool, i: nat)
    requires home < |ring| && i < Copies(ring, k)
    ensures Has(Put(ring, home, home, u, data, Repl(0, k), None, rebalance), home, u,
            Carried(ring, home, u, data, 0, i), k, i)
  {
    var full := Fill(ring, home, u, data, k, 0);
    PutFills(ring, home, home, u, data, k, 0, None, rebalance);
    var p := At(|ring|, home, i);
    assert Rank(|ring|, home, p) == i && full[p] == ring[p].Hold(u, Carried(ring, home, u, data, 0, i), Repl(i, k));
    if rebalance && k < |ring| {
      assert Rank(|ring|, home, At(|ring|, home, k)) == k;
      DelSpares(full, home, At(|ring|, home, k), u, k);
    }
  }

  /** The first members from the owner on, as many as there are copies, store `data`. */
  ghost predicate Stored(ring: Ring, home: nat, u: Uri, data: Bytes, k: Uint32)
    requires home < |ring|
  {
    forall i: nat :: i < Copies(ring, k) ==> Has(ring, home, u, data, k, i)
  }

  ghost predicate NobodyStale(ring: Ring, home: nat, u: Uri, data: Bytes, k: Uint32)
    requires home < |ring|
  {
    forall i: nat :: i < Copies(ring, k) ==> !StaleAt(ring, home, u, data, i)
  }

  /** A put at the owner stores its bytes on all of the first members if and only if none of them is stale. */
  lemma PutStoresIffNotStale(ring: Ring, home: nat, u: Uri, data: Bytes, k: Uint32, rebalance: bool)
    requires home < |ring| && 1 <= k
    ensures Stored(Put(ring, home, home, u, data, Repl(0, k), None, rebalance), home, u, data, k) <==>
            NobodyStale(ring, home, u, data, k)
  {
    var ring' := Put(ring, home, home, u, data, Repl(0, k), None, rebalance);
    if h: nat :| h < Copies(ring, k) && StaleAt(ring, home, u, data, h) {
      var i := StaleShows(ring, home, u, data, 0, h);
      PutCarries(ring, home, u, data, k, rebalance, i);
      assert !Has(ring', home, u, data, k, i);
    } else {
      forall i: nat | i < Copies(ring, k) ensures Has(ring', home, u, data, k, i) {
        CarriedFresh(ring, home, u, data, 0, i);
        PutCarries(ring, home, u, data, k, rebalance, i);
      }
    }
  }

  /** A fresh put with any count ends up at exactly the first members from the owner on, under indices
      0, 1, 2 and so on. */
  lemma PutPlaces(ring: Ring, home: nat, u: Uri, data: Bytes, k: Uint32)
    requires home < |ring| && 1 <= k && Absent(ring, u)
    ensures var ring' := Put(ring, home, home, u, data, Repl(0, k), None, false);
            Placed(ring', home, u, data, k) && SameExcept(ring, ring', u)
  {
    PutFills(ring, home, home, u, data, k, 0, None, false);
    forall i | 0 <= i < |ring| ensures !StaleAt(ring, home, u, data, i) {}
    forall i: nat | i < |ring| ensures Carried(ring, home, u, data, 0, i) == data {
      CarriedFresh(ring, home, u, data, 0, i);
    }
    PutTouchesOneFile(ring, home, home, u, data, Repl(0, k), None, false);
  }

  // ---- Delete undoes put ----

  function Dropped(ring: Ring, home: nat, u: Uri, k: nat, j: int): Ring {
    seq(|ring|, p requires 0 <= p < |ring| => if j <= Rank(|ring|, home, p) < k then ring[p].Drop(u) else ring[p])
  }

  /** The members of ranks `j` to `k - 1`, in order. */
  function Walk(n: nat, home: nat, k: nat, j: int): (r: seq<nat>)
    requires home < n && 0 <= j
    ensures |r| == if j < k && j < n then (if k < n then k else n) - j else 0
    ensures forall i :: 0 <= i < |r| ==> r[i] == At(n, home, j + i)
    decreases n - j
  {
    if j < k && j < n then [At(n, home, j)] + Walk(n, home, k, j + 1) else []
  }

  lemma WalkStep(n: nat, home: nat, at: nat, k: nat, j: nat)
    requires home < n && at < n && j == Rank(n, home, at) && j < k
    ensures Walk(n, home, k, j) == if j + 1 < k && j + 1 < n then [at] + Walk(n, home, k, j + 1) else [at]
  {
    assert at == At(n, home, j);
  }

  lemma DropStep(ring: Ring, home: nat, at: nat, u: Uri, k: nat, j: nat)
    requires home < |ring| && at < |ring| && j == Rank(|ring|, home, at) && j < k
    ensures var ring1 := ring[at := ring[at].Drop(u)];
            Dropped(ring, home, u, k, j) ==
            if j + 1 < k && j + 1 < |ring| then Dropped(ring1, home, u, k, j + 1) else ring1
  {}

  /** What one holder does in a delete that has arrived at rank `j`. */
  lemma DelStep(ring: Ring, home: nat, at: nat, u: Uri, data: Bytes, k: Uint32, j: nat, src: Option<nat>)
    requires home < |ring| && at < |ring| && j == Rank(|ring|, home, at) && j < k
    requires src == (if j == 0 then None else Some(home)) && Holds(ring[at], u, data, k, j)
    ensures var ring1, next := ring[at := ring[at].Drop(u)], Succ(|ring|, at);
            && (j + 1 < |ring| ==> Rank(|ring|, home, next) == j + 1)
            && Del(ring, at, u, src) ==
               if j + 1 < k && j + 1 < |ring| then
                 var rest := Del(ring1, next, u, Some(home));
                 Trace(rest.ring, [at] + rest.visited)
               else Trace(ring1, [at])
  {
    assert j + 1 == |ring| ==> Succ(|ring|, at) == home;
  }

  /** The members of rank `j` and higher hold what they are to hold. */
  ghost predicate HeldFrom(ring: Ring, home: nat, u: Uri, data: Bytes, k: Uint32, j: nat) {
    forall p: nat {:trigger HeldAt(ring, home, u, data, k, p)} ::
      p < |ring| && j <= Rank(|ring|, home, p) ==> HeldAt(ring, home, u, data, k, p)
  }

  ghost predicate HeldAt(ring: Ring, home: nat, u: Uri, data: Bytes, k: Uint32, p: nat)
    requires p < |ring|
  {
    Holds(ring[p], u, data, k, Rank(|ring|, home, p))
  }

  lemma HeldBehind(ring: Ring, home: nat, at: nat, u: Uri, data: Bytes, k: Uint32, j: nat)
    requires home < |ring| && at < |ring| && j == Rank(|ring|, home, at) && HeldFrom(ring, home, u, data, k, j)
    ensures Holds(ring[at], u, data, k, j) && HeldFrom(ring[at := ring[at].Drop(u)], home, u, data, k, j + 1)
  {
    assert HeldAt(ring, home, u, data, k, at);
    var ring1 := ring[at := ring[at].Drop(u)];
    forall p: nat | p < |ring| && j + 1 <= Rank(|ring|, home, p) ensures HeldAt(ring1, home, u, data, k, p) {
      assert HeldAt(ring, home, u, data, k, p);
    }
  }

  lemma {:induction false} DelDrops(ring: Ring, home: nat, at: nat, u: Uri, data: Bytes, k: Uint32, j: nat,
                                    src: Option<nat>)
    requires home < |ring| && at < |ring| && j == Rank(|ring|, home, at) && j < k
    requires src == (if j == 0 then None else Some(home)) && HeldFrom(ring, home, u, data, k, j)
    ensures Del(ring, at, u, src) == Trace(Dropped(ring, home, u, k, j), Walk(|ring|, home, k, j))
    decreases |ring| - j
  {
    var n := |ring|;
    HeldBehind(ring, home, at, u, data, k, j);
    DelStep(ring, home, at, u, data, k, j, src);
    DropStep(ring, home, at, u, k, j);
    WalkStep(n, home, at, k, j);
    if j + 1 < k && j + 1 < n {
      DelDrops(ring[at := ring[at].Drop(u)], home, Succ(n, at), u, data, k, j + 1, Some(home));
    }
  }

  /** A delete at the owner visits every holder once, in ring order, and leaves the file on no member. */
  lemma DeleteClears(ring: Ring, home: nat, u: Uri, data: Bytes, k: Uint32)
    requires home < |ring| && 1 <= k && Placed(ring, home, u, data, k)
    ensures var t := Del(ring, home, u, None);
            Absent(t.ring, u) && SameExcept(ring, t.ring, u) && t.visited == Walk(|ring|, home, k, 0)
  {
    DelDrops(ring, home, home, u, data, k, 0, None);
    DelTouchesOneFile(ring, home, u, None);
  }

  /** Deleting a freshly put file restores every member. */
  lemma DeleteUndoesPut(ring: Ring, home: nat, u: Uri, data: Bytes, k: Uint32)
    requires home < |ring| && 1 <= k && Absent(ring, u)
    ensures Del(Put(ring, home, home, u, data, Repl(0, k), None, false), home, u, None).ring == ring
  {
    var ring1 := Put(ring, home, home, u, data, Repl(0, k), None, false);
    PutPlaces(ring, home, u, data, k);
    DeleteClears(ring1, home, u, data, k);
    var ring2 := Del(ring1, home, u, None).ring;
    forall p | 0 <= p < |ring| ensures ring2[p] == ring[p] {
      assert ring2[p].files == ring2[p].files - {u} == ring[p].files - {u} == ring[p].files;
      assert ring2[p].metas == ring2[p].metas - {u} == ring[p].metas - {u} == ring[p].metas;
    }
  }

  // ---- Delete from any state ----

  /** The member knows of a further copy, and passes a delete on. */
  predicate PassesOn(node: Node, u: Uri) {
    u in node.metas && node.metas[u].repl.Active() && node.metas[u].repl.HasNext()
  }

  /** What one member does in a delete that has arrived at rank `j`, whatever it holds. */
  lemma DelAnyStep(ring: Ring, home: nat, at: nat, u: Uri, j: nat, src: Option<nat>)
    requires home < |ring| && at < |ring| && j == Rank(|ring|, home, at) && src == if j == 0 then None else Some(home)
    ensures var ring1, next := ring[at := ring[at].Drop(u)], Succ(|ring|, at);
            && at == At(|ring|, home, j) && (j + 1 < |ring| ==> Rank(|ring|, home, next) == j + 1)
            && Del(ring, at, u, src) ==
               if PassesOn(ring[at], u) && j + 1 < |ring| then
                 var rest := Del(ring1, next, u, Some(home));
                 Trace(rest.ring, [at] + rest.visited)
               else Trace(ring1, if u in ring[at].metas then [at] else [])
  {
    assert j + 1 == |ring| ==> Succ(|ring|, at) == home;
  }

  /** The members of ranks `j` to `e - 1` pass a delete on, and the one of rank `e`, if there is one, does not. */
  ghost predicate Passing(ring: Ring, home: nat, u: Uri, j: nat, e: nat)
    requires home < |ring|
  {
    && j <= e <= |ring| && (forall i :: j <= i < e ==> PassesOn(ring[At(|ring|, home, i)], u))
    && (e < |ring| ==> !PassesOn(ring[At(|ring|, home, e)], u))
  }

  lemma {:induction false} PassingEnds(ring: Ring, home: nat, u: Uri, j: nat) returns (e: nat)
    requires home < |ring| && j <= |ring|
    ensures Passing(ring, home, u, j, e)
    decreases |ring| - j
  {
    e := j;
    if j < |ring| && PassesOn(ring[At(|ring|, home, j)], u) {
      e := PassingEnds(ring, home, u, j + 1);
    }
  }

  /** The number of members visited, if ranks below `e` pass the delete on. */
  function Visited(ring: Ring, home: nat, u: Uri, e: nat): nat
    requires home < |ring| && e <= |ring|
  {
    if e < |ring| && u in ring[At(|ring|, home, e)].metas then e + 1 else e
  }

  lemma PassingRest(ring: Ring, home: nat, at: nat, u: Uri, j: nat, e: nat)
    requires home < |ring| && at < |ring| && j == Rank(|ring|, home, at) && j < e && Passing(ring, home, u, j, e)
    ensures var ring1 := ring[at := ring[at].Drop(u)];
            Passing(ring1, home, u, j + 1, e) && Visited(ring1, home, u, e) == Visited(ring, home, u, e)
  {
    var ring1 := ring[at := ring[at].Drop(u)];
    forall i | j < i < |ring| ensures ring1[At(|ring|, home, i)] == ring[At(|ring|, home, i)] {}
  }

  /** The delete ends at a member that does not pass it on, or at the last one. */
  lemma DelStops(ring: Ring, home: nat, at: nat, u: Uri, j: nat, e: nat)
    requires home < |ring| && at < |ring| && j == Rank(|ring|, home, at) && Passing(ring, home, u, j, e)
    requires j == e || j + 1 == |ring|
    ensures Dropped(ring, home, u, e + 1, j) == ring[at := ring[at].Drop(u)]
    ensures Walk(|ring|, home, Visited(ring, home, u, e), j) == if u in ring[at].metas then [at] else []
  {
    assert at == At(|ring|, home, j) && e <= j + 1;
    assert forall p :: 0 <= p < |ring| && j <= Rank(|ring|, home, p) <= e ==> p == at;
  }

  lemma {:induction false} DelWalks(ring: Ring, home: nat, at: nat, u: Uri, j: nat, src: Option<nat>, e: nat)
    requires home < |ring| && at < |ring| && j == Rank(|ring|, home, at) && src == if j == 0 then None else Some(home)
    requires Passing(ring, home, u, j, e)
    ensures Del(ring, at, u, src) ==
            Trace(Dropped(ring, home, u, e + 1, j), Walk(|ring|, home, Visited(ring, home, u, e), j))
    decreases |ring| - j
  {
    DelAnyStep(ring, home, at, u, j, src);
    if j == e || j + 1 == |ring| {
      DelStops(ring, home, at, u, j, e);
    } else {
      DropStep(ring, home, at, u, e + 1, j);
      WalkStep(|ring|, home, at, Visited(ring, home, u, e), j);
      PassingRest(ring, home, at, u, j, e);
      DelWalks(ring[at := ring[at].Drop(u)], home, Succ(|ring|, at), u, j + 1, Some(home), e);
    }
  }

  /** The outcome of a delete in every state: it goes on while the members know of a further copy. All of them, and the
      first one that does not, are left without file and metadata, even if that one had a file only; nobody else is
      touched. It has visited those that had metadata. */
  lemma DelOutcome(ring: Ring, at: nat, u: Uri) returns (e: nat)
    requires at < |ring|
    ensures Passing(ring, at, u, 0, e)
    ensures var t := Del(ring, at, u, None);
            && (forall p :: 0 <= p < |ring| ==>
                              if Rank(|ring|, at, p) > e then t.ring[p] == ring[p]
                              else t.ring[p].files == ring[p].files - {u} && t.ring[p].metas == ring[p].metas - {u})
            && t.visited == Walk(|ring|, at, Visited(ring, at, u, e), 0)
  {
    e := PassingEnds(ring, at, u, 0);
    DelWalks(ring, at, at, u, 0, None, e);
  }
}
