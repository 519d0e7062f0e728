/** Reading a file: a member that lost it fetches it from its successor, and keeps what it received. */
module ReadRepair {
  import opened Options
  import opened Placement

  datatype Result = Data(bytes: Bytes) | NotFound | NotReplicated {
    predicate IsError() { !Data? }
  }

  ghost function Missing(ring: Ring, u: Uri): set<nat> {
    set p: nat | p < |ring| && u !in ring[p].files
  }

  /** `get` at member `at`. The local file is blank for writing, and thereby created empty, before the successor is
      asked. */
  function Get(ring: Ring, at: nat, u: Uri): (r: (Ring, Result))
    requires at < |ring|
    ensures |r.0| == |ring|
    decreases Missing(ring, u)
  {
    if u in ring[at].files then (ring, Data(ring[at].files[u]))
    else if u !in ring[at].metas then (ring, NotFound)
    else if !ring[at].metas[u].repl.Active() then (ring, NotReplicated)
    else
      var blank := ring[at := ring[at].Receive(u, [])];
      assert at in Missing(ring, u) && at !in Missing(blank, u);
      var (ring', res) := Get(blank, Succ(|ring|, at), u);
      if res.Data? then (ring'[at := ring'[at].Receive(u, res.bytes)], res) else (ring', res)
  }

  /** The member lost the file but knows of other copies. */
  predicate Lost(node: Node, u: Uri) {
    u !in node.files && u in node.metas && node.metas[u].repl.Active()
  }

  /** The ring in which the first `j` members from `at` on have received `data`. */
  function Repaired(ring: Ring, at: nat, j: int, u: Uri, data: Bytes): Ring {
    seq(|ring|, p requires 0 <= p < |ring| => if Rank(|ring|, at, p) < j then ring[p].Receive(u, data) else ring[p])
  }

  /** The first member from `at` on that has the file supplies it to all members before it. */
  lemma {:induction false} GetRepairs(ring: Ring, at: nat, u: Uri, j: int)
    requires at < |ring| && 0 <= j < |ring|
    requires forall i :: 0 <= i < j ==> Lost(ring[At(|ring|, at, i)], u)
    requires u in ring[At(|ring|, at, j)].files
    ensures var data := ring[At(|ring|, at, j)].files[u];
            Get(ring, at, u) == (Repaired(ring, at, j, u, data), Data(data))
    decreases j
  {
    var n, data := |ring|, ring[At(|ring|, at, j)].files[u];
    if j == 0 {
      assert Repaired(ring, at, 0, u, data) == ring;
    } else {
      var blank, next := ring[at := ring[at].Receive(u, [])], Succ(n, at);
      assert At(n, at, 0) == at && forall i :: 0 <= i < n - 1 ==> At(n, next, i) == At(n, at, i + 1);
      GetRepairs(blank, next, u, j - 1);
      var ring' := Repaired(blank, next, j - 1, u, data);
      assert ring'[at] == blank[at];
      assert ring'[at := ring'[at].Receive(u, data)] == Repaired(ring, at, j, u, data) by {
        forall p | 0 <= p < n && p != at ensures ring'[p] == Repaired(ring, at, j, u, data)[p] {
          assert Rank(n, next, p) == Rank(n, at, p) - 1;
        }
        assert blank[at].Receive(u, data) == ring[at].Receive(u, data);
      }
    }
  }

  /** A member that knows of no further copy ends the search; the members before it are left with an empty file. */
  lemma {:induction false} GetFails(ring: Ring, at: nat, u: Uri, j: int)
    requires at < |ring| && 0 <= j < |ring|
    requires forall i :: 0 <= i < j ==> Lost(ring[At(|ring|, at, i)], u)
    requires var node := ring[At(|ring|, at, j)]; u !in node.files && !Lost(node, u)
    ensures var (ring', res) := Get(ring, at, u);
            && ring' == Repaired(ring, at, j, u, [])
            && res == if u in ring[At(|ring|, at, j)].metas then NotReplicated else NotFound
    decreases j
  {
    var n := |ring|;
    if j == 0 {
      assert Repaired(ring, at, 0, u, []) == ring;
    } else {
      var blank, next := ring[at := ring[at].Receive(u, [])], Succ(n, at);
      assert At(n, at, 0) == at && forall i :: 0 <= i < n - 1 ==> At(n, next, i) == At(n, at, i + 1);
      GetFails(blank, next, u, j - 1);
      assert Repaired(blank, next, j - 1, u, []) == Repaired(ring, at, j, u, []) by {
        forall p | 0 <= p < n && p != at ensures Rank(n, next, p) == Rank(n, at, p) - 1 {}
      }
    }
  }

  /** When every member has lost the file, the search comes back to the empty file that the asked member has just
      blank: the read succeeds with no bytes, and every member stores them. */
  lemma GetAfterTotalLoss(ring: Ring, at: nat, u: Uri)
    requires at < |ring| && forall p :: 0 <= p < |ring| ==> Lost(ring[p], u)
    ensures Get(ring, at, u) == (Repaired(ring, at, |ring|, u, []), Data([]))
  {
    var n := |ring|;
    var blank, next := ring[at := ring[at].Receive(u, [])], Succ(n, at);
    assert At(n, next, n - 1) == at;
    forall i | 0 <= i < n - 1 ensures Lost(blank[At(n, next, i)], u) {
      assert At(n, next, i) != at;
    }
    GetRepairs(blank, next, u, n - 1);
    var ring' := Repaired(blank, next, n - 1, u, []);
    assert ring'[at := ring'[at].Receive(u, [])] == Repaired(ring, at, n, u, []) by {
      forall p | 0 <= p < n && p != at ensures Rank(n, next, p) == Rank(n, at, p) - 1 {}
      assert ring'[at] == blank[at] && blank[at].Receive(u, []) == ring[at].Receive(u, []);
    }
  }

  /** In any state exactly one of the three cases applies. */
  lemma {:induction false} SearchEnds(ring: Ring, at: nat, u: Uri, from: int) returns (j: int)
    requires at < |ring| && 0 <= from <= |ring|
    requires forall i :: 0 <= i < from ==> Lost(ring[At(|ring|, at, i)], u)
    ensures from <= j <= |ring| && forall i :: 0 <= i < j ==> Lost(ring[At(|ring|, at, i)], u)
    ensures j < |ring| ==> !Lost(ring[At(|ring|, at, j)], u)
    decreases |ring| - from
  {
    if from < |ring| && Lost(ring[At(|ring|, at, from)], u) {
      j := SearchEnds(ring, at, u, from + 1);
    } else {
      j := from;
    }
  }

  /** The outcome of a read in every state: `j` members from the asked one on have lost the file, and all of them end
      up with the bytes of the member behind them, or with an empty file if that one has nothing to give. */
  lemma GetOutcome(ring: Ring, at: nat, u: Uri) returns (j: int)
    requires at < |ring|
    ensures 0 <= j <= |ring| && forall i :: 0 <= i < j ==> Lost(ring[At(|ring|, at, i)], u)
    ensures j < |ring| ==> !Lost(ring[At(|ring|, at, j)], u)
    ensures var (ring', res) := Get(ring, at, u);
            if j == |ring| then ring' == Repaired(ring, at, j, u, []) && res == Data([])
            else var node := ring[At(|ring|, at, j)];
                 if u in node.files then ring' == Repaired(ring, at, j, u, node.files[u]) && res == Data(node.files[u])
                 else ring' == Repaired(ring, at, j, u, []) && res.IsError()
  {
    j := SearchEnds(ring, at, u, 0);
    if j == |ring| {
      forall p | 0 <= p < |ring| ensures Lost(ring[p], u) {
        assert At(|ring|, at, Rank(|ring|, at, p)) == p;
      }
      GetAfterTotalLoss(ring, at, u);
    } else if u in ring[At(|ring|, at, j)].files {
      GetRepairs(ring, at, u, j);
    } else {
      GetFails(ring, at, u, j);
    }
  }

  // ---- A put after the loss of all files ----

  lemma {:induction false} CarriedEmpty(ring: Ring, home: nat, u: Uri, j: nat, i: nat)
    requires home < |ring| && j <= i < |ring| && forall p :: 0 <= p < |ring| ==> ring[p].Local(u) == []
    ensures Carried(ring, home, u, [], j, i) == []
    decreases i - j
  {
    if j < i {
      CarriedEmpty(ring, home, u, j + 1, i);
    }
  }

  /** When all files are gone, or blank after a read, and the owner still records the digest, a put of the lost bytes
      stores an empty file everywhere; a second put restores them, unless the digests happen to be equal. */
  lemma SecondPutRestores(ring: Ring, home: nat, u: Uri, data: Bytes, k: Uint32)
    requires home < |ring| && 1 <= k && ring[home].SameDigest(u, data)
    requires forall p :: 0 <= p < |ring| ==> ring[p].Local(u) == []
    ensures var once := Put(ring, home, home, u, data, Repl(0, k), None, false);
            && Stored(once, home, u, [], k)
            && (Sha(data) != Sha([]) ==>
                  Stored(Put(once, home, home, u, data, Repl(0, k), None, false), home, u, data, k))
  {
    var once := Put(ring, home, home, u, data, Repl(0, k), None, false);
    forall i: nat | i < Copies(ring, k) ensures Has(once, home, u, [], k, i) {
      assert ring[At(|ring|, home, 0)] == ring[home];
      if i > 0 {
        CarriedEmpty(ring, home, u, 1, i);
      }
      PutCarries(ring, home, u, data, k, false, i);
    }
    if Sha(data) != Sha([]) {
      forall i: nat | i < Copies(ring, k) ensures !StaleAt(once, home, u, data, i) {
        assert Has(once, home, u, [], k, i);
      }
      PutStoresIffNotStale(once, home, u, data, k, false);
    }
  }
}
