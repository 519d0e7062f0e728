/** The file service as it runs: members whose stores are changed in place by requests that travel along the ring, and
    the chunk loops that carry the bytes. */
module Filesystem {
  import opened Options
  import opened Placement
  import opened ReadRepair
  import B = Rebalance

  const CHUNK: nat := 512 * 1024

  function Concat(chunks: seq<Bytes>): Bytes {
    if chunks == [] then [] else Concat(chunks[..|chunks| - 1]) + chunks[|chunks| - 1]
  }

  /** The sending loop: read up to `len` bytes at a time until nothing is left. */
  method Send(data: Bytes, len: nat) returns (chunks: seq<Bytes>)
    requires len > 0
    ensures Concat(chunks) == data
    ensures forall c :: c in chunks ==> 0 < |c| <= len
    ensures forall i :: 0 <= i < |chunks| - 1 ==> |chunks[i]| == len
  {
    chunks := [];
    var offset := 0;
    while true
      invariant 0 <= offset <= |data| && Concat(chunks) == data[..offset]
      invariant forall c :: c in chunks ==> 0 < |c| <= len
      invariant forall i :: 0 <= i < |chunks| && (i < |chunks| - 1 || offset < |data|) ==> |chunks[i]| == len
      decreases |data| - offset
    {
      var read := if |data| - offset < len then |data| - offset else len;
      if read == 0 {
        break;
      }
      var chunk := data[offset..offset + read];
      assert (chunks + [chunk])[..|chunks|] == chunks;
      chunks := chunks + [chunk];
      assert data[..offset] + chunk == data[..offset + read];
      offset := offset + read;
    }
    assert data[..offset] == data;
  }

  /** The receiving loop: append chunk after chunk to a file that starts out empty. */
  method Receive(chunks: seq<Bytes>) returns (file: Bytes)
    ensures file == Concat(chunks)
  {
    file := [];
    for i := 0 to |chunks|
      invariant file == Concat(chunks[..i])
    {
      assert chunks[..i + 1][..i] == chunks[..i];
      file := file + chunks[i];
    }
    assert chunks[..|chunks|] == chunks;
  }

  /** The stores of one member. */
  class Store {
    var files: map<Uri, Bytes>
    var metas: map<Uri, Meta>

    constructor ()
      ensures Value() == Node(map[], map[])
    {
      files, metas := map[], map[];
    }

    /** What is stored, as a value. */
    function Value(): Node
      reads this
    {
      Node(files, metas)
    }

    /** The local part of `Service::put`: an upload is skipped if the recorded digest is that of the bytes to be put. */
    method Keep(u: Uri, data: Bytes, r: Repl) returns (file: Bytes)
      modifies this
      ensures Value() == old(Value()).Store(u, data, r) && file == old(Value()).Kept(u, data)
    {
      if u !in files {
        files := files[u := []];
      }
      file := files[u];
      if !(u in metas && metas[u].digest == Sha(data)) {
        var chunks := Send(data, CHUNK);
        file := Receive(chunks);
        files := files[u := file];
      }
      metas := metas[u := Meta(r, Sha(file))];
    }

    /** Remove the metadata and the file, whichever there is. */
    method Remove(u: Uri)
      modifies this
      ensures Value() == old(Value()).Drop(u)
    {
      metas := metas - {u};
      if u in files {
        files := files - {u};
      }
    }

    /** Open the file for writing, which empties it. */
    method Open(u: Uri)
      modifies this
      ensures Value() == old(Value()).Receive(u, [])
    {
      files := files[u := []];
    }

    /** Write what is streamed to the open file. */
    method Write(u: Uri, chunks: seq<Bytes>)
      modifies this
      ensures Value() == old(Value()).Receive(u, Concat(chunks))
    {
      var file := Receive(chunks);
      files := files[u := file];
    }
  }

  class Cluster {
    const stores: seq<Store>

    ghost function Repr(): set<object> {
      set p | 0 <= p < |stores| :: stores[p]
    }

    ghost predicate Valid() {
      forall p, q :: 0 <= p < q < |stores| ==> stores[p] != stores[q]
    }

    /** All members, as values. */
    ghost function Members(): (ring: Ring)
      reads Repr()
      ensures |ring| == |stores|
    {
      seq(|stores|, p requires 0 <= p < |stores| reads Repr() => stores[p].Value())
    }

    constructor (stores: seq<Store>)
      requires forall p, q :: 0 <= p < q < |stores| ==> stores[p] != stores[q]
      ensures Valid() && this.stores == stores
    {
      this.stores := stores;
    }

    /** A change of one store leaves the others as they are. */
    twostate lemma Others(at: nat)
      requires Valid() && at < |stores| && forall p :: 0 <= p < |stores| && p != at ==> unchanged(stores[p])
      ensures Members() == old(Members())[at := stores[at].Value()]
    {
      forall p | 0 <= p < |stores| && p != at ensures stores[p].Value() == old(stores[p].Value()) {}
    }

    // ---- Put and delete ----

    /** `Service::put`; the result is false if the request has come back to where it started. */
    method Put(home: nat, at: nat, u: Uri, data: Bytes, r: Repl, src: Option<nat>, rebalance: bool) returns (ok: bool)
      requires Valid() && at < |stores|
      modifies Repr()
      ensures Members() == Placement.Put(old(Members()), home, at, u, data, r, src, rebalance) &&
              (ok <==> src != Some(at))
      decreases Steps(r)
    {
      if src == Some(at) {
        return false;
      }
      var deletes := rebalance && !r.HasNext();
      var file := stores[at].Keep(u, data, r);
      Others(at);
      var repl, next, origin := r.Inc(), Succ(|stores|, at), Some(src.Or(at));
      if repl.Active() && !(next == at && origin == Some(at)) {
        var _ := Put(home, next, u, file, repl, origin, rebalance);
      }
      if deletes && next != home {
        var _ := Del(next, u, origin);
      }
      ok := true;
    }

    /** `Service::del` of a file; `visited` lists the members that dropped it. */
    method Del(at: nat, u: Uri, src: Option<nat>) returns (visited: seq<nat>)
      requires Valid() && at < |stores|
      modifies Repr()
      ensures Trace(Members(), visited) == Placement.Del(old(Members()), at, u, src)
      decreases Holders(Members(), u)
    {
      if src == Some(at) {
        return [];
      }
      var known := u in stores[at].metas;
      var r := if known then stores[at].metas[u].repl else Repl(0, 0);
      ghost var holders := Holders(Members(), u);
      stores[at].Remove(u);
      Others(at);
      if !known {
        return [];
      }
      assert at in holders && at !in Holders(Members(), u);
      visited := [at];
      if r.Active() && r.HasNext() {
        var next := Succ(|stores|, at);
        if next != at {
          var rest := Del(next, u, Some(src.Or(at)));
          visited := visited + rest;
        }
      }
    }

    // ---- Get ----

    /** `Service::get` with `get_from_reference_or_replication`. */
    method Get(at: nat, u: Uri) returns (res: Result)
      requires Valid() && at < |stores|
      modifies Repr()
      ensures (Members(), res) == ReadRepair.Get(old(Members()), at, u)
      decreases Missing(Members(), u)
    {
      if u !in stores[at].files {
        if u !in stores[at].metas {
          return NotFound;
        }
        if !stores[at].metas[u].repl.Active() {
          return NotReplicated;
        }
        ghost var missing := Missing(Members(), u);
        stores[at].Open(u);
        Others(at);
        assert at in missing && at !in Missing(Members(), u);
        res := Get(Succ(|stores|, at), u);
        if res.IsError() {
          return;
        }
        var incoming := Send(res.bytes, CHUNK);
        label written: stores[at].Write(u, incoming);
        Others@written(at);
      }
      var chunks := Send(stores[at].files[u], CHUNK);
      var bytes := Receive(chunks);
      res := Data(bytes);
    }

    // ---- Rebalancing ----

    /** `Facade::rebalance` at member `s` over the files it has metadata of. */
    method Rebalance(ids: seq<int>, hash: Uri -> int, s: nat, us: seq<Uri>)
      requires Valid() && s < |stores| == |ids|
      modifies Repr()
      ensures Members() == B.RebalanceAll(old(Members()), ids, hash, s, us)
    {
      for i := 0 to |us|
        invariant B.RebalanceAll(Members(), ids, hash, s, us[i..]) == B.RebalanceAll(old(Members()), ids, hash, s, us)
      {
        var u := us[i];
        assert us[i..][0] == u && us[i..][1..] == us[i + 1..];
        var store := stores[s];
        if u in store.metas && u in store.files && store.metas[u].repl != Repl(0, 1) {
          var owner := B.Owner(ids, hash(u));
          var _ := Put(owner, owner, u, store.files[u], Repl(0, store.metas[u].repl.count), None, true);
        }
      }
    }
  }
}
