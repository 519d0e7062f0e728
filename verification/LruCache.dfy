/** The cache behind the channel pool: a list of entries, and a map from each key to its own list node. */
module LruCache {
  import opened Options
  import opened Recency

  /** A list node; a reference to it plays the part of a list iterator. */
  class ListNode<K, V> {
    const key: K
    const val: V

    constructor (key: K, val: V)
      ensures this.key == key && this.val == val
    {
      this.key, this.val := key, val;
    }
  }

  /** The list without one of its nodes. */
  function Unlink<K, V>(list: seq<ListNode<K, V>>, node: ListNode<K, V>): seq<ListNode<K, V>> {
    if list == [] then [] else if list[0] == node then list[1..] else [list[0]] + Unlink(list[1..], node)
  }

  function Entries<K, V>(list: seq<ListNode<K, V>>): seq<(K, V)> {
    seq(|list|, i requires 0 <= i < |list| => (list[i].key, list[i].val))
  }

  ghost predicate DistinctKeys<K, V>(list: seq<ListNode<K, V>>) {
    forall i, j :: 0 <= i < j < |list| ==> list[i].key != list[j].key
  }

  lemma {:induction false} UnlinkIsWithout<K(!new), V(!new)>(list: seq<ListNode<K, V>>, node: ListNode<K, V>)
    requires DistinctKeys(list) && node in list
    ensures Entries(Unlink(list, node)) == Without(Entries(list), node.key)
    ensures forall n :: n in Unlink(list, node) <==> n in list && n != node
    ensures DistinctKeys(Unlink(list, node)) && |Unlink(list, node)| == |list| - 1
    ensures forall i :: 0 <= i < |list| - 1 ==> Unlink(list, node)[i].key != node.key
  {
    var rest := list[1..];
    assert Entries(list) == [(list[0].key, list[0].val)] + Entries(rest);
    if list[0] == node {
      WithoutAbsent(rest, node.key);
    } else {
      UnlinkIsWithout(rest, node);
      assert node.key != list[0].key;
      var u := Unlink(rest, node);
      assert Entries(Unlink(list, node)) == [(list[0].key, list[0].val)] + Entries(u);
      forall i | 0 <= i < |u| ensures u[i].key != list[0].key {
        assert u[i] in rest;
      }
    }
  }

  lemma {:induction false} WithoutAbsent<K(!new), V(!new)>(list: seq<ListNode<K, V>>, k: K)
    requires forall n :: n in list ==> n.key != k
    ensures Without(Entries(list), k) == Entries(list) && Find(Entries(list), k).None?
  {
    if list != [] {
      assert Entries(list) == [(list[0].key, list[0].val)] + Entries(list[1..]);
      WithoutAbsent(list[1..], k);
    }
  }

  lemma {:induction false} FindNode<K(!new), V(!new)>(list: seq<ListNode<K, V>>, node: ListNode<K, V>)
    requires DistinctKeys(list) && node in list
    ensures Find(Entries(list), node.key) == Some(node.val)
  {
    assert Entries(list) == [(list[0].key, list[0].val)] + Entries(list[1..]);
    if list[0] != node {
      var i :| 0 <= i < |list| && list[i] == node;
      assert list[1..][i - 1] == node;
      FindNode(list[1..], node);
    }
  }

  lemma FrontDistinct<K(!new), V(!new)>(node: ListNode<K, V>, rest: seq<ListNode<K, V>>)
    requires DistinctKeys(rest) && forall i :: 0 <= i < |rest| ==> rest[i].key != node.key
    ensures DistinctKeys([node] + rest) && Entries([node] + rest) == [(node.key, node.val)] + Entries(rest)
  {}

  /** The list with one of its nodes moved to the front. */
  lemma Splice<K(!new), V(!new)>(list: seq<ListNode<K, V>>, node: ListNode<K, V>)
    requires DistinctKeys(list) && node in list
    ensures var r := [node] + Unlink(list, node);
            && DistinctKeys(r) && |r| == |list| && (forall n :: n in r <==> n in list)
            && Entries(r) == [(node.key, node.val)] + Without(Entries(list), node.key)
  {
    UnlinkIsWithout(list, node);
    FrontDistinct(node, Unlink(list, node));
  }

  lemma {:induction false} WithoutLast<K(!new), V(!new)>(list: seq<ListNode<K, V>>)
    requires DistinctKeys(list) && list != []
    ensures Without(Entries(list), list[|list| - 1].key) == Entries(list)[..|list| - 1]
  {
    var e := Entries(list);
    assert e == [(list[0].key, list[0].val)] + Entries(list[1..]);
    if |list| > 1 {
      WithoutLast(list[1..]);
      assert e[..|list| - 1] == [e[0]] + Entries(list[1..])[..|list| - 2];
    }
  }

  class LRUCache<K(==, !new), V(!new)> {
    const capacity: nat
    var list: seq<ListNode<K, V>>
    var index: map<K, ListNode<K, V>>

    /** Each key of the map is the key of one list node, and the map points at that node. */
    ghost predicate Linked()
      reads this
    {
      && DistinctKeys(list)
      && (forall n :: n in list ==> n.key in index && index[n.key] == n)
      && (forall k :: k in index ==> index[k] in list && index[k].key == k)
    }

    ghost predicate Valid()
      reads this
    {
      Linked() && |list| <= capacity
    }

    /** The entries from the most to the least recently used one. */
    ghost function Contents(): seq<(K, V)>
      reads this
    {
      Entries(list)
    }

    constructor (capacity: nat)
      ensures Valid() && this.capacity == capacity && Contents() == []
    {
      this.capacity := capacity;
      list, index := [], map[];
    }

    method Clear()
      modifies this
      ensures Valid() && Contents() == []
    {
      list, index := [], map[];
    }

    method Exists(k: K) returns (found: bool)
      requires Linked()
      ensures (found <==> k in index) && (found <==> Find(Contents(), k).Some?)
    {
      found := k in index;
      if found {
        FindNode(list, index[k]);
      } else {
        WithoutAbsent(list, k);
      }
    }

    method Erase(k: K) returns (found: bool)
      requires Linked()
      modifies this
      ensures Linked() && Contents() == Without(old(Contents()), k)
      ensures found <==> Find(old(Contents()), k).Some?
      ensures |list| == old(|list|) - (if found then 1 else 0) && k !in index
    {
      found := Exists(k);
      if k !in index {
        WithoutAbsent(list, k);
        return;
      }
      var node := index[k];
      UnlinkIsWithout(list, node);
      list := Unlink(list, node);
      index := index - {k};
    }

    /** `_touch`: splice the node of a key to the front. */
    method Touch(k: K) returns (found: bool)
      requires Valid()
      modifies this
      ensures Valid() && Contents() == Recency.Touch(old(Contents()), k)
      ensures (found <==> Find(old(Contents()), k).Some?) && index == old(index) && (found <==> k in index)
      ensures found ==> index[k].val == Find(old(Contents()), k).value
    {
      found := Exists(k);
      if found {
        var node := index[k];
        FindNode(list, node);
        Splice(list, node);
        list := [node] + Unlink(list, node);
      }
    }

    /** The value of a key, which becomes the most recently used one; without it, the call throws. */
    method Get(k: K) returns (v: Option<V>)
      requires Valid()
      modifies this
      ensures Valid() && Contents() == Recency.Touch(old(Contents()), k) && v == Find(old(Contents()), k)
    {
      var found := Touch(k);
      v := if found then Some(index[k].val) else None;
    }

    method PushFront(k: K, v: V)
      requires Linked() && k !in index
      modifies this
      ensures Linked() && Contents() == [(k, v)] + old(Contents()) && |list| == old(|list|) + 1
    {
      var node := new ListNode(k, v);
      assert forall i :: 0 <= i < |list| ==> list[i] in list && list[i].key != k;
      FrontDistinct(node, list);
      list := [node] + list;
      index := index[k := node];
    }

    /** `_put`: drop the key, insert it at the front, and evict from the back while the list is too long. */
    method Put(k: K, v: V)
      requires Valid()
      modifies this
      ensures Valid() && Contents() == Recency.Put(capacity, old(Contents()), k, v)
    {
      var _ := Erase(k);
      PushFront(k, v);
      ghost var full := Contents();
      while |list| > capacity
        invariant Linked() && |list| <= |full| && Contents() == full[..|list|]
        invariant |list| >= capacity || |list| == |full|
      {
        WithoutLast(list);
        var last := list[|list| - 1];
        assert last in list;
        var _ := Erase(last.key);
      }
    }

    /** The value of a key, computed and inserted first if there is none. With capacity 0 the call throws. */
    method ComputeIfAbsent(k: K, f: K -> V) returns (v: Option<V>)
      requires Valid()
      modifies this
      ensures Valid() && Contents() == Compute(capacity, old(Contents()), k, f(k))
      ensures v == if Find(old(Contents()), k).Some? then Find(old(Contents()), k)
                   else if capacity > 0 then Some(f(k)) else None
    {
      var found := Exists(k);
      if !found {
        Put(k, f(k));
      }
      v := Get(k);
    }
  }
}
