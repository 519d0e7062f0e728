/** What a least-recently-used cache holds, as a sequence of entries from the most to the least recently used one. */
module Recency {
  import opened Options
  import opened Collections

  function Keys<K, V>(c: seq<(K, V)>): (r: seq<K>)
    ensures |r| == |c| && forall i :: 0 <= i < |c| ==> r[i] == c[i].0
  {
    seq(|c|, i requires 0 <= i < |c| => c[i].0)
  }

  function Without<K(==, !new), V>(c: seq<(K, V)>, k: K): seq<(K, V)> {
    if c == [] then [] else if c[0].0 == k then Without(c[1..], k) else [c[0]] + Without(c[1..], k)
  }

  /** The entry of a key. */
  function Find<K(==, !new), V>(c: seq<(K, V)>, k: K): Option<V> {
    if c == [] then None else if c[0].0 == k then Some(c[0].1) else Find(c[1..], k)
  }

  function Take<T>(n: nat, s: seq<T>): seq<T> {
    if |s| <= n then s else s[..n]
  }

  /** Move a key to the front, if it is there. */
  function Touch<K(==, !new), V>(c: seq<(K, V)>, k: K): seq<(K, V)> {
    var v := Find(c, k);
    if v.Some? then [(k, v.value)] + Without(c, k) else c
  }

  /** Insert a key at the front, and drop from the back what exceeds the capacity. */
  function Put<K(==, !new), V>(capacity: nat, c: seq<(K, V)>, k: K, v: V): seq<(K, V)> {
    Take(capacity, [(k, v)] + Without(c, k))
  }

  function Compute<K(==, !new), V>(capacity: nat, c: seq<(K, V)>, k: K, v: V): seq<(K, V)> {
    Touch(if Find(c, k).Some? then c else Put(capacity, c, k, v), k)
  }

  // ---- Traces ----

  datatype Op<K, V> = PutOp(k: K, v: V) | GetOp(k: K) | ComputeOp(k: K, v: V)

  function Apply<K(==, !new), V>(capacity: nat, c: seq<(K, V)>, op: Op<K, V>): seq<(K, V)> {
    match op
    case PutOp(k, v) => Put(capacity, c, k, v)
    case GetOp(k) => Touch(c, k)
    case ComputeOp(k, v) => Compute(capacity, c, k, v)
  }

  function Run<K(==, !new), V>(capacity: nat, ops: seq<Op<K, V>>): seq<(K, V)>
    decreases |ops|
  {
    if ops == [] then [] else Apply(capacity, Run(capacity, ops[..|ops| - 1]), ops[|ops| - 1])
  }

  /** The keys that were used: every put and every `compute_if_absent`, and the reads that found their key. */
  function Used<K(==, !new), V>(capacity: nat, ops: seq<Op<K, V>>): seq<K>
    decreases |ops|
  {
    if ops == [] then [] else
      var before, op := ops[..|ops| - 1], ops[|ops| - 1];
      Used(capacity, before) + if op.GetOp? && Find(Run(capacity, before), op.k).None? then [] else [op.k]
  }

  function Drop<K(==, !new)>(ks: seq<K>, k: K): (r: seq<K>)
    ensures k !in r && forall x :: x in r <==> x in ks && x != k
  {
    if ks == [] then [] else if ks[0] == k then Drop(ks[1..], k) else [ks[0]] + Drop(ks[1..], k)
  }

  /** The distinct keys of a sequence of uses, the last used one first. */
  function ByRecency<K(==, !new)>(uses: seq<K>): seq<K>
    decreases |uses|
  {
    if uses == [] then [] else
      var k := uses[|uses| - 1];
      [k] + Drop(ByRecency(uses[..|uses| - 1]), k)
  }

  /** The position of the last use of a key. */
  function LastUse<K(==, !new)>(uses: seq<K>, k: K): (i: int)
    ensures -1 <= i < |uses|
    ensures i >= 0 ==> uses[i] == k
    ensures forall j :: i < j < |uses| ==> uses[j] != k
    decreases |uses|
  {
    if uses == [] then -1 else if uses[|uses| - 1] == k then |uses| - 1 else LastUse(uses[..|uses| - 1], k)
  }

  ghost predicate LatestFirst<K(!new)>(uses: seq<K>, ks: seq<K>) {
    forall i, j :: 0 <= i < j < |ks| ==> LastUse(uses, ks[i]) > LastUse(uses, ks[j])
  }

  lemma {:induction false} DropKeepsOrder<K(!new)>(uses: seq<K>, ks: seq<K>, k: K)
    requires LatestFirst(uses, ks)
    ensures LatestFirst(uses, Drop(ks, k))
  {
    if ks != [] {
      DropKeepsOrder(uses, ks[1..], k);
      var r := Drop(ks[1..], k);
      forall i | 0 <= i < |r| ensures LastUse(uses, ks[0]) > LastUse(uses, r[i]) {
        assert r[i] in ks[1..];
        var j :| 0 <= j < |ks[1..]| && ks[1..][j] == r[i];
        assert ks[j + 1] == r[i];
      }
    }
  }

  /** `ByRecency` lists exactly the used keys, each once, in the order of their last uses. */
  lemma {:induction false} ByRecencyIsOrdered<K(!new)>(uses: seq<K>)
    ensures var r := ByRecency(uses);
            && (forall k :: k in r <==> k in uses)
            && LatestFirst(uses, r)
    decreases |uses|
  {
    if uses != [] {
      var before, k := uses[..|uses| - 1], uses[|uses| - 1];
      ByRecencyIsOrdered(before);
      var r := ByRecency(before);
      var d := Drop(r, k);
      DropKeepsOrder(before, r, k);
      forall i | 0 <= i < |d| ensures LastUse(uses, d[i]) == LastUse(before, d[i]) {
        assert d[i] in d;
      }
      assert forall x :: x in uses <==> x in before || x == k;
    }
  }

  lemma ByRecencyDistinct<K(!new)>(uses: seq<K>)
    ensures Distinct(ByRecency(uses))
  {
    ByRecencyIsOrdered(uses);
  }

  // ---- The cache holds the most recent keys ----

  lemma {:induction false} KeysWithout<K(!new), V(!new)>(c: seq<(K, V)>, k: K)
    ensures Keys(Without(c, k)) == Drop(Keys(c), k)
  {
    if c != [] {
      KeysWithout(c[1..], k);
      assert Keys(c) == [c[0].0] + Keys(c[1..]);
    }
  }

  lemma {:induction false} FindIsIn<K(!new), V(!new)>(c: seq<(K, V)>, k: K)
    ensures Find(c, k).Some? <==> k in Keys(c)
  {
    if c != [] {
      FindIsIn(c[1..], k);
      assert Keys(c) == [c[0].0] + Keys(c[1..]);
    }
  }

  lemma {:induction false} DropAbsent<K(!new)>(r: seq<K>, k: K)
    requires k !in r
    ensures Drop(r, k) == r
  {
    if r != [] {
      DropAbsent(r[1..], k);
    }
  }

  /** Dropping a key before or after cutting to length makes no difference, except for the last place. */
  lemma {:induction false} TakeDropPresent<K(!new)>(n: nat, r: seq<K>, k: K)
    requires Distinct(r) && k in Take(n + 1, r)
    ensures Drop(Take(n + 1, r), k) == Take(n, Drop(r, k))
  {
    var t := Take(n + 1, r);
    assert t[0] == r[0] && t[1..] == Take(n, r[1..]);
    if r[0] == k {
      DropAbsent(r[1..], k);
      DropAbsent(t[1..], k);
    } else {
      assert k in t[1..];
      TakeDropPresent(n - 1, r[1..], k);
      assert Take(n, [r[0]] + Drop(r[1..], k)) == [r[0]] + Take(n - 1, Drop(r[1..], k));
    }
  }

  lemma {:induction false} TakeDropAbsent<K(!new)>(n: nat, r: seq<K>, k: K)
    requires k !in Take(n, r)
    ensures Take(n, Drop(r, k)) == Take(n, r)
  {
    if r != [] && n > 0 {
      assert Take(n, r)[0] == r[0] && Take(n, r)[1..] == Take(n - 1, r[1..]);
      TakeDropAbsent(n - 1, r[1..], k);
      assert Take(n, [r[0]] + Drop(r[1..], k)) == [r[0]] + Take(n - 1, Drop(r[1..], k));
    }
  }

  lemma TakeFrontAbsent<K(!new)>(n: nat, r: seq<K>, k: K)
    requires k !in Take(n + 1, r)
    ensures Take(n, Drop(r, k)) == Take(n, r) && Take(n + 1, [k] + Take(n + 1, r)) == [k] + Take(n, r)
  {
    TakeDropAbsent(n, r, k);
  }

  /** Using a key of a cut sequence. */
  lemma TakeFront<K(!new)>(capacity: nat, r: seq<K>, k: K)
    requires Distinct(r)
    ensures Take(capacity, [k] + Drop(Take(capacity, r), k)) == Take(capacity, [k] + Drop(r, k))
    ensures k in Take(capacity, r) ==> [k] + Drop(Take(capacity, r), k) == Take(capacity, [k] + Drop(r, k))
  {
    if capacity > 0 {
      assert Take(capacity, [k] + Drop(r, k)) == [k] + Take(capacity - 1, Drop(r, k));
      if k in Take(capacity, r) {
        TakeDropPresent(capacity - 1, r, k);
      } else {
        DropAbsent(Take(capacity, r), k);
        TakeFrontAbsent(capacity - 1, r, k);
      }
    }
  }

  lemma KeysPut<K(!new), V(!new)>(capacity: nat, c: seq<(K, V)>, k: K, v: V)
    ensures Keys(Put(capacity, c, k, v)) == Take(capacity, [k] + Drop(Keys(c), k))
  {
    KeysWithout(c, k);
    assert Keys([(k, v)] + Without(c, k)) == [k] + Drop(Keys(c), k);
  }

  lemma KeysTouch<K(!new), V(!new)>(c: seq<(K, V)>, k: K)
    ensures Keys(Touch(c, k)) == if k in Keys(c) then [k] + Drop(Keys(c), k) else Keys(c)
  {
    KeysWithout(c, k);
    FindIsIn(c, k);
    if k in Keys(c) {
      assert Keys([(k, Find(c, k).value)] + Without(c, k)) == [k] + Drop(Keys(c), k);
    }
  }

  /** One use of a key, whether by a put or by a hit. */
  lemma UseStep<K(!new), V(!new)>(capacity: nat, c: seq<(K, V)>, r: seq<K>, op: Op<K, V>)
    requires Distinct(r) && Keys(c) == Take(capacity, r)
    requires op.GetOp? ==> op.k in Keys(c)
    ensures Keys(Apply(capacity, c, op)) == Take(capacity, [op.k] + Drop(r, op.k))
  {
    var k := op.k;
    FindIsIn(c, k);
    TakeFront(capacity, r, k);
    KeysTouch(c, k);
    if !op.GetOp? {
      KeysPut(capacity, c, k, op.v);
      if op.ComputeOp? && Find(c, k).None? {
        var p := Put(capacity, c, k, op.v);
        KeysTouch(p, k);
        if capacity > 0 {
          DropFront(Keys(p), r, capacity, k);
        }
      }
    }
  }

  /** Touching the key that is in front already. */
  lemma DropFront<K(!new)>(ks: seq<K>, r: seq<K>, capacity: nat, k: K)
    requires capacity > 0 && ks == Take(capacity, [k] + Drop(r, k))
    ensures [k] + Drop(ks, k) == ks
  {
    var rest := Take(capacity - 1, Drop(r, k));
    assert ks == [k] + rest;
    forall x | x in rest ensures x != k {
      assert x in Drop(r, k);
    }
    DropAbsent(rest, k);
  }

  /** On any trace the cache holds the first `capacity` distinct keys in reverse order of last use. */
  lemma {:induction false} CacheIsMostRecent<K(!new), V(!new)>(capacity: nat, ops: seq<Op<K, V>>)
    ensures Keys(Run(capacity, ops)) == Take(capacity, ByRecency(Used(capacity, ops)))
    decreases |ops|
  {
    if ops != [] {
      var before, op := ops[..|ops| - 1], ops[|ops| - 1];
      CacheIsMostRecent(capacity, before);
      var c, uses := Run(capacity, before), Used(capacity, before);
      FindIsIn(c, op.k);
      if op.GetOp? && Find(c, op.k).None? {
        assert Used(capacity, ops) == uses;
      } else {
        ByRecencyDistinct(uses);
        UseStep(capacity, c, ByRecency(uses), op);
        assert (uses + [op.k])[..|uses|] == uses;
        assert ByRecency(uses + [op.k]) == [op.k] + Drop(ByRecency(uses), op.k);
      }
    }
  }

  // ---- A larger pool never misses more ----

  ghost predicate ComputesOnly<K, V>(ops: seq<Op<K, V>>) {
    forall op :: op in ops ==> op.ComputeOp?
  }

  function Misses<K(==, !new), V>(capacity: nat, ops: seq<Op<K, V>>): nat
    decreases |ops|
  {
    if ops == [] then 0 else
      var before := ops[..|ops| - 1];
      Misses(capacity, before) + if Find(Run(capacity, before), ops[|ops| - 1].k).None? then 1 else 0
  }

  lemma {:induction false} ComputesUseTheSame<K(!new), V(!new)>(a: nat, b: nat, ops: seq<Op<K, V>>)
    requires ComputesOnly(ops)
    ensures Used(a, ops) == Used(b, ops)
    decreases |ops|
  {
    if ops != [] {
      ComputesUseTheSame(a, b, ops[..|ops| - 1]);
      assert ops[|ops| - 1] in ops;
    }
  }

  /** On a trace of `compute_if_absent` calls a cache holds the first keys of any larger one. */
  lemma SmallerCacheIsPrefix<K(!new), V(!new)>(a: nat, b: nat, ops: seq<Op<K, V>>)
    requires a <= b && ComputesOnly(ops)
    ensures Keys(Run(a, ops)) == Take(a, Keys(Run(b, ops)))
  {
    CacheIsMostRecent(a, ops);
    CacheIsMostRecent(b, ops);
    ComputesUseTheSame(a, b, ops);
  }

  lemma {:induction false} LargerCacheMissesLess<K(!new), V(!new)>(a: nat, b: nat, ops: seq<Op<K, V>>)
    requires a <= b && ComputesOnly(ops)
    ensures Misses(b, ops) <= Misses(a, ops)
    decreases |ops|
  {
    if ops != [] {
      var before, k := ops[..|ops| - 1], ops[|ops| - 1].k;
      LargerCacheMissesLess(a, b, before);
      SmallerCacheIsPrefix(a, b, before);
      FindIsIn(Run(a, before), k);
      FindIsIn(Run(b, before), k);
    }
  }
}
