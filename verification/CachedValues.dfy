/** Which value a least-recently-used cache has for a key. */
module CachedValues {
  import opened Options
  import opened Recency

  lemma {:induction false} FindWithout<K(!new), V(!new)>(c: seq<(K, V)>, k: K, x: K)
    ensures Find(Without(c, k), x) == if x == k then None else Find(c, x)
  {
    if c != [] {
      FindWithout(c[1..], k, x);
    }
  }

  /** Evicting entries changes no value that stays. */
  lemma {:induction false} FindTake<K(!new), V(!new)>(n: nat, c: seq<(K, V)>, x: K)
    ensures Find(Take(n, c), x).Some? ==> Find(Take(n, c), x) == Find(c, x)
  {
    if c != [] && n > 0 && c[0].0 != x {
      FindTake(n - 1, c[1..], x);
      assert Take(n, c)[1..] == Take(n - 1, c[1..]);
    }
  }

  /** After a put the key has the value given, and every other key that is still there has the one it had. */
  lemma PutGives<K(!new), V(!new)>(capacity: nat, c: seq<(K, V)>, k: K, v: V, x: K)
    ensures var c' := Put(capacity, c, k, v);
            && (capacity > 0 ==> Find(c', k) == Some(v))
            && (capacity == 0 ==> c' == [])
            && (x != k && Find(c', x).Some? ==> Find(c', x) == Find(c, x))
  {
    FindTake(capacity, [(k, v)] + Without(c, k), x);
    FindWithout(c, k, x);
    assert ([(k, v)] + Without(c, k))[1..] == Without(c, k);
  }

  /** A touch changes no value. */
  lemma TouchKeeps<K(!new), V(!new)>(c: seq<(K, V)>, k: K, x: K)
    ensures Find(Touch(c, k), x) == Find(c, x)
  {
    if Find(c, k).Some? {
      FindWithout(c, k, x);
      assert ([(k, Find(c, k).value)] + Without(c, k))[1..] == Without(c, k);
    }
  }

  /** Is the key among the `capacity` most recently used ones? */
  predicate Held<K(==, !new), V(!new)>(capacity: nat, ops: seq<Op<K, V>>, k: K) {
    k in Take(capacity, ByRecency(Used(capacity, ops)))
  }

  lemma HeldIsFound<K(!new), V(!new)>(capacity: nat, ops: seq<Op<K, V>>, k: K)
    ensures Find(Run(capacity, ops), k).Some? <==> Held(capacity, ops, k)
  {
    CacheIsMostRecent(capacity, ops);
    FindIsIn(Run(capacity, ops), k);
  }

  /** The value that was last given to a key: by a put, or by a `compute_if_absent` when the key was not held. */
  function LastGiven<K(==, !new), V(!new)>(capacity: nat, ops: seq<Op<K, V>>, k: K): Option<V>
    decreases |ops|
  {
    if ops == [] then None else
      var before, op := ops[..|ops| - 1], ops[|ops| - 1];
      if op.k == k && (op.PutOp? || (op.ComputeOp? && !Held(capacity, before, k))) then Some(op.v)
      else LastGiven(capacity, before, k)
  }

  lemma ApplyGives<K(!new), V(!new)>(capacity: nat, c: seq<(K, V)>, op: Op<K, V>, x: K)
    requires Find(Apply(capacity, c, op), x).Some?
    ensures Find(Apply(capacity, c, op), x) ==
            if op.k == x && (op.PutOp? || (op.ComputeOp? && Find(c, x).None?)) then Some(op.v) else Find(c, x)
  {
    match op
    case PutOp(k, v) => PutGives(capacity, c, k, v, x);
    case GetOp(k) => TouchKeeps(c, k, x);
    case ComputeOp(k, v) =>
      var c1 := if Find(c, k).Some? then c else Put(capacity, c, k, v);
      TouchKeeps(c1, k, x);
      PutGives(capacity, c, k, v, x);
  }

  /** On any trace of puts, reads and computes, a key has a value exactly if it is among the most recently used ones,
      and it is the value last given to it. */
  lemma {:induction false} ValueIsLastGiven<K(!new), V(!new)>(capacity: nat, ops: seq<Op<K, V>>, k: K)
    ensures Find(Run(capacity, ops), k) == if Held(capacity, ops, k) then LastGiven(capacity, ops, k) else None
    decreases |ops|
  {
    HeldIsFound(capacity, ops, k);
    if ops != [] && Held(capacity, ops, k) {
      var before, op := ops[..|ops| - 1], ops[|ops| - 1];
      HeldIsFound(capacity, before, k);
      ValueIsLastGiven(capacity, before, k);
      ApplyGives(capacity, Run(capacity, before), op, k);
    }
  }
}
