/** The identifier circle: powers of two, clockwise distance, the open interval test and the finger starts.
    The source fixes the width at 256 bits; here it is a parameter `m`. */
module Ring {
  import opened Collections

  type Id = int

  function Pow2(n: nat): (r: nat)
    ensures r > 0
  {
    if n == 0 then 1 else 2 * Pow2(n - 1)
  }

  lemma {:induction false} Pow2Increases(a: nat, b: nat)
    requires a < b
    ensures 2 * Pow2(a) <= Pow2(b)
    decreases b
  {
    if a < b - 1 {
      Pow2Increases(a, b - 1);
    }
  }

  /** An identifier of the 2^m circle. */
  predicate IsId(m: nat, x: Id) {
    0 <= x < Pow2(m)
  }

  /** The number of clockwise steps from `a` to `b`. */
  function Dist(m: nat, a: Id, b: Id): int {
    if a <= b then b - a else b - a + Pow2(m)
  }

  /** `uuid::between`: is `x` strictly inside the clockwise interval from `from` to `to`? */
  predicate Between(from: Id, x: Id, to: Id) {
    if from < to then from < x && x < to else from < x || x < to
  }

  /** Interval membership is a statement about clockwise distances; equal ends stand for a full circle. */
  lemma BetweenIsDistance(m: nat, a: Id, x: Id, b: Id)
    requires IsId(m, a) && IsId(m, x) && IsId(m, b)
    ensures Between(a, x, b) <==> 0 < Dist(m, a, x) < if a == b then Pow2(m) else Dist(m, a, b)
  {}

  /** Addition of the fixed-width type: one lap is dropped. */
  function Wrap(m: nat, x: int): int {
    if x >= Pow2(m) then x - Pow2(m) else x
  }

  /** `calc_successor_uuid_for_index`: the sum wraps at 2^m, and is then reduced modulo 2^m - 1. */
  function Start(m: nat, self: Id, i: nat): Id {
    var w := Wrap(m, self + Pow2(i));
    if w == Pow2(m) - 1 then 0 else w
  }

  lemma SmallMod(a: int, b: int)
    requires 0 <= a < b
    ensures a % b == a
  {}

  lemma LapMod(a: int, b: int)
    requires 0 < b <= a < 2 * b
    ensures a % b == a - b
  {
    assert a == 1 * b + (a - b);
  }

  /** `Start` is the double modulus of the source. */
  lemma StartIsDoubleModulus(m: nat, self: Id, i: nat)
    requires m >= 2 && IsId(m, self) && i < m
    ensures Start(m, self, i) == (self + Pow2(i)) % Pow2(m) % (Pow2(m) - 1)
  {
    Pow2Increases(i, m);
    Pow2Increases(0, m);
    var s, size := self + Pow2(i), Pow2(m);
    if s >= size {
      LapMod(s, size);
    } else {
      SmallMod(s, size);
    }
    var w := Wrap(m, s);
    assert s % size == w;
    if w == size - 1 {
      LapMod(w, size - 1);
    } else {
      SmallMod(w, size - 1);
    }
  }

  /** How far start `i` lies clockwise of `self`. */
  function Offset(m: nat, self: Id, i: nat): int {
    Dist(m, self, Start(m, self, i))
  }

  /** Start `i` lies 2^i steps ahead, or one more when the sum lands on the largest identifier. */
  lemma OffsetIsPower(m: nat, self: Id, i: nat)
    requires m >= 2 && IsId(m, self) && i < m
    ensures IsId(m, Start(m, self, i))
    ensures Offset(m, self, i) == Pow2(i) + if Wrap(m, self + Pow2(i)) == Pow2(m) - 1 then 1 else 0
    ensures 0 < Offset(m, self, i) < Pow2(m)
  {
    Pow2Increases(i, m);
    if i < m - 1 {
      Pow2Increases(i, m - 1);
    }
    assert Pow2(m) == 2 * Pow2(m - 1) && Pow2(m - 1) == 2 * Pow2(m - 2);
  }

  /** The starts run clockwise without ever coming back to `self`, and the extra step occurs at most once. */
  lemma OffsetsIncrease(m: nat, self: Id, i: nat, j: nat)
    requires m >= 2 && IsId(m, self) && i < j < m
    ensures Offset(m, self, i) <= Offset(m, self, j)
    ensures Offset(m, self, i) == Pow2(i) || Offset(m, self, j) == Pow2(j)
  {
    OffsetIsPower(m, self, i);
    OffsetIsPower(m, self, j);
    Pow2Increases(i, j);
    Pow2Increases(j, m);
  }

  /** `y` is the first node of `s` past `x`; it is `x` itself only if `s` has no other node. */
  ghost predicate IsSucc(m: nat, s: set<Id>, x: Id, y: Id) {
    y in s && forall z :: z in s && z != x ==> y != x && Dist(m, x, y) <= Dist(m, x, z)
  }

  lemma {:induction false} SuccExists(m: nat, s: set<Id>, x: Id) returns (y: Id)
    requires s != {}
    requires forall z :: z in s ==> IsId(m, z)
    ensures IsSucc(m, s, x, y)
  {
    var w := AnyOf(s);
    y := w;
    if s != {w} {
      var y' := SuccExists(m, s - {w}, x);
      if y == x || (y' != x && Dist(m, x, y') < Dist(m, x, y)) {
        y := y';
      }
    }
  }

  /** `y` is the last node of `s` before `x`. */
  ghost predicate IsPred(m: nat, s: set<Id>, x: Id, y: Id) {
    y in s && forall z :: z in s && z != x ==> y != x && Dist(m, y, x) <= Dist(m, z, x)
  }

  lemma {:induction false} PredExists(m: nat, s: set<Id>, x: Id) returns (y: Id)
    requires s != {}
    requires forall z :: z in s ==> IsId(m, z)
    ensures IsPred(m, s, x, y)
  {
    var w := AnyOf(s);
    y := w;
    if s != {w} {
      var y' := PredExists(m, s - {w}, x);
      if y == x || (y' != x && Dist(m, y', x) < Dist(m, y, x)) {
        y := y';
      }
    }
  }
}
