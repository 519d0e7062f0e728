/** Sets and sequences: choosing an element, counting, and the absence of repetition. */
module Collections {

  ghost function AnyOf<T>(s: set<T>): (x: T)
    requires s != {}
    ensures x in s
  {
    var x :| x in s;
    x
  }

  lemma {:induction false} SubsetSize<T>(a: set<T>, b: set<T>)
    requires a <= b
    ensures |a| <= |b|
    decreases |a|
  {
    if a != {} {
      var x := AnyOf(a);
      SubsetSize(a - {x}, b - {x});
    }
  }

  lemma {:induction false} InjectiveImage(f: map<int, int>, d: set<int>)
    requires d <= f.Keys
    requires forall a, b :: a in d && b in d && f[a] == f[b] ==> a == b
    ensures |set n | n in d :: f[n]| == |d|
    decreases |d|
  {
    if d != {} {
      var x := AnyOf(d);
      InjectiveImage(f, d - {x});
      assert (set n | n in d :: f[n]) == (set n | n in d - {x} :: f[n]) + {f[x]};
    }
  }

  /** The elements of `s` in some order. */
  lemma {:induction false} Listed<T>(s: set<T>) returns (xs: seq<T>)
    ensures forall x :: x in xs <==> x in s
    decreases |s|
  {
    if s == {} {
      xs := [];
    } else {
      var x := AnyOf(s);
      var rest := Listed(s - {x});
      xs := rest + [x];
    }
  }

  ghost predicate Distinct<T>(xs: seq<T>) {
    forall i, j :: 0 <= i < j < |xs| ==> xs[i] != xs[j]
  }
}
