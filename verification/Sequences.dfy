/** Sequences without repetition. */
module Sequences {

  predicate Distinct<T(==)>(q: seq<T>) {
    forall i, j :: 0 <= i < j < |q| ==> q[i] != q[j]
  }

  ghost function Elements<T>(q: seq<T>): set<T> {
    set x | x in q
  }

  /** A sequence without repetition is no longer than a set that holds its elements. */
  lemma {:induction false} DistinctWithin<T>(q: seq<T>, s: set<T>)
    requires Distinct(q) && forall i :: 0 <= i < |q| ==> q[i] in s
    ensures |q| <= |s|
  {
    if q != [] {
      var n := |q| - 1;
      DistinctWithin(q[..n], s - {q[n]});
    }
  }

  /** Nor longer than a sequence that holds its elements. */
  lemma DistinctFewer<T>(q: seq<T>, r: seq<T>)
    requires Distinct(q) && forall x :: x in q ==> x in r
    ensures |q| <= |r|
  {
    ElementsFewer(r);
    forall i | 0 <= i < |q| ensures q[i] in Elements(r) {
      assert q[i] in q;
    }
    DistinctWithin(q, Elements(r));
  }

  lemma {:induction false} ElementsFewer<T>(q: seq<T>)
    ensures |Elements(q)| <= |q|
  {
    if q != [] {
      var n := |q| - 1;
      ElementsFewer(q[..n]);
      assert Elements(q) == Elements(q[..n]) + {q[n]};
    }
  }

  /** The numbers below n. */
  ghost function Range(n: nat): (r: set<nat>)
    ensures |r| == n && forall x: nat :: x in r <==> x < n
  {
    if n == 0 then {} else Range(n - 1) + {n - 1}
  }
}
