/** Notions that several modules share. */
module Basics {
  datatype Option<T> = None | Some(value: T)

  function Min(a: nat, b: nat): nat { if a < b then a else b }

  predicate Distinct<T(==)>(s: seq<T>) { forall i, j :: 0 <= i < j < |s| ==> s[i] != s[j] }

  lemma {:induction false} BoundCount(v: set<nat>, m: nat)
    requires forall x :: x in v ==> x < m
    ensures |v| <= m
  {
    if m == 0 {
      assert v == {};
    } else {
      BoundCount(v - {m - 1}, m - 1);
    }
  }

  lemma {:induction false} DistinctCount<T(!new)>(s: seq<T>, v: set<T>)
    requires Distinct(s) && forall x :: x in v <==> x in s
    ensures |v| == |s|
    decreases |s|
  {
    if s == [] {
      assert v == {};
    } else {
      var n := |s| - 1;
      assert s == s[..n] + [s[n]];
      DistinctCount(s[..n], v - {s[n]});
    }
  }

  /** There are at most m distinct numbers below m. */
  lemma DistinctBound(s: seq<nat>, m: nat)
    requires Distinct(s) && forall x :: x in s ==> x < m
    ensures |s| <= m
  {
    var v := set x | x in s;
    DistinctCount(s, v);
    BoundCount(v, m);
  }
}
