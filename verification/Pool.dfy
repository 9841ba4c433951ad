/**
  The bounded candidate pool of a graph search (include/neighbor.h): an array kept sorted by
  distance, into which discovered nodes are inserted.
 */
module Pool {
  datatype Neighbor = Neighbor(id: nat, distance: real, flag: bool)

  ghost predicate Sorted(s: seq<Neighbor>) {
    forall i, j :: 0 <= i < j < |s| ==> s[i].distance <= s[j].distance
  }

  predicate HasId(s: seq<Neighbor>, id: nat) { exists i :: 0 <= i < |s| && s[i].id == id }

  /** Entries with the given id have the given distance. */
  ghost predicate SameDistance(s: seq<Neighbor>, nn: Neighbor) {
    forall i :: 0 <= i < |s| && s[i].id == nn.id ==> s[i].distance == nn.distance
  }

  function InsertAt(s: seq<Neighbor>, r: nat, nn: Neighbor): seq<Neighbor>
    requires r <= |s|
  {
    s[..r] + [nn] + s[r..]
  }

  /** The memmove that makes room at r. */
  method Shift(a: array<Neighbor>, r: nat, n: nat, nn: Neighbor)
    requires r <= n < a.Length
    modifies a
    ensures a[..n + 1] == InsertAt(old(a[..n]), r, nn)
  {
    forall i | r <= i < n { a[i + 1] := a[i]; }
    a[r] := nn;
  }

  /** The two probes around the insertion point. */
  method Bisect(a: array<Neighbor>, n: nat, nn: Neighbor) returns (left: nat, right: nat)
    requires 1 <= n <= a.Length && Sorted(a[..n])
    requires a[0].distance <= nn.distance <= a[n - 1].distance
    ensures left <= right < n && right <= left + 1 && (right == left ==> n == 1)
    ensures a[left].distance <= nn.distance <= a[right].distance
    ensures right == n - 1 || nn.distance < a[right].distance
  {
    left, right := 0, n - 1;
    while right > 1 && left < right - 1
      invariant left <= right < n && (left == right ==> n == 1)
      invariant a[left].distance <= nn.distance <= a[right].distance
      invariant right == n - 1 || nn.distance < a[right].distance
      decreases right - left
    {
      var mid := (left + right) / 2;
      if a[mid].distance > nn.distance {
        right := mid;
      } else {
        left := mid;
      }
    }
  }

  /** The backward scan over equally distant entries. */
  method ScanEqual(a: array<Neighbor>, n: nat, nn: Neighbor, left0: nat, right: nat) returns (dup: bool)
    requires 1 <= n <= a.Length && Sorted(a[..n]) && SameDistance(a[..n], nn)
    requires left0 <= right < n && right <= left0 + 1
    requires a[left0].distance <= nn.distance && (right == n - 1 || nn.distance < a[right].distance)
    ensures dup == HasId(a[..n], nn.id)
  {
    var left := left0;
    ghost var s := a[..n];
    while left > 0
      invariant 0 <= left <= left0
      invariant forall i :: left < i <= left0 ==> s[i].id != nn.id
    {
      if a[left].distance < nn.distance { break; }
      if a[left].id == nn.id {
        assert s[left].id == nn.id;
        return true;
      }
      left := left - 1;
    }
    dup := a[left].id == nn.id || a[right].id == nn.id;
    assert a[left] == s[left] && a[right] == s[right];
    forall i | 0 <= i < n && s[i].id == nn.id ensures i == left || i == right {
      assert s[i].distance == nn.distance;
    }
  }

  /** Returns n + 1 and changes nothing exactly if the id is present; otherwise inserts the
      entry at the returned position and keeps the pool sorted. */
  method InsertIntoPool(a: array<Neighbor>, n: nat, nn: Neighbor) returns (r: nat)
    requires 1 <= n < a.Length && Sorted(a[..n]) && SameDistance(a[..n], nn)
    modifies a
    ensures r <= n + 1 && (r == n + 1 <==> HasId(old(a[..n]), nn.id))
    ensures r == n + 1 ==> a[..] == old(a[..])
    ensures r <= n ==> a[..n + 1] == InsertAt(old(a[..n]), r, nn) && Sorted(a[..n + 1])
  {
    ghost var s := a[..n];
    assert forall i :: 0 <= i < n ==> a[i] == s[i];
    if a[0].distance > nn.distance {
      Shift(a, 0, n, nn);
      InsertSorted(s, 0, nn);
      return 0;
    }
    if a[n - 1].distance < nn.distance {
      a[n] := nn;
      assert a[..n + 1] == InsertAt(s, n, nn);
      InsertSorted(s, n, nn);
      return n;
    }
    var left, right := Bisect(a, n, nn);
    var dup := ScanEqual(a, n, nn, left, right);
    if dup { return n + 1; }
    Shift(a, right, n, nn);
    InsertSorted(s, right, nn);
    r := right;
  }

  lemma InsertSorted(s: seq<Neighbor>, r: nat, nn: Neighbor)
    requires Sorted(s) && r <= |s|
    requires r > 0 ==> s[r - 1].distance <= nn.distance
    requires r < |s| ==> nn.distance <= s[r].distance
    ensures Sorted(InsertAt(s, r, nn))
  {
  }

  // ---------------------------------------------------------------- sorting

  predicate Less(a: Neighbor, b: Neighbor) {
    a.distance < b.distance || (a.distance == b.distance && a.id < b.id)
  }

  ghost predicate Ordered(s: seq<Neighbor>) { forall i, j :: 0 <= i < j < |s| ==> !Less(s[j], s[i]) }

  function Rank(s: seq<Neighbor>, x: Neighbor): (r: nat)
    ensures r <= |s| && (forall i :: 0 <= i < r ==> !Less(x, s[i])) && (r < |s| ==> Less(x, s[r]))
  {
    if s == [] || Less(x, s[0]) then 0 else 1 + Rank(s[1..], x)
  }

  /** Sorting by distance and then id. */
  function SortSeq(s: seq<Neighbor>): (t: seq<Neighbor>)
    ensures |t| == |s|
  {
    if s == [] then []
    else
      var n := |s| - 1;
      var t := SortSeq(s[..n]);
      InsertAt(t, Rank(t, s[n]), s[n])
  }

  lemma InsertOrdered(t: seq<Neighbor>, r: nat, x: Neighbor)
    requires Ordered(t) && r <= |t| && (forall i :: 0 <= i < r ==> !Less(x, t[i])) && (r < |t| ==> Less(x, t[r]))
    ensures Ordered(InsertAt(t, r, x))
  {
    var q := InsertAt(t, r, x);
    forall i, j | 0 <= i < j < |q| ensures !Less(q[j], q[i]) {
      if i == r {
        assert q[j] == t[j - 1] && (j - 1 > r ==> !Less(t[j - 1], t[r]));
      } else {
        assert q[i] == t[if i < r then i else i - 1];
        if j != r { assert q[j] == t[if j < r then j else j - 1]; }
      }
    }
  }

  lemma {:induction false} SortOrdered(s: seq<Neighbor>)
    ensures Ordered(SortSeq(s)) && Sorted(SortSeq(s))
    decreases |s|
  {
    if s != [] {
      var n := |s| - 1;
      SortOrdered(s[..n]);
      var t := SortSeq(s[..n]);
      InsertOrdered(t, Rank(t, s[n]), s[n]);
    }
  }

  ghost predicate DistinctIds(s: seq<Neighbor>) { forall i, j :: 0 <= i < j < |s| ==> s[i].id != s[j].id }

  lemma InsertDistinct(t: seq<Neighbor>, r: nat, x: Neighbor)
    requires DistinctIds(t) && r <= |t| && forall i :: 0 <= i < |t| ==> t[i].id != x.id
    ensures DistinctIds(InsertAt(t, r, x))
  {
  }

  /** Sorting permutes. */
  lemma {:induction false} SortKeeps(s: seq<Neighbor>)
    ensures multiset(SortSeq(s)) == multiset(s)
    ensures (forall x :: x in SortSeq(s) <==> x in s) && (DistinctIds(s) ==> DistinctIds(SortSeq(s)))
    decreases |s|
  {
    if s != [] {
      var n := |s| - 1;
      SortKeeps(s[..n]);
      var t := SortSeq(s[..n]);
      assert s == s[..n] + [s[n]];
      var r := Rank(t, s[n]);
      assert t == t[..r] + t[r..];
      if DistinctIds(s) {
        forall i | 0 <= i < |t| ensures t[i].id != s[n].id { assert t[i] in s[..n]; }
        InsertDistinct(t, Rank(t, s[n]), s[n]);
      }
    }
  }

  /** std::sort on the first n entries. */
  method SortPrefix(a: array<Neighbor>, n: nat)
    requires n <= a.Length
    modifies a
    ensures a[..n] == SortSeq(old(a[..n])) && a[n..] == old(a[n..])
  {
    var s := SortSeq(a[..n]);
    var i := 0;
    while i < n
      invariant 0 <= i <= n && a[..i] == s[..i] && a[n..] == old(a[n..])
    {
      a[i] := s[i];
      i := i + 1;
    }
  }
}
