/**
  Best-first search on the graph (src/index.cpp) and its beam variant on disk
  (src/search/beam_search.cpp): what the candidate pool is at every moment, what a finished
  search has looked at, and when it is exact.
 */
module Search {
  import opened Basics
  import opened Pool

  type Graph = map<nat, seq<nat>>

  /** Edges stay inside the graph; the code stops on an id that is out of range. */
  ghost predicate Closed(g: Graph) { forall x, i :: x in g && 0 <= i < |g[x]| ==> g[x][i] in g }

  ghost function SetOf(s: seq<nat>): set<nat> { set x | x in s }

  // ---------------------------------------------------------------- the pool

  ghost function Ids(p: seq<Neighbor>): set<nat> { set i | 0 <= i < |p| :: p[i].id }

  ghost predicate Entry(x: Neighbor, dist: nat -> real, seen: set<nat>, done: set<nat>) {
    x.distance == dist(x.id) && x.id in seen && (x.flag <==> x.id !in done)
  }

  /** Sorted entries of distinct seen nodes. */
  ghost predicate Listed(p: seq<Neighbor>, dist: nat -> real, seen: set<nat>, done: set<nat>) {
    && Sorted(p)
    && (forall i :: 0 <= i < |p| ==> Entry(p[i], dist, seen, done))
    && (forall i, j :: 0 <= i < j < |p| ==> p[i].id != p[j].id)
  }

  /** Seen nodes that are not in the pool are no closer than any of its entries. */
  ghost predicate Closest(p: seq<Neighbor>, dist: nat -> real, seen: set<nat>) {
    forall x, i :: x in seen && x !in Ids(p) && 0 <= i < |p| ==> p[i].distance <= dist(x)
  }

  /** The pool is, sorted by distance, the L closest of all seen nodes, and the entries whose
      flag is off are the expanded ones. */
  ghost predicate Best(p: seq<Neighbor>, L: nat, dist: nat -> real, seen: set<nat>, done: set<nat>) {
    |p| <= L && Listed(p, dist, seen, done) && Closest(p, dist, seen) && (|p| < L ==> seen <= Ids(p))
  }

  /** Every entry before position c was expanded. */
  ghost predicate DoneTo(p: seq<Neighbor>, c: nat) { forall i :: 0 <= i < c && i < |p| ==> !p[i].flag }

  function Cut(p: seq<Neighbor>, L: nat): seq<Neighbor> { if |p| <= L then p else p[..L] }

  lemma InsertIds(p: seq<Neighbor>, r: nat, nn: Neighbor)
    requires r <= |p|
    ensures Ids(InsertAt(p, r, nn)) == Ids(p) + {nn.id}
  {
    var q := InsertAt(p, r, nn);
    forall x | x in Ids(p) ensures x in Ids(q) {
      var i :| 0 <= i < |p| && p[i].id == x;
      assert q[if i < r then i else i + 1].id == x;
    }
    assert q[r].id == nn.id;
  }

  lemma InsertListed(p: seq<Neighbor>, dist: nat -> real, seen: set<nat>, done: set<nat>, r: nat, nn: Neighbor)
    requires Listed(p, dist, seen, done) && r <= |p| && Sorted(InsertAt(p, r, nn))
    requires nn.id !in seen && nn.id !in done && nn == Neighbor(nn.id, dist(nn.id), true)
    ensures Listed(InsertAt(p, r, nn), dist, seen + {nn.id}, done)
  {
    var q := InsertAt(p, r, nn);
    forall i | 0 <= i < |q| ensures Entry(q[i], dist, seen + {nn.id}, done) {
      assert q[i] == nn || q[i] == p[if i < r then i else i - 1];
    }
    forall i, j | 0 <= i < j < |q| ensures q[i].id != q[j].id {
      if i != r { assert q[i] == p[if i < r then i else i - 1]; }
      if j != r { assert q[j] == p[if j < r then j else j - 1]; }
    }
  }

  lemma CutListed(p: seq<Neighbor>, n: nat, dist: nat -> real, seen: set<nat>, done: set<nat>)
    requires Listed(p, dist, seen, done) && n <= |p|
    ensures Listed(p[..n], dist, seen, done)
  {
  }

  lemma InsertNearer(p: seq<Neighbor>, r: nat, nn: Neighbor, i: nat)
    requires r < |p| && i < |p| && Sorted(InsertAt(p, r, nn))
    ensures exists k :: 0 <= k < |p| && InsertAt(p, r, nn)[i].distance <= p[k].distance
  {
    var q := InsertAt(p, r, nn);
    var k := if i <= r then i else i - 1;
    assert q[r + 1] == p[r];
    assert q[i].distance <= p[k].distance;
  }

  /** A seen node outside a full pool after an insertion: the entry that fell out, or one that was
      outside before. */
  lemma ClosestEntry(p: seq<Neighbor>, dist: nat -> real, seen: set<nat>, done: set<nat>, r: nat, nn: Neighbor, x: nat, i: nat)
    requires Listed(p, dist, seen, done) && Closest(p, dist, seen) && r < |p| && i < |p|
    requires nn == Neighbor(nn.id, dist(nn.id), true) && Sorted(InsertAt(p, r, nn))
    requires x in seen + {nn.id} && x !in Ids(InsertAt(p, r, nn)[..|p|])
    ensures InsertAt(p, r, nn)[i].distance <= dist(x)
  {
    var q := InsertAt(p, r, nn);
    var n := |p|;
    if x in Ids(q) {
      assert x == q[n].id by { assert q[..n] + [q[n]] == q; }
      assert q[n] == p[n - 1] && Entry(p[n - 1], dist, seen, done);
      assert q[i].distance <= q[n].distance;
    } else {
      InsertIds(p, r, nn);
      InsertNearer(p, r, nn, i);
    }
  }

  lemma InsertClosest(p: seq<Neighbor>, dist: nat -> real, seen: set<nat>, done: set<nat>, r: nat, nn: Neighbor)
    requires Listed(p, dist, seen, done) && Closest(p, dist, seen) && r < |p|
    requires nn == Neighbor(nn.id, dist(nn.id), true) && Sorted(InsertAt(p, r, nn))
    ensures Closest(InsertAt(p, r, nn)[..|p|], dist, seen + {nn.id})
  {
    var q := InsertAt(p, r, nn);
    forall x, i | x in seen + {nn.id} && x !in Ids(q[..|p|]) && 0 <= i < |p| ensures q[i].distance <= dist(x) {
      ClosestEntry(p, dist, seen, done, r, nn, x, i);
    }
  }

  /** Offering one new node keeps the pool the best of what was seen. */
  lemma InsertBest(p: seq<Neighbor>, L: nat, dist: nat -> real, seen: set<nat>, done: set<nat>, r: nat, nn: Neighbor)
    requires Best(p, L, dist, seen, done) && r <= |p| && Sorted(InsertAt(p, r, nn))
    requires nn.id !in seen && nn.id !in done && nn == Neighbor(nn.id, dist(nn.id), true)
    requires |p| == L ==> r < |p|
    ensures Best(Cut(InsertAt(p, r, nn), L), L, dist, seen + {nn.id}, done)
  {
    var q := InsertAt(p, r, nn);
    InsertListed(p, dist, seen, done, r, nn);
    InsertIds(p, r, nn);
    if |p| == L {
      CutListed(q, L, dist, seen + {nn.id}, done);
      InsertClosest(p, dist, seen, done, r, nn);
    }
  }

  lemma LastSorted(p: seq<Neighbor>, r: nat, nn: Neighbor)
    requires r <= |p| && Sorted(InsertAt(p, r, nn)) && p != []
    ensures r == |p| ==> p[|p| - 1].distance <= nn.distance
  {
    var q := InsertAt(p, r, nn);
    if r == |p| { assert q[r - 1].distance <= q[r].distance; }
  }

  lemma SkipBest(p: seq<Neighbor>, L: nat, dist: nat -> real, seen: set<nat>, done: set<nat>, x: nat)
    requires Best(p, L, dist, seen, done) && |p| == L > 0 && dist(x) >= p[L - 1].distance
    ensures Best(p, L, dist, seen + {x}, done)
  {
    forall i | 0 <= i < L ensures p[i].distance <= dist(x) { assert p[i].distance <= p[L - 1].distance; }
  }

  /** Offers one node that was not seen before; r is where it went, or the pool's length. */
  method Offer(a: array<Neighbor>, l: nat, L: nat, dist: nat -> real, id: nat, ghost seen: set<nat>, ghost done: set<nat>)
    returns (l': nat, r: nat)
    requires 1 <= l <= L < a.Length && Best(a[..l], L, dist, seen, done) && id !in seen && done <= seen
    modifies a
    ensures l <= l' <= L && Best(a[..l'], L, dist, seen + {id}, done)
    ensures r <= l && a[..r] == old(a[..r])
  {
    var d := dist(id);
    ghost var p := a[..l];
    assert p[l - 1] == a[l - 1];
    if d >= a[l - 1].distance && l == L {
      SkipBest(p, L, dist, seen, done, id);
      return l, l;
    }
    var nn := Neighbor(id, d, true);
    assert forall i :: 0 <= i < l ==> Entry(p[i], dist, seen, done);
    r := InsertIntoPool(a, l, nn);
    ghost var q := InsertAt(p, r, nn);
    LastSorted(p, r, nn);
    InsertBest(p, L, dist, seen, done, r, nn);
    assert a[..r] == q[..r] == p[..r];
    l' := if l < L then l + 1 else l;
    assert a[..l'] == Cut(q, L);
  }

  lemma DoneKept(p: seq<Neighbor>, q: seq<Neighbor>, r: nat, c: nat, c': nat)
    requires r <= |p| && r <= |q| && p[..r] == q[..r] && DoneTo(p, c) && c' <= c && c' <= r
    ensures DoneTo(q, c')
  {
    forall i | 0 <= i < c' && i < |q| ensures !q[i].flag { assert q[i] == q[..r][i] == p[..r][i] == p[i]; }
  }

  /** Offers all neighbours of a node that were not seen before, and keeps the smallest position
      where one went. */
  method OfferAll(a: array<Neighbor>, l0: nat, L: nat, dist: nat -> real, nbrs: seq<nat>, seen0: set<nat>, nk0: nat,
                  ghost done: set<nat>, ghost c: nat)
    returns (l: nat, seen: set<nat>, nk: nat)
    requires 1 <= l0 <= L < a.Length && Best(a[..l0], L, dist, seen0, done) && done <= seen0
    requires nk0 <= l0 && DoneTo(a[..l0], Min(nk0, c))
    modifies a
    ensures l0 <= l <= L && Best(a[..l], L, dist, seen, done) && seen == seen0 + SetOf(nbrs)
    ensures nk <= nk0 && DoneTo(a[..l], Min(nk, c))
  {
    l, seen, nk := l0, seen0, nk0;
    var m := 0;
    while m < |nbrs|
      invariant 0 <= m <= |nbrs|
      invariant l0 <= l <= L && Best(a[..l], L, dist, seen, done) && seen == seen0 + SetOf(nbrs[..m])
      invariant nk <= nk0 && DoneTo(a[..l], Min(nk, c))
    {
      assert nbrs[..m + 1] == nbrs[..m] + [nbrs[m]];
      assert SetOf(nbrs[..m + 1]) == SetOf(nbrs[..m]) + {nbrs[m]};
      if nbrs[m] !in seen {
        ghost var p := a[..l];
        var l', r := Offer(a, l, L, dist, nbrs[m], seen, done);
        assert p[..r] == a[..r] == a[..l'][..r];
        seen, l := seen + {nbrs[m]}, l';
        ghost var c0 := Min(nk, c);
        if r < nk { nk := r; }
        DoneKept(p, a[..l], r, c0, Min(nk, c));
      }
      m := m + 1;
    }
    assert nbrs[..m] == nbrs;
  }

  // ---------------------------------------------------------------- reachability

  ghost predicate Path(g: Graph, starts: set<nat>, path: seq<nat>) {
    && path != [] && path[0] in starts
    && (forall i :: 0 <= i < |path| - 1 ==> path[i] in g && path[i + 1] in g[path[i]])
  }

  ghost predicate Reachable(g: Graph, starts: set<nat>, x: nat) {
    exists path :: Path(g, starts, path) && path[|path| - 1] == x
  }

  lemma ReachStart(g: Graph, starts: set<nat>, x: nat)
    requires x in starts
    ensures Reachable(g, starts, x)
  {
    assert Path(g, starts, [x]);
  }

  lemma ReachStep(g: Graph, starts: set<nat>, x: nat, y: nat)
    requires Reachable(g, starts, x) && x in g && y in g[x]
    ensures Reachable(g, starts, y)
  {
    var path :| Path(g, starts, path) && path[|path| - 1] == x;
    assert Path(g, starts, path + [y]);
  }

  lemma {:induction false} ReachInside(g: Graph, starts: set<nat>, inside: set<nat>, path: seq<nat>)
    requires Path(g, starts, path) && starts <= inside && forall x :: x in inside && x in g ==> SetOf(g[x]) <= inside
    ensures path[|path| - 1] in inside
    decreases |path|
  {
    var n := |path| - 1;
    if n > 0 {
      assert Path(g, starts, path[..n]);
      ReachInside(g, starts, inside, path[..n]);
    }
  }

  // ---------------------------------------------------------------- search states

  /** What was seen: the starts and all neighbours of expanded nodes, and nothing out of reach. */
  ghost predicate Explored(g: Graph, starts: set<nat>, seen: set<nat>, done: set<nat>) {
    && starts <= seen && done <= seen <= g.Keys
    && (forall x :: x in done ==> SetOf(g[x]) <= seen)
    && (forall x :: x in seen ==> Reachable(g, starts, x))
  }

  lemma ExploreMore(g: Graph, starts: set<nat>, seen: set<nat>, done: set<nat>, n: nat)
    requires Closed(g) && Explored(g, starts, seen, done) && n in seen
    ensures Explored(g, starts, seen + SetOf(g[n]), done + {n})
  {
    forall y | y in g[n] ensures Reachable(g, starts, y) && y in g {
      ReachStep(g, starts, n, y);
      var i :| 0 <= i < |g[n]| && g[n][i] == y;
    }
  }

  /** A finished search: every pool entry was expanded, and the pool is the L closest of all
      nodes seen. */
  ghost predicate Finished(g: Graph, starts: set<nat>, dist: nat -> real, L: nat, p: seq<Neighbor>, seen: set<nat>, done: set<nat>) {
    && Best(p, L, dist, seen, done) && Explored(g, starts, seen, done) && Ids(p) <= done
  }

  lemma AllDone(p: seq<Neighbor>, L: nat, dist: nat -> real, seen: set<nat>, done: set<nat>)
    requires Best(p, L, dist, seen, done) && DoneTo(p, |p|)
    ensures Ids(p) <= done
  {
    forall x | x in Ids(p) ensures x in done {
      var i :| 0 <= i < |p| && p[i].id == x;
      assert Entry(p[i], dist, seen, done);
    }
  }

  ghost predicate IsReach(g: Graph, starts: set<nat>, reach: set<nat>) {
    forall x :: x in reach <==> Reachable(g, starts, x)
  }

  lemma {:induction false} IdsCount(p: seq<Neighbor>)
    requires forall i, j :: 0 <= i < j < |p| ==> p[i].id != p[j].id
    ensures |Ids(p)| == |p|
    decreases |p|
  {
    if p != [] {
      var n := |p| - 1;
      IdsCount(p[..n]);
      assert Ids(p) == Ids(p[..n]) + {p[n].id};
      assert p[n].id !in Ids(p[..n]);
    }
  }

  lemma SubsetCount(a: set<nat>, b: set<nat>)
    requires a <= b
    ensures |a| <= |b| && (|a| == |b| ==> a == b)
  {
    assert b == a + (b - a);
  }

  /** A pool with room for everything seen holds everything seen. */
  lemma NothingDropped(p: seq<Neighbor>, L: nat, dist: nat -> real, seen: set<nat>, done: set<nat>)
    requires Best(p, L, dist, seen, done) && |seen| <= L
    ensures seen == Ids(p)
  {
    IdsCount(p);
    forall i | 0 <= i < |p| ensures p[i].id in seen { assert Entry(p[i], dist, seen, done); }
    SubsetCount(Ids(p), seen);
  }

  lemma SeenAll(g: Graph, starts: set<nat>, seen: set<nat>, reach: set<nat>)
    requires Explored(g, starts, seen, seen) && IsReach(g, starts, reach)
    ensures seen == reach
  {
    forall x | x in reach ensures x in seen {
      var path :| Path(g, starts, path) && path[|path| - 1] == x;
      ReachInside(g, starts, seen, path);
    }
  }

  /** With room for all reachable nodes, a finished search has seen, kept and expanded exactly
      those. */
  lemma Exact(g: Graph, starts: set<nat>, dist: nat -> real, L: nat, p: seq<Neighbor>, seen: set<nat>, done: set<nat>, reach: set<nat>)
    requires Finished(g, starts, dist, L, p, seen, done) && IsReach(g, starts, reach) && |reach| <= L
    ensures seen == reach == done == Ids(p)
  {
    assert seen <= reach;
    SubsetCount(seen, reach);
    NothingDropped(p, L, dist, seen, done);
    assert done == seen;
    SeenAll(g, starts, seen, reach);
  }

  /** The first K entries are K nearest among the given nodes. */
  ghost predicate Nearest(p: seq<Neighbor>, K: nat, dist: nat -> real, among: set<nat>) {
    && Ids(p[..Min(K, |p|)]) <= among
    && (|p| < K ==> among <= Ids(p))
    && forall i, x :: 0 <= i < Min(K, |p|) && x in among && x !in Ids(p[..Min(K, |p|)]) ==> dist(p[i].id) <= dist(x)
  }

  lemma SortedNearest(p: seq<Neighbor>, K: nat, dist: nat -> real, seen: set<nat>, done: set<nat>)
    requires Listed(p, dist, seen, done) && seen == Ids(p)
    ensures Nearest(p, K, dist, seen)
  {
    var k := Min(K, |p|);
    forall j | 0 <= j < k ensures p[j].id in Ids(p[..k]) { assert p[..k][j] == p[j]; }
    forall i, x | 0 <= i < k && x in seen && x !in Ids(p[..k]) ensures dist(p[i].id) <= dist(x) {
      var j :| 0 <= j < |p| && p[j].id == x;
      assert Entry(p[i], dist, seen, done) && Entry(p[j], dist, seen, done) && p[i].distance <= p[j].distance;
    }
    forall x | x in Ids(p[..k]) ensures x in seen {
      var i :| 0 <= i < k && p[..k][i].id == x;
      assert p[i].id == x;
    }
  }
}
