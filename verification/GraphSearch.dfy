/**
  The two searches themselves: `iterate_to_fixed_point` (src/index.cpp) and `do_beam_search`
  with its result loop (src/search/beam_search.cpp).
 */
module GraphSearch {
  import opened Basics
  import opened Pool
  import opened Search

  /** Unsorted fresh entries of distinct nodes. */
  ghost predicate FreshList(s: seq<Neighbor>, dist: nat -> real) {
    && (forall i :: 0 <= i < |s| ==> s[i] == Neighbor(s[i].id, dist(s[i].id), true))
    && (forall i, j :: 0 <= i < j < |s| ==> s[i].id != s[j].id)
  }

  lemma FreshLess(s: seq<Neighbor>, dist: nat -> real)
    requires FreshList(s, dist) && s != []
    ensures var n := |s| - 1;
            FreshList(s[..n], dist) && Ids(s) == Ids(s[..n]) + {s[n].id} && s[n].id !in Ids(s[..n])
  {
    var n := |s| - 1;
    assert s == InsertAt(s[..n], n, s[n]);
    InsertIds(s[..n], n, s[n]);
  }

  lemma {:induction false} SortListed(s: seq<Neighbor>, dist: nat -> real)
    requires FreshList(s, dist)
    ensures Listed(SortSeq(s), dist, Ids(s), {}) && Ids(SortSeq(s)) == Ids(s)
    decreases |s|
  {
    if s != [] {
      var n := |s| - 1;
      var t, x := SortSeq(s[..n]), s[n];
      FreshLess(s, dist);
      SortListed(s[..n], dist);
      SortOrdered(s);
      InsertListed(t, dist, Ids(s[..n]), {}, Rank(t, x), x);
      InsertIds(t, Rank(t, x), x);
    }
  }

  /** The distinct initial ids, at most L of them, as a sorted pool. */
  method Starts(g: Graph, dist: nat -> real, L: nat, init: seq<nat>) returns (a: array<Neighbor>, l: nat, seen: set<nat>)
    requires L >= 1 && forall x :: x in init ==> x in g
    ensures fresh(a) && a.Length == L + 1 && l <= L && Best(a[..l], L, dist, seen, {}) && seen == Ids(a[..l])
    ensures Explored(g, seen, seen, {}) && seen <= SetOf(init) && (l < L ==> seen == SetOf(init))
  {
    a := new Neighbor[L + 1](_ => Neighbor(0, 0.0, false));
    l, seen := 0, {};
    var i := 0;
    while i < |init|
      invariant 0 <= i <= |init| && l < L && fresh(a)
      invariant FreshList(a[..l], dist) && seen == Ids(a[..l]) == SetOf(init[..i])
    {
      var id := init[i];
      assert init[..i + 1] == init[..i] + [id];
      assert SetOf(init[..i + 1]) == SetOf(init[..i]) + {id};
      if id !in seen {
        ghost var p := a[..l];
        a[l] := Neighbor(id, dist(id), true);
        assert a[..l + 1] == InsertAt(p, l, a[l]);
        InsertIds(p, l, a[l]);
        FreshMore(p, dist, id);
        seen, l := seen + {id}, l + 1;
      }
      i := i + 1;
      if l == L { break; }
    }
    assert init[..i] <= init && (i == |init| ==> init[..i] == init);
    ghost var s := a[..l];
    SortListed(s, dist);
    SortPrefix(a, l);
    forall x | x in seen ensures Reachable(g, seen, x) { ReachStart(g, seen, x); }
  }

  lemma FreshMore(p: seq<Neighbor>, dist: nat -> real, id: nat)
    requires FreshList(p, dist) && id !in Ids(p)
    ensures FreshList(p + [Neighbor(id, dist(id), true)], dist)
  {
  }

  /** Switching a flag off records an expansion. */
  lemma FlagOff(p: seq<Neighbor>, i: nat, L: nat, dist: nat -> real, seen: set<nat>, done: set<nat>)
    requires Best(p, L, dist, seen, done) && i < |p|
    ensures Best(p[i := p[i].(flag := false)], L, dist, seen, done + {p[i].id}) && p[i].id in seen
    ensures Ids(p[i := p[i].(flag := false)]) == Ids(p)
  {
    var q := p[i := p[i].(flag := false)];
    assert forall j :: 0 <= j < |p| ==> q[j].id == p[j].id && q[j].distance == p[j].distance;
    forall x ensures x in Ids(q) <==> x in Ids(p) {
      if x in Ids(p) {
        var j :| 0 <= j < |p| && p[j].id == x;
        assert q[j].id == x;
      }
    }
    forall j | 0 <= j < |q| ensures Entry(q[j], dist, seen, done + {p[i].id}) {
      assert Entry(p[j], dist, seen, done);
    }
  }

  /** The list of expanded nodes that a search reports. */
  ghost predicate Reported(expanded: seq<nat>, done: set<nat>, hidden: set<nat>) {
    && SetOf(expanded) == done - hidden
    && Distinct(expanded)
  }

  lemma ReportMore(expanded: seq<nat>, done: set<nat>, hidden: set<nat>, n: nat)
    requires Reported(expanded, done, hidden) && n !in done
    ensures Reported(if n in hidden then expanded else expanded + [n], done + {n}, hidden)
  {
    var e := if n in hidden then expanded else expanded + [n];
    forall i | 0 <= i < |expanded| ensures expanded[i] in done { assert expanded[i] in SetOf(expanded); }
    forall x ensures x in SetOf(e) <==> x in done + {n} - hidden {
      assert x in SetOf(expanded) <==> x in done - hidden;
    }
  }

  lemma DoneNext(p: seq<Neighbor>, k: nat)
    requires DoneTo(p, k) && k < |p| && !p[k].flag
    ensures DoneTo(p, k + 1)
  {
  }

  /** Expands entry k: its neighbours are offered, and the search continues at the first position
      that may not be expanded yet. */
  method Expand(g: Graph, a: array<Neighbor>, l: nat, L: nat, dist: nat -> real, k: nat, seen: set<nat>, ghost done: set<nat>)
    returns (l': nat, seen': set<nat>, k': nat)
    requires k < l <= L < a.Length && Best(a[..l], L, dist, seen, done) && DoneTo(a[..l], k)
    requires done <= seen && a[k].id in g
    modifies a
    ensures l <= l' <= L && k' <= l'
    ensures seen' == seen + SetOf(g[old(a[k].id)]) && Best(a[..l'], L, dist, seen', done + {old(a[k].id)})
    ensures DoneTo(a[..l'], k')
  {
    ghost var p := a[..l];
    var n := a[k].id;
    FlagOff(p, k, L, dist, seen, done);
    a[k] := a[k].(flag := false);
    assert a[..l] == p[k := p[k].(flag := false)];
    var nk;
    l', seen', nk := OfferAll(a, l, L, dist, g[n], seen, l, done + {n}, k + 1);
    k' := if nk <= k then nk else k + 1;
  }

  /** Best-first search.  It always ends, with every pool entry expanded and the pool the L
      closest of all nodes it has seen. */
  method IterateToFixedPoint(g: Graph, dist: nat -> real, L: nat, init: seq<nat>, hidden: set<nat>)
    returns (a: array<Neighbor>, l: nat, expanded: seq<nat>, ghost starts: set<nat>, ghost seen: set<nat>, ghost done: set<nat>)
    requires Closed(g) && L >= 1 && forall x :: x in init ==> x in g
    ensures l <= a.Length && Finished(g, starts, dist, L, a[..l], seen, done) && Reported(expanded, done, hidden)
    ensures starts <= SetOf(init) && (|starts| < L ==> starts == SetOf(init))
  {
    var visited;
    a, l, visited := Starts(g, dist, L, init);
    IdsCount(a[..l]);
    starts, done := visited, {};
    expanded := [];
    var k: nat := 0;
    while k < l
      invariant k <= l <= L < a.Length && fresh(a)
      invariant Best(a[..l], L, dist, visited, done) && DoneTo(a[..l], k)
      invariant Explored(g, starts, visited, done) && Reported(expanded, done, hidden)
      decreases g.Keys - done, l - k
    {
      if a[k].flag {
        ghost var p := a[..l];
        var n := a[k].id;
        assert Entry(p[k], dist, visited, done);
        ReportMore(expanded, done, hidden, n);
        ExploreMore(g, starts, visited, done, n);
        l, visited, k := Expand(g, a, l, L, dist, k, visited, done);
        if n !in hidden { expanded := expanded + [n]; }
        done := done + {n};
      } else {
        DoneNext(a[..l], k);
        k := k + 1;
      }
    }
    AllDone(a[..l], L, dist, visited, done);
    seen := visited;
  }

  // ---------------------------------------------------------------- beam search

  /** New entries for the frontier: seen, not expanded, and each once. */
  ghost predicate Picked(frontier: seq<nat>, seen: set<nat>, done: set<nat>) {
    && (forall i :: 0 <= i < |frontier| ==> frontier[i] in seen && frontier[i] !in done)
    && Distinct(frontier)
  }

  /** The ids of the flagged entries, in order. */
  function Flagged(p: seq<Neighbor>): seq<nat> {
    if p == [] then []
    else
      var n := |p| - 1;
      if p[n].flag then Flagged(p[..n]) + [p[n].id] else Flagged(p[..n])
  }

  lemma FlaggedNext(p: seq<Neighbor>, k: nat, m: nat)
    requires k <= m < |p|
    ensures Flagged(p[k..m + 1]) == if p[m].flag then Flagged(p[k..m]) + [p[m].id] else Flagged(p[k..m])
  {
    var q := p[k..m + 1];
    assert q[..|q| - 1] == p[k..m] && q[|q| - 1] == p[m];
  }

  lemma AddDistinct(s: seq<nat>, x: nat)
    requires Distinct(s) && x !in s
    ensures Distinct(s + [x])
  {
  }

  lemma {:induction false} FlaggedIds(p: seq<Neighbor>)
    ensures forall x :: x in Flagged(p) <==> exists i :: 0 <= i < |p| && p[i].flag && p[i].id == x
    ensures DistinctIds(p) ==> Distinct(Flagged(p))
    decreases |p|
  {
    if p != [] {
      var n := |p| - 1;
      FlaggedIds(p[..n]);
      forall x ensures x in Flagged(p) <==> exists i :: 0 <= i < |p| && p[i].flag && p[i].id == x {
        if x in Flagged(p[..n]) {
          var i :| 0 <= i < n && p[..n][i].flag && p[..n][i].id == x;
          assert p[i].id == x;
        }
        if i :| 0 <= i < |p| && p[i].flag && p[i].id == x {
          if i < n { assert p[..n][i].id == x; }
        }
      }
      if DistinctIds(p) {
        assert forall y :: y in Flagged(p[..n]) ==> y != p[n].id;
        AddDistinct(Flagged(p[..n]), p[n].id);
      }
    }
  }

  /** They stand in pool order. */
  lemma {:induction false} FlaggedOrder(p: seq<Neighbor>, a: nat, b: nat, i: nat, j: nat)
    requires DistinctIds(p) && a < b < |Flagged(p)| && i < |p| && j < |p| && p[i].id == Flagged(p)[a] && p[j].id == Flagged(p)[b]
    ensures i < j
    decreases |p|
  {
    var n := |p| - 1;
    FlaggedIds(p[..n]);
    var f := Flagged(p[..n]);
    assert f[a] in f;
    var k :| 0 <= k < n && p[..n][k].id == f[a];
    if b < |f| {
      assert f[b] in f;
      var l :| 0 <= l < n && p[..n][l].id == f[b];
      FlaggedOrder(p[..n], a, b, k, l);
    }
  }

  /** The pool with the flags of positions k to m off. */
  function Unflag(p: seq<Neighbor>, k: nat, m: nat): seq<Neighbor> {
    seq(|p|, i requires 0 <= i < |p| => if k <= i < m then p[i].(flag := false) else p[i])
  }

  lemma UnflagIds(p: seq<Neighbor>, k: nat, m: nat)
    ensures Ids(Unflag(p, k, m)) == Ids(p)
  {
    var q := Unflag(p, k, m);
    forall x ensures x in Ids(q) <==> x in Ids(p) {
      if x in Ids(p) {
        var j :| 0 <= j < |p| && p[j].id == x;
        assert q[j].id == x;
      }
    }
  }

  lemma UnflagListed(p: seq<Neighbor>, dist: nat -> real, k: nat, m: nat, seen: set<nat>, done: set<nat>, ids: set<nat>)
    requires k <= m <= |p| && Listed(p, dist, seen, done)
    requires forall x :: x in ids <==> exists i :: k <= i < m && p[i].flag && p[i].id == x
    ensures Listed(Unflag(p, k, m), dist, seen, done + ids) && ids !! done && ids <= seen
  {
    var q := Unflag(p, k, m);
    forall i | 0 <= i < |q| ensures Entry(q[i], dist, seen, done + ids) {
      assert Entry(p[i], dist, seen, done);
    }
    forall x | x in ids ensures x !in done && x in seen {
      var i :| k <= i < m && p[i].flag && p[i].id == x;
      assert Entry(p[i], dist, seen, done);
    }
  }

  /** Taking entries k to m for the frontier: they count as expanded, and nothing else changes. */
  lemma UnflagBest(p: seq<Neighbor>, L: nat, dist: nat -> real, k: nat, m: nat, seen: set<nat>, done: set<nat>)
    requires k <= m <= |p| && Best(p, L, dist, seen, done)
    ensures Best(Unflag(p, k, m), L, dist, seen, done + SetOf(Flagged(p[k..m]))) && Picked(Flagged(p[k..m]), seen, done)
  {
    var ids := Flagged(p[k..m]);
    FlaggedIds(p[k..m]);
    forall x ensures x in SetOf(ids) <==> exists i :: k <= i < m && p[i].flag && p[i].id == x {
      if i :| k <= i < m && p[i].flag && p[i].id == x { assert p[k..m][i - k].id == x; }
    }
    UnflagListed(p, dist, k, m, seen, done, SetOf(ids));
    UnflagIds(p, k, m);
    forall i | 0 <= i < |ids| ensures ids[i] in seen && ids[i] !in done { assert ids[i] in SetOf(ids); }
  }

  /** The next W flagged entries from position k on, in pool order; their flags go off. */
  method Frontier(a: array<Neighbor>, l: nat, L: nat, dist: nat -> real, k: nat, W: nat, ghost seen: set<nat>, ghost done: set<nat>)
    returns (frontier: seq<nat>, ghost m: nat)
    requires k < l <= L < a.Length && Best(a[..l], L, dist, seen, done) && (W >= 1 ==> DoneTo(a[..l], k))
    modifies a
    ensures k <= m <= l && frontier == Flagged(old(a[..l])[k..m]) && |frontier| <= W && (m < l ==> |frontier| == W)
    ensures a[..l] == Unflag(old(a[..l]), k, m)
    ensures Best(a[..l], L, dist, seen, done + SetOf(frontier)) && Picked(frontier, seen, done)
    ensures W >= 1 ==> DoneTo(a[..l], k + 1)
  {
    ghost var p := a[..l];
    frontier, m := TakeFlagged(a, l, k, W);
    UnflagBest(p, L, dist, k, m, seen, done);
    UnflagDone(p, k, m);
    assert m == k ==> frontier == [];
  }

  method TakeFlagged(a: array<Neighbor>, l: nat, k: nat, W: nat) returns (frontier: seq<nat>, ghost m: nat)
    requires k < l <= a.Length
    modifies a
    ensures k <= m <= l && frontier == Flagged(old(a[..l])[k..m]) && |frontier| <= W && (m < l ==> |frontier| == W)
    ensures a[..l] == Unflag(old(a[..l]), k, m)
  {
    frontier := [];
    var marker := k;
    ghost var p := a[..l];
    assert Unflag(p, k, k) == p;
    while marker < l && |frontier| < W
      invariant k <= marker <= l && frontier == Flagged(p[k..marker]) && |frontier| <= W
      invariant a[..l] == Unflag(p, k, marker)
    {
      FlaggedNext(p, k, marker);
      assert a[marker] == a[..l][marker] == p[marker];
      if a[marker].flag {
        frontier := frontier + [a[marker].id];
        a[marker] := a[marker].(flag := false);
      }
      assert a[..l] == Unflag(p, k, marker + 1);
      marker := marker + 1;
    }
    m := marker;
  }

  lemma UnflagDone(p: seq<Neighbor>, k: nat, m: nat)
    requires k <= m <= |p|
    ensures k < m && DoneTo(p, k) ==> DoneTo(Unflag(p, k, m), k + 1)
  {
  }

  /** The nodes read so far with their exact distances. */
  ghost predicate Read(full: seq<Neighbor>, exact: nat -> real, done: set<nat>) {
    FreshList(full, exact) && Ids(full) == done
  }

  lemma ReadMore(full: seq<Neighbor>, exact: nat -> real, done: set<nat>, n: nat)
    requires Read(full, exact, done) && n !in done
    ensures Read(full + [Neighbor(n, exact(n), true)], exact, done + {n})
  {
    FreshMore(full, exact, n);
    assert full + [Neighbor(n, exact(n), true)] == InsertAt(full, |full|, Neighbor(n, exact(n), true));
    InsertIds(full, |full|, Neighbor(n, exact(n), true));
  }

  lemma FrontierStep(frontier: seq<nat>, i: nat, seen: set<nat>, done: set<nat>)
    requires Picked(frontier, seen, done) && i < |frontier|
    ensures frontier[i] in seen && frontier[i] !in done + SetOf(frontier[..i])
    ensures done + SetOf(frontier[..i + 1]) == done + SetOf(frontier[..i]) + {frontier[i]} <= done + SetOf(frontier)
  {
    assert frontier[..i + 1] == frontier[..i] + [frontier[i]];
  }

  /** Reads the frontier: exact distances are kept, neighbours are offered. */
  method ExpandFrontier(g: Graph, a: array<Neighbor>, l0: nat, L: nat, dist: nat -> real, exact: nat -> real, frontier: seq<nat>,
                        seen0: set<nat>, full0: seq<Neighbor>, ghost starts: set<nat>, ghost done: set<nat>, ghost c: nat)
    returns (l: nat, seen: set<nat>, nk: nat, full: seq<Neighbor>)
    requires Closed(g) && 1 <= l0 <= L < a.Length && Best(a[..l0], L, dist, seen0, done + SetOf(frontier))
    requires Explored(g, starts, seen0, done) && Picked(frontier, seen0, done) && Read(full0, exact, done)
    requires DoneTo(a[..l0], c) && c <= l0
    modifies a
    ensures l0 <= l <= L && Best(a[..l], L, dist, seen, done + SetOf(frontier)) && seen0 <= seen
    ensures Explored(g, starts, seen, done + SetOf(frontier)) && Read(full, exact, done + SetOf(frontier))
    ensures nk <= l0 && DoneTo(a[..l], Min(nk, c)) && (frontier == [] ==> nk == l0 && l == l0 && seen == seen0 && full == full0)
  {
    l, seen, nk, full := l0, seen0, l0, full0;
    ghost var all, now := done + SetOf(frontier), done;
    assert done + SetOf(frontier[..0]) == done;
    assert all <= seen;
    var i := 0;
    while i < |frontier|
      invariant 0 <= i <= |frontier| && l0 <= l <= L && Best(a[..l], L, dist, seen, all) && seen0 <= seen && all <= seen && nk <= l0
      invariant now == done + SetOf(frontier[..i])
      invariant Explored(g, starts, seen, now) && Read(full, exact, now)
      invariant DoneTo(a[..l], Min(nk, c)) && (i == 0 ==> nk == l0 && l == l0 && seen == seen0 && full == full0)
    {
      var id := frontier[i];
      FrontierStep(frontier, i, seen0, done);
      ReadMore(full, exact, now, id);
      ExploreMore(g, starts, seen, now, id);
      full := full + [Neighbor(id, exact(id), true)];
      now := now + {id};
      l, seen, nk := OfferAll(a, l, L, dist, g[id], seen, nk, all, c);
      i := i + 1;
    }
    assert frontier[..i] == frontier;
  }

  /** One round: up to W entries from position k on are expanded. */
  method Round(g: Graph, a: array<Neighbor>, l: nat, L: nat, dist: nat -> real, exact: nat -> real, W: nat, k: nat,
               seen: set<nat>, full: seq<Neighbor>, ghost starts: set<nat>, ghost done: set<nat>)
    returns (l': nat, seen': set<nat>, k': nat, full': seq<Neighbor>, ghost frontier: seq<nat>)
    requires Closed(g) && k < l <= L < a.Length && Best(a[..l], L, dist, seen, done) && (W >= 1 ==> DoneTo(a[..l], k))
    requires Explored(g, starts, seen, done) && Read(full, exact, done)
    modifies a
    ensures l <= l' <= L && k' <= l' && Best(a[..l'], L, dist, seen', done + SetOf(frontier)) && (W >= 1 ==> DoneTo(a[..l'], k'))
    ensures Explored(g, starts, seen', done + SetOf(frontier)) && Read(full', exact, done + SetOf(frontier))
    ensures Picked(frontier, seen', done)
    ensures frontier == [] ==> l' == l && k' == k + 1 && seen' == seen && full' == full
    ensures W == 0 ==> frontier == []
  {
    var nk;
    var picked, _ := Frontier(a, l, L, dist, k, W, seen, done);
    l', seen', nk, full' := ExpandFrontier(g, a, l, L, dist, exact, picked, seen, full, starts, done, if W >= 1 then k + 1 else 0);
    k' := if nk <= k then nk else k + 1;
    frontier := picked;
  }

  /** Beam search.  For every width of at least one it ends like the best-first search, and the
      nodes read, sorted by exact distance, are the expanded ones; the first of them are
      returned.  With width zero nothing is read. */
  method BeamSearch(g: Graph, dist: nat -> real, exact: nat -> real, L: nat, W: nat, K: nat, start: nat)
    returns (results: seq<Neighbor>, a: array<Neighbor>, l: nat, full: seq<Neighbor>, ghost seen: set<nat>, ghost done: set<nat>)
    requires Closed(g) && L >= 1 && start in g
    ensures l <= a.Length && (W >= 1 ==> Finished(g, {start}, dist, L, a[..l], seen, done))
    ensures Listed(full, exact, done, {}) && Ids(full) == done && (W == 0 ==> full == [] && seen == {start})
    ensures results == full[..Min(Min(L, K), |full|)]
  {
    var visited;
    a, l, visited := Starts(g, dist, L, [start]);
    StartsOne(a[..l], L, start);
    ghost var starts := {start};
    full, done := [], {};
    var k: nat := 0;
    while k < l
      invariant k <= l <= L < a.Length && fresh(a) && Best(a[..l], L, dist, visited, done)
      invariant (W >= 1 ==> DoneTo(a[..l], k)) && (W == 0 ==> done == {} && visited == starts && full == [])
      invariant Explored(g, starts, visited, done) && Read(full, exact, done)
      decreases g.Keys - done, l - k
    {
      ghost var picked;
      l, visited, k, full, picked := Round(g, a, l, L, dist, exact, W, k, visited, full, starts, done);
      BeamProgress(g, picked, visited, done);
      done := done + SetOf(picked);
    }
    if W >= 1 { AllDone(a[..l], L, dist, visited, done); }
    SortListed(full, exact);
    full := SortSeq(full);
    results := full[..Min(Min(L, K), |full|)];
    seen := visited;
  }

  lemma StartsOne(p: seq<Neighbor>, L: nat, start: nat)
    requires L >= 1 && Ids(p) <= SetOf([start]) && (|p| < L ==> Ids(p) == SetOf([start])) && |p| <= L
    ensures Ids(p) == {start} == SetOf([start])
  {
    assert SetOf([start]) == {start};
    if |p| == L { assert p[0].id in Ids(p); }
  }

  /** A round either expands something new or changes nothing. */
  lemma BeamProgress(g: Graph, frontier: seq<nat>, seen: set<nat>, done: set<nat>)
    requires seen <= g.Keys && forall i :: 0 <= i < |frontier| ==> frontier[i] in seen && frontier[i] !in done
    ensures frontier == [] ==> done + SetOf(frontier) == done
    ensures frontier != [] ==> g.Keys - (done + SetOf(frontier)) < g.Keys - done
  {
    if frontier != [] {
      assert frontier[0] in g.Keys - done && frontier[0] !in g.Keys - (done + SetOf(frontier));
    }
  }

  // ---------------------------------------------------------------- exactness

  /** With a pool as large as the reachable set, the first K pool entries are K nearest reachable
      nodes. */
  lemma PoolIsExact(g: Graph, starts: set<nat>, dist: nat -> real, L: nat, p: seq<Neighbor>, seen: set<nat>, done: set<nat>,
                    reach: set<nat>, K: nat)
    requires Finished(g, starts, dist, L, p, seen, done) && IsReach(g, starts, reach) && |reach| <= L
    ensures seen == done == reach && Nearest(p, K, dist, reach)
  {
    Exact(g, starts, dist, L, p, seen, done, reach);
    SortedNearest(p, K, dist, seen, done);
  }

  /** The same for the beam's answer, under the exact distance. */
  lemma AnswerIsExact(g: Graph, start: nat, dist: nat -> real, exact: nat -> real, L: nat, p: seq<Neighbor>, seen: set<nat>,
                      done: set<nat>, full: seq<Neighbor>, reach: set<nat>, K: nat)
    requires Finished(g, {start}, dist, L, p, seen, done) && IsReach(g, {start}, reach) && |reach| <= L
    requires Listed(full, exact, done, {}) && Ids(full) == done
    ensures full[..Min(Min(L, K), |full|)] == full[..Min(K, |full|)] && Nearest(full, K, exact, reach)
  {
    Exact(g, {start}, dist, L, p, seen, done, reach);
    IdsCount(full);
    SortedNearest(full, K, exact, done, {});
  }
}
