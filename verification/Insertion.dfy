/**
  The whole of `insert_point` (src/index.cpp): the new point takes a slot, a search from the entry
  point collects the nodes it expands, pruning chooses the neighbours among them, and
  `inter_insert` links those back.
 */
module Insertion {
  import opened Basics
  import opened Consolidation
  import opened DynamicIndex
  import opened GraphSearch
  import opened Pool
  import opened Prune
  import opened Search

  const SLACK_FACTOR := 1.3

  /** Distances between the vectors in slots. */
  function Over<V>(data: seq<V>, distance: (V, V) -> real): Metric {
    (a: nat, b: nat) => if a < |data| && b < |data| then distance(data[a], data[b]) else 0.0
  }

  function From(djk: Metric, l: nat): nat -> real { (q: nat) => djk(l, q) }

  function AsGraph(g: Adjacency): Graph { map i: nat | 0 <= i < |g| :: g[i] }

  // ---------------------------------------------------------------- candidates

  /** Entries for the listed nodes in order, each once and without `self`. */
  ghost predicate PoolOf(ids: seq<nat>, self: nat, djk: Metric, pool: seq<Neighbor>) {
    && DistinctIds(pool) && (forall x :: IsIdOf(pool, x) <==> x in ids && x != self)
    && forall i :: 0 <= i < |pool| ==> pool[i].distance == djk(self, pool[i].id)
  }

  method ToPool(ids: seq<nat>, self: nat, djk: Metric) returns (pool: seq<Neighbor>)
    ensures PoolOf(ids, self, djk, pool)
  {
    pool := [];
    var seen, i := {}, 0;
    while i < |ids|
      invariant 0 <= i <= |ids| && PoolOf(ids[..i], self, djk, pool)
      invariant forall x :: x in seen <==> IsIdOf(pool, x)
    {
      assert ids[..i + 1] == ids[..i] + [ids[i]];
      if ids[i] !in seen && ids[i] != self {
        AddId(pool, Neighbor(ids[i], djk(self, ids[i]), true));
        pool := pool + [Neighbor(ids[i], djk(self, ids[i]), true)];
        seen := seen + {ids[i]};
      }
      i := i + 1;
    }
    assert ids[..i] == ids;
  }

  lemma PoolNonNegative(ids: seq<nat>, self: nat, djk: Metric, pool: seq<Neighbor>)
    requires PoolOf(ids, self, djk, pool) && forall a: nat, b: nat :: djk(a, b) >= 0.0
    ensures NonNegative(pool, djk)
  {
  }

  /** What a search from the entry point over slots in use sees is in use. */
  lemma SeenInUse(g: Adjacency, unused: set<nat>, starts: set<nat>, x: nat)
    requires EdgesOk(g, unused) && (forall s :: s in starts ==> s < |g| && s !in unused) && Reachable(AsGraph(g), starts, x)
    ensures x < |g| && x !in unused
  {
    var path :| Path(AsGraph(g), starts, path) && path[|path| - 1] == x;
    PathInUse(g, unused, starts, path);
  }

  lemma {:induction false} PathInUse(g: Adjacency, unused: set<nat>, starts: set<nat>, path: seq<nat>)
    requires EdgesOk(g, unused) && (forall s :: s in starts ==> s < |g| && s !in unused) && Path(AsGraph(g), starts, path)
    ensures path[|path| - 1] < |g| && path[|path| - 1] !in unused
    decreases |path|
  {
    var n := |path| - 1;
    if n > 0 {
      assert Path(AsGraph(g), starts, path[..n]);
      PathInUse(g, unused, starts, path[..n]);
      assert Targets(g[path[n - 1]], |g|, unused);
    }
  }

  lemma GraphClosed(g: Adjacency, unused: set<nat>)
    requires EdgesOk(g, unused) && forall i :: i in unused && i < |g| ==> g[i] == []
    ensures Closed(AsGraph(g))
  {
    forall x, i | x in AsGraph(g) && 0 <= i < |AsGraph(g)[x]| ensures AsGraph(g)[x][i] in AsGraph(g) {
      assert Targets(g[x], |g|, unused) && g[x][i] in g[x];
    }
  }

  /** The nodes that the search for the new point expands; there is at least one, and all are
      other points in use. */
  method Expanded(g: Adjacency, djk: Metric, L: nat, ep: nat, l: nat, ghost unused: set<nat>)
    returns (expanded: seq<nat>, ghost p: seq<Neighbor>, ghost seen: set<nat>, ghost done: set<nat>)
    requires L >= 1 && ep < |g| && ep !in unused && l in unused
    requires EdgesOk(g, unused) && forall i :: i in unused && i < |g| ==> g[i] == []
    ensures Finished(AsGraph(g), {ep}, From(djk, l), L, p, seen, done) && SetOf(expanded) == done && Distinct(expanded)
    ensures expanded != [] && forall x :: x in expanded ==> x < |g| && x !in unused && x != l
  {
    GraphClosed(g, unused);
    var a, n;
    ghost var starts;
    a, n, expanded, starts, seen, done := IterateToFixedPoint(AsGraph(g), From(djk, l), L, [ep], {});
    p := a[..n];
    StartsAt(starts, ep, L);
    SomeExpanded(AsGraph(g), ep, From(djk, l), L, p, seen, done);
    forall x | x in expanded ensures x < |g| && x !in unused {
      assert x in SetOf(expanded);
      SeenInUse(g, unused, {ep}, x);
    }
  }

  lemma StartsAt(starts: set<nat>, ep: nat, L: nat)
    requires starts <= SetOf([ep]) && L >= 1 && (|starts| < L ==> starts == SetOf([ep]))
    ensures starts == {ep}
  {
    assert SetOf([ep]) == {ep};
    if starts == {} { assert false; }
  }

  lemma SomeExpanded(g: Graph, ep: nat, dist: nat -> real, L: nat, p: seq<Neighbor>, seen: set<nat>, done: set<nat>)
    requires L >= 1 && Finished(g, {ep}, dist, L, p, seen, done)
    ensures done != {}
  {
    assert ep in seen;
    if |p| >= L { assert p[0].id in Ids(p); }
  }

  // ---------------------------------------------------------------- back links

  /** What becomes of the adjacency of a neighbour of the new point: unchanged if it points there
      already, one longer if there is room, and otherwise pruned with the new point as a
      candidate. */
  ghost predicate BackLinked(adj: seq<nat>, des: nat, l: nat, rule: Rule, saturate: bool, adj': seq<nat>) {
    if l in adj then adj' == adj
    else if |adj| < (SLACK_FACTOR * rule.range as real).Floor then adj' == adj + [l]
    else exists pool, sel :: PoolOf(adj + [l], des, rule.djk, pool) && PrunedTo(des, pool, rule, saturate, adj', sel)
  }

  method BackLink(adj: seq<nat>, des: nat, l: nat, rule: Rule, saturate: bool) returns (adj': seq<nat>)
    requires des != l && forall a: nat, b: nat :: rule.djk(a, b) >= 0.0
    ensures BackLinked(adj, des, l, rule, saturate, adj')
  {
    if l in adj { return adj; }
    if |adj| < (SLACK_FACTOR * rule.range as real).Floor { return adj + [l]; }
    var pool := ToPool(adj + [l], des, rule.djk);
    PoolNonNegative(adj + [l], des, rule.djk, pool);
    assert l in adj + [l] && IsIdOf(pool, l);
    var ok;
    ghost var sel;
    ok, adj', sel := PruneNeighbors(des, pool, rule, saturate);
  }

  lemma BackLinkTargets(adj: seq<nat>, des: nat, l: nat, rule: Rule, saturate: bool, adj': seq<nat>)
    requires BackLinked(adj, des, l, rule, saturate, adj')
    ensures forall x :: x in adj' ==> x in adj || x == l
    ensures des !in adj && des != l ==> des !in adj'
  {
    if l !in adj && |adj| >= (SLACK_FACTOR * rule.range as real).Floor {
      var pool, sel :| PoolOf(adj + [l], des, rule.djk, pool) && PrunedTo(des, pool, rule, saturate, adj', sel);
      forall x | x in adj' ensures x != des && (x in adj || x == l) {
        var k :| 0 <= k < |adj'| && adj'[k] == x;
        assert IsIdOf(pool, adj'[k]);
      }
    }
  }

  /** The graph after linking: the new point has its neighbours, those in `back` are linked back,
      and nothing else changes. */
  ghost predicate Linked(g: Adjacency, g': Adjacency, l: nat, pruned: seq<nat>, back: seq<nat>, rule: Rule, saturate: bool) {
    && |g'| == |g| && l < |g| && g'[l] == pruned
    && forall i :: 0 <= i < |g| && i != l ==>
         if i in back then BackLinked(g[i], i, l, rule, saturate, g'[i]) else g'[i] == g[i]
  }

  /** inter_insert, after the new point got its neighbours. */
  method InterInsert(g: Adjacency, l: nat, pruned: seq<nat>, rule: Rule, saturate: bool) returns (g': Adjacency)
    requires l < |g| && Distinct(pruned) && forall x :: x in pruned ==> x < |g| && x != l
    requires forall a: nat, b: nat :: rule.djk(a, b) >= 0.0
    ensures Linked(g, g', l, pruned, pruned, rule, saturate)
  {
    g' := g[l := pruned];
    var k := 0;
    while k < |pruned|
      invariant 0 <= k <= |pruned| && Linked(g, g', l, pruned, pruned[..k], rule, saturate)
    {
      var des := pruned[k];
      assert pruned[..k + 1] == pruned[..k] + [des] && des in pruned;
      var adj := BackLink(g'[des], des, l, rule, saturate);
      g' := g'[des := adj];
      k := k + 1;
    }
    assert pruned[..k] == pruned;
  }

  lemma LinkedOk<V>(g: Adjacency, g': Adjacency, data: seq<V>, empty: set<nat>, max: nat, l: nat, pruned: seq<nat>, rule: Rule, saturate: bool)
    requires GraphOk(g, data, empty, max) && l < max && l !in empty && Linked(g, g', l, pruned, pruned, rule, saturate)
    requires forall x :: x in pruned ==> x < |g| && x !in empty && x != l
    ensures GraphOk(g', data, empty, max)
  {
    forall i | 0 <= i < |g'| && i !in empty ensures Targets(g'[i], |g'|, empty) {
      assert Targets(g[i], |g|, empty);
      if i != l && i in pruned { BackLinkTargets(g[i], i, l, rule, saturate, g'[i]); }
    }
    if max in pruned { BackLinkTargets(g[max], max, l, rule, saturate, g'[max]); }
  }

  // ---------------------------------------------------------------- the insertion

  /** What an insertion looked at: the graph and the distances of its search, the final pool, the nodes
      seen and expanded, the candidates and what pruning selected. */
  datatype Trace = Trace(graph: Graph, dist: nat -> real, p: seq<Neighbor>, seen: set<nat>, done: set<nat>, pool: seq<Neighbor>, sel: Selection)

  /** The neighbours of the new point: pruned from the nodes expanded by a finished search. */
  ghost predicate Searched(t: Trace, g: Adjacency, l: nat, ep: nat, L: nat, rule: Rule, saturate: bool, pruned: seq<nat>) {
    && (forall i :: i in t.graph <==> 0 <= i < |g|) && (forall i :: 0 <= i < |g| ==> t.graph[i] == g[i])
    && (forall q: nat :: t.dist(q) == rule.djk(l, q))
    && Finished(t.graph, {ep}, t.dist, L, t.p, t.seen, t.done) && l !in t.done
    && DistinctIds(t.pool) && (forall x :: IsIdOf(t.pool, x) <==> x in t.done)
    && (forall i :: 0 <= i < |t.pool| ==> t.pool[i].distance == rule.djk(l, t.pool[i].id))
    && PrunedTo(l, t.pool, rule, saturate, pruned, t.sel)
  }

  lemma KeptAmong(pool: seq<Neighbor>, l: nat, pruned: seq<nat>, expanded: seq<nat>)
    requires KeptIds(pool, l, pruned) && forall x :: IsIdOf(pool, x) ==> x in expanded
    ensures forall x :: x in pruned ==> x in expanded && x != l
  {
    forall x | x in pruned ensures x in expanded && x != l {
      var k :| 0 <= k < |pruned| && pruned[k] == x;
      assert IsIdOf(pool, pruned[k]);
    }
  }

  /** Chooses the neighbours of the new point; the crash on an empty pool is not reached. */
  method Neighbours(g: Adjacency, l: nat, ep: nat, L: nat, rule: Rule, saturate: bool, ghost unused: set<nat>)
    returns (pruned: seq<nat>, ghost t: Trace)
    requires L >= 1 && ep < |g| && ep !in unused && l in unused && EdgesOk(g, unused)
    requires (forall i :: i in unused && i < |g| ==> g[i] == []) && forall a: nat, b: nat :: rule.djk(a, b) >= 0.0
    ensures Searched(t, g, l, ep, L, rule, saturate, pruned)
    ensures Distinct(pruned) && forall x :: x in pruned ==> x < |g| && x !in unused && x != l
  {
    var expanded, p, seen, done := Expanded(g, rule.djk, L, ep, l, unused);
    ghost var pool, sel;
    pruned, pool, sel := PruneExpanded(expanded, l, rule, saturate);
    t := Trace(AsGraph(g), From(rule.djk, l), p, seen, done, pool, sel);
    forall x ensures IsIdOf(pool, x) <==> x in done { assert x in SetOf(expanded) <==> x in expanded; }
  }

  method PruneExpanded(expanded: seq<nat>, l: nat, rule: Rule, saturate: bool)
    returns (pruned: seq<nat>, ghost pool: seq<Neighbor>, ghost sel: Selection)
    requires expanded != [] && l !in expanded && forall a: nat, b: nat :: rule.djk(a, b) >= 0.0
    ensures DistinctIds(pool) && (forall x :: IsIdOf(pool, x) <==> x in expanded)
    ensures forall i :: 0 <= i < |pool| ==> pool[i].distance == rule.djk(l, pool[i].id)
    ensures PrunedTo(l, pool, rule, saturate, pruned, sel) && Distinct(pruned)
    ensures forall x :: x in pruned ==> x in expanded
  {
    var cands := ToPool(expanded, l, rule.djk);
    pool := cands;
    PoolNonNegative(expanded, l, rule.djk, cands);
    assert expanded[0] in expanded && IsIdOf(cands, expanded[0]);
    var ok;
    ok, pruned, sel := PruneNeighbors(l, cands, rule, saturate);
    KeptAmong(cands, l, pruned, expanded);
  }

  /** The source asserts that the new point has neighbours; it has, unless the limits forbid it. */
  lemma HasNeighbours(t: Trace, g: Adjacency, l: nat, ep: nat, L: nat, rule: Rule, saturate: bool, pruned: seq<nat>)
    requires Searched(t, g, l, ep, L, rule, saturate, pruned) && L >= 1
    requires rule.range >= 1 && rule.maxc >= 1 && rule.alpha >= 1.0
    ensures 1 <= |pruned| <= rule.range
  {
    SomeExpanded(t.graph, ep, t.dist, L, t.p, t.seen, t.done);
    var x :| x in t.done;
    assert IsIdOf(t.pool, x);
    PrunedSome(l, t.pool, rule, saturate, pruned, t.sel);
  }

  /** insert_point.  It fails exactly if the index is full and cannot grow.  Otherwise the tag has
      the new vector, which is linked as `Searched` and `Linked` say, in the graph `base` that the
      growth left; all other vectors stay. */
  method Insert<Tag(==, !new), V(!new)>(index: Index<Tag, V>, tag: Tag, v: V, distance: (V, V) -> real,
                                        range: nat, maxc: nat, alpha: real, saturate: bool, L: nat)
    returns (ok: bool, l: nat, ghost base: Adjacency, ghost t: Trace, ghost rule: Rule)
    requires index.Valid() && L >= 1 && forall a, b :: distance(a, b) >= 0.0
    modifies index
    ensures ok <==> old(index.nd) < old(index.max) || old(index.max) > 1
    ensures ok ==> index.Valid() && l == old(index.nd) < index.max && index.tag2loc == old(index.tag2loc)[tag := l]
    ensures ok ==> index.del == old(index.del) + if tag in old(index.tag2loc) then {old(index.tag2loc)[tag]} else {}
    ensures ok ==> index.data[index.max] == old(index.data)[old(index.max)]
    ensures ok ==> index.data[l] == v && forall i :: 0 <= i < l ==> index.data[i] == old(index.data)[i]
    ensures ok ==> Grown(old(index.graph), base, old(index.max), index.max, l)
    ensures ok ==> Measures(rule, index.data, distance, range, maxc, alpha) && Joined(t, base, index.graph, l, index.max, L, rule, saturate)
  {
    ok, l := index.InsertPoint(tag, v);
    var r := Rule(Over(index.data, distance), range, maxc, alpha);
    base, t, rule := index.graph, Trace(map[], _ => 0.0, [], {}, {}, [], Selection([], [], [], [], 0)), r;
    if ok {
      GrownIs(old(index.graph), base, old(index.max), index.max, l);
      t := LinkPoint(index, l, r, saturate, L);
    }
  }

  /** The parameters of an insertion: distances are those of the vectors in the slots. */
  ghost predicate Measures<V(!new)>(rule: Rule, data: seq<V>, distance: (V, V) -> real, range: nat, maxc: nat, alpha: real) {
    && rule.range == range && rule.maxc == maxc && rule.alpha == alpha
    && forall a: nat, b: nat :: a < |data| && b < |data| ==> rule.djk(a, b) == distance(data[a], data[b])
  }

  /** The new point l has the neighbours that its search and pruning give, and is linked back. */
  ghost predicate Joined(t: Trace, base: Adjacency, g: Adjacency, l: nat, ep: nat, L: nat, rule: Rule, saturate: bool) {
    l < |g| && Searched(t, base, l, ep, L, rule, saturate, g[l]) && Linked(base, g, l, g[l], g[l], rule, saturate)
  }

  lemma GrownIs(g: Adjacency, base: Adjacency, max: nat, max': nat, l: nat)
    requires l < max' < |base| && max < |g| && l <= max && base[l] == [] && base[max'] == g[max]
    requires forall i :: 0 <= i < l ==> |base[i]| == |g[i]|
    requires forall i, k :: 0 <= i < l && 0 <= k < |base[i]| ==> base[i][k] == if g[i][k] == max then max' else g[i][k]
    ensures Grown(g, base, max, max', l)
  {
  }

  /** The part of it after the point has its slot. */
  method LinkPoint<Tag(==, !new), V(!new)>(index: Index<Tag, V>, l: nat, rule: Rule, saturate: bool, L: nat) returns (ghost t: Trace)
    requires index.Valid() && L >= 1 && l < index.max && l !in index.empty && index.graph[l] == [] && EdgesOk(index.graph, index.empty + {l})
    requires forall a: nat, b: nat :: rule.djk(a, b) >= 0.0
    modifies index`graph
    ensures index.Valid() && Joined(t, old(index.graph), index.graph, l, index.max, L, rule, saturate)
  {
    ghost var base := index.graph;
    var pruned;
    pruned, t := Neighbours(index.graph, l, index.ep, L, rule, saturate, index.empty + {l});
    var g := InterInsert(index.graph, l, pruned, rule, saturate);
    LinkedOk(base, g, index.data, index.empty, index.max, l, pruned, rule, saturate);
    index.Link(g);
  }

  /** The graph when the new slot l is taken, after growth from max to max'. */
  ghost predicate Grown(g: Adjacency, base: Adjacency, max: nat, max': nat, l: nat) {
    && l < max' && max < |g| && max' < |base| && l <= max && base[l] == [] && base[max'] == g[max]
    && forall i :: 0 <= i < l ==> Redirected(g[i], base[i], max, max')
  }
}
