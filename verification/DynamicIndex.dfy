/**
  The tag and slot bookkeeping of the updatable in-memory index (src/index.cpp), for a dynamic
  index with one frozen point, which is the entry point and occupies slot `max`.
 */
module DynamicIndex {
  import opened Compaction
  import opened Consolidation
  import opened Prune

  ghost predicate Inverse<Tag(!new)>(tag2loc: map<Tag, nat>, loc2tag: map<nat, Tag>) {
    && (forall t :: t in tag2loc ==> tag2loc[t] in loc2tag && loc2tag[tag2loc[t]] == t)
    && (forall l :: l in loc2tag ==> loc2tag[l] in tag2loc && tag2loc[loc2tag[l]] == l)
  }

  /** Tagged, deleted and empty slots partition [0, max); the empty ones are those from nd on. */
  ghost predicate Partition(tagged: set<nat>, del: set<nat>, empty: set<nat>, nd: nat, max: nat) {
    && nd <= max
    && (forall i :: i in tagged ==> i < nd && i !in del)
    && (forall i :: i in del ==> i < nd)
    && (forall i :: 0 <= i < nd ==> i in tagged || i in del)
    && (forall i :: i in empty <==> nd <= i < max)
  }

  /** What the code asserts about the counts. */
  lemma Counts(tagged: set<nat>, del: set<nat>, empty: set<nat>, nd: nat, max: nat)
    requires Partition(tagged, del, empty, nd, max)
    ensures |tagged| + |del| == nd && |empty| + nd == max && |del| <= nd
  {
    RangeCount(tagged + del, 0, nd);
    RangeCount(empty, nd, max);
    assert |tagged + del| == |tagged| + |del|;
  }

  lemma {:induction false} RangeCount(s: set<nat>, lo: nat, hi: nat)
    requires lo <= hi && forall i: nat :: i in s <==> lo <= i < hi
    ensures |s| == hi - lo
    decreases hi
  {
    if lo == hi {
      assert s == {};
    } else {
      RangeCount(s - {hi - 1}, lo, hi - 1);
      assert s == (s - {hi - 1}) + {hi - 1};
    }
  }

  /** Vectors and adjacencies: one per slot and one for the frozen point, which has no loop;
      edges stay among slots in use, and an empty slot has none. */
  ghost predicate GraphOk<V>(g: Adjacency, data: seq<V>, empty: set<nat>, max: nat) {
    && |g| == |data| == max + 1 && EdgesOk(g, empty) && max !in g[max]
    && (forall i :: i in empty && i <= max ==> g[i] == [])
  }

  // ---------------------------------------------------------------- moving the frozen point

  /** An adjacency after the frozen point has moved from slot a to slot b: the same targets in the same
      places, but b for a. */
  ghost predicate Redirected(adj: seq<nat>, adj': seq<nat>, a: nat, b: nat) {
    |adj'| == |adj| && forall k :: 0 <= k < |adj| ==> adj'[k] == if adj[k] == a then b else adj[k]
  }

  method Retarget(adj: seq<nat>, a: nat, b: nat) returns (adj': seq<nat>)
    ensures Redirected(adj, adj', a, b)
  {
    adj' := adj;
    var k := 0;
    while k < |adj|
      invariant 0 <= k <= |adj| == |adj'| && Redirected(adj[..k], adj'[..k], a, b) && adj'[k..] == adj[k..]
    {
      assert adj'[k] == adj'[k..][0];
      if adj'[k] == a { adj' := adj'[k := b]; }
      k := k + 1;
    }
    assert adj[..k] == adj && adj'[..k] == adj';
  }

  lemma RedirectedOk(adj: seq<nat>, adj': seq<nat>, a: nat, b: nat, n: nat, unused: set<nat>, n': nat, unused': set<nat>)
    requires Targets(adj, n, unused) && b < n' && b !in unused' && Redirected(adj, adj', a, b)
    requires forall j :: 0 <= j < n && j !in unused && j != a ==> j < n' && j !in unused'
    ensures Targets(adj', n', unused')
  {
    forall j | j in adj' ensures j < n' && j !in unused' {
      var k :| 0 <= k < |adj'| && adj'[k] == j;
      assert adj[k] in adj;
    }
  }

  /** Edges to other slots stay. */
  lemma RedirectedEdges(g: Adjacency, g': Adjacency, n: nat, a: nat, b: nat)
    requires n <= |g| && n <= |g'| && n <= a && n <= b && forall i :: 0 <= i < n ==> Redirected(g[i], g'[i], a, b)
    ensures forall i, j: nat :: 0 <= i < n && j < n ==> (j in g'[i] <==> j in g[i])
  {
    forall i, j: nat | 0 <= i < n && j < n ensures j in g'[i] <==> j in g[i] {
      if j in g[i] {
        var k :| 0 <= k < |g[i]| && g[i][k] == j;
        assert g'[i][k] == j;
      }
      if j in g'[i] {
        var k :| 0 <= k < |g'[i]| && g'[i][k] == j;
        assert g[i][k] == j;
      }
    }
  }

  /** reposition_point, for the frozen point at `a` behind nd points. */
  method Reposition<V>(g0: Adjacency, data0: seq<V>, a: nat, b: nat, zero: V) returns (g: Adjacency, data: seq<V>)
    requires a < b < |g0| == |data0|
    ensures |g| == |data| == |g0| && g[b] == g0[a] && data[b] == data0[a] && g[a] == []
    ensures forall i :: 0 <= i < a ==> Redirected(g0[i], g[i], a, b) && data[i] == data0[i]
    ensures forall i :: a < i < |g0| && i != b ==> g[i] == g0[i] && data[i] == data0[i]
  {
    g, data := g0, data0;
    var i := 0;
    while i < a
      invariant 0 <= i <= a && |g| == |g0| && (forall k :: 0 <= k < i ==> Redirected(g0[k], g[k], a, b))
      invariant forall k :: i <= k < |g0| ==> g[k] == g0[k]
    {
      var adj := Retarget(g[i], a, b);
      g := g[i := adj];
      i := i + 1;
    }
    g := g[b := g[a]][a := []];
    data := data[b := data[a]][a := zero];
  }

  /** Growth by moving the frozen point from slot a to slot b keeps all edges inside. */
  lemma RepositionOk<V>(g0: Adjacency, data0: seq<V>, g: Adjacency, data: seq<V>, a: nat, b: nat, empty: set<nat>)
    requires a < b && b + 1 == |g| == |data| == |g0| == |data0| && (forall i :: i in empty <==> a <= i < b)
    requires forall i :: 0 <= i <= a ==> Targets(g0[i], a + 1, {})
    requires a !in g0[a] && forall i :: a < i < b ==> g0[i] == []
    requires g[b] == g0[a] && g[a] == [] && (forall i :: 0 <= i < a ==> Redirected(g0[i], g[i], a, b))
    requires forall i :: a < i < b ==> g[i] == g0[i]
    ensures GraphOk(g, data, empty, b)
  {
    forall i | 0 <= i < |g| && i !in empty ensures Targets(g[i], |g|, empty) {
      if i < a {
        RedirectedOk(g0[i], g[i], a, b, a + 1, {}, b + 1, empty);
      } else {
        assert i == b && Targets(g0[a], a + 1, {});
        forall j | j in g[i] ensures j < |g| && j !in empty { assert j in g0[a]; }
      }
    }
    assert b !in g0[a] by { assert Targets(g0[a], a + 1, {}); }
  }

  // ---------------------------------------------------------------- the index

  class Index<Tag(==, !new), V> {
    const zero: V
    var graph: Adjacency
    var data: seq<V>
    var tag2loc: map<Tag, nat>
    var loc2tag: map<nat, Tag>
    var del: set<nat>
    var empty: set<nat>
    var nd: nat
    var max: nat
    var ep: nat
    var compacted: bool
    var lazy: bool

    ghost predicate Valid()
      reads this
    {
      && Inverse(tag2loc, loc2tag) && Partition(loc2tag.Keys, del, empty, nd, max)
      && GraphOk(graph, data, empty, max)
      && ep == max && compacted && (del != {} ==> lazy)
    }

    /** A loaded index: n points and the frozen point behind them, which moves to the end. */
    constructor Load(g: Adjacency, vectors: seq<V>, tags: map<Tag, nat>, locs: map<nat, Tag>, deleted: set<nat>, max: nat, zero: V)
      requires |g| == |vectors| > 0 && |g| - 1 <= max && Inverse(tags, locs)
      requires Partition(locs.Keys, deleted, {}, |g| - 1, |g| - 1)
      requires (forall i :: 0 <= i < |g| ==> Targets(g[i], |g|, {})) && |g| - 1 !in g[|g| - 1]
      ensures Valid() && tag2loc == tags && del == deleted && this.max == max && nd == |g| - 1
      ensures forall i :: 0 <= i < nd ==> data[i] == vectors[i] && |graph[i]| == |g[i]|
      ensures forall i, k :: 0 <= i < nd && 0 <= k < |graph[i]| ==> graph[i][k] == if g[i][k] == nd then max else g[i][k]
      ensures forall i, j: nat :: 0 <= i < nd && j < nd ==> (j in graph[i] <==> j in g[i])
      ensures data[max] == vectors[nd] && graph[max] == g[nd]
    {
      var n: nat := |g| - 1;
      var e := Slots(n, max);
      var g1, d1 := g + seq(max - n, _ => []), vectors + seq(max - n, _ => zero);
      if n < max {
        var g2, d2 := Reposition(g1, d1, n, max, zero);
        RepositionOk(g1, d1, g2, d2, n, max, e);
        g1, d1 := g2, d2;
      } else {
        assert g1 == g && d1 == vectors;
      }
      RedirectedEdges(g, g1, n, n, max);
      this.zero, graph, data, tag2loc, loc2tag := zero, g1, d1, tags, locs;
      del, empty, nd, this.max, ep := deleted, e, n, max, max;
      compacted, lazy := true, deleted != {};
    }

    /** lazy_delete: the point keeps its slot, but loses its tag. */
    method LazyDelete(tag: Tag) returns (ok: bool)
      requires Valid()
      modifies this`tag2loc, this`loc2tag, this`del, this`lazy
      ensures Valid() && ok == (tag in old(tag2loc)) && tag2loc == old(tag2loc) - {tag}
      ensures del == old(del) + if ok then {old(tag2loc)[tag]} else {}
    {
      lazy := true;
      if tag !in tag2loc { return false; }
      var l := tag2loc[tag];
      del := del + {l};
      loc2tag := loc2tag - {l};
      tag2loc := tag2loc - {tag};
      ok := true;
    }

    /** reserve_location: the first empty slot; the branch for slots that are not compacted is
        never taken. */
    method ReserveLocation() returns (ok: bool, l: nat)
      requires Valid()
      modifies this`nd, this`empty
      ensures ok == (old(nd) < max)
      ensures ok ==> l == old(nd) && nd == old(nd) + 1 && empty == old(empty) - {l}
      ensures !ok ==> nd == old(nd) && empty == old(empty)
    {
      if nd >= max { return false, 0; }
      if compacted {
        l := nd;
        empty := empty - {l};
      } else {
        assert false;
      }
      nd := nd + 1;
      ok := true;
    }

    /** resize: the frozen point moves to the new end. */
    method Resize(newMax: nat)
      requires Valid() && nd == max < newMax
      modifies this`graph, this`data, this`empty, this`max, this`ep
      ensures Valid() && max == newMax
      ensures forall i :: 0 <= i < nd ==> data[i] == old(data)[i] && |graph[i]| == |old(graph)[i]|
      ensures forall i, k :: 0 <= i < nd && 0 <= k < |graph[i]| ==>
        graph[i][k] == if old(graph)[i][k] == old(max) then max else old(graph)[i][k]
      ensures forall i, j: nat :: 0 <= i < nd && j < nd ==> (j in graph[i] <==> j in old(graph)[i])
      ensures data[newMax] == old(data)[old(max)] && graph[newMax] == old(graph)[old(max)]
    {
      Counts(loc2tag.Keys, del, empty, nd, max);
      assert |empty| == 0;
      var g1, d1 := graph + seq(newMax - max, _ => []), data + seq(newMax - max, _ => zero);
      var e := Slots(nd, newMax);
      forall i | 0 <= i <= max ensures Targets(g1[i], max + 1, {}) { assert Targets(graph[i], |graph|, empty); }
      var g2, d2 := Reposition(g1, d1, max, newMax, zero);
      RepositionOk(g1, d1, g2, d2, max, newMax, e);
      RedirectedEdges(graph, g2, nd, max, newMax);
      graph, data, max, ep, empty := g2, d2, newMax, newMax, e;
    }

    /** The reserved slot gets the tag and the vector. */
    method Occupy(tag: Tag, v: V) returns (l: nat)
      requires Valid() && nd < max && tag !in tag2loc
      modifies this`nd, this`empty, this`tag2loc, this`loc2tag, this`data
      ensures Valid() && l == old(nd) && nd == l + 1 && tag2loc == old(tag2loc)[tag := l]
      ensures l < max && graph[l] == [] && data == old(data)[l := v] && EdgesOk(graph, empty + {l})
    {
      InsertGraph(graph, data, empty, max, nd, v);
      InsertTag(tag2loc, loc2tag, del, empty, nd, max, tag);
      var ok;
      ok, l := ReserveLocation();
      tag2loc, loc2tag := tag2loc[tag := l], loc2tag[l := tag];
      data := data[l := v];
      assert empty + {l} == old(empty);
    }

    /** insert_point up to the links: a known tag first loses its point; without an empty slot the
        index grows by half, which helps unless it has at most one slot. */
    method InsertPoint(tag: Tag, v: V) returns (ok: bool, l: nat)
      requires Valid()
      modifies this
      ensures ok <==> old(nd) < old(max) || old(max) > 1
      ensures ok ==> Valid() && l == old(nd) && nd == l + 1 && tag2loc == old(tag2loc)[tag := l]
      ensures ok ==> del == old(del) + if tag in old(tag2loc) then {old(tag2loc)[tag]} else {}
      ensures ok ==> l < max == if old(nd) < old(max) then old(max) else old(max) * 3 / 2
      ensures ok ==> data[l] == v && graph[l] == [] && EdgesOk(graph, empty + {l})
      ensures ok ==> forall i :: 0 <= i < l ==> data[i] == old(data)[i] && |graph[i]| == |old(graph)[i]|
      ensures ok ==> forall i, k :: 0 <= i < l && 0 <= k < |graph[i]| ==>
        graph[i][k] == if old(graph)[i][k] == old(max) then max else old(graph)[i][k]
      ensures ok ==> forall i, j: nat :: 0 <= i < l && j < l ==> (j in graph[i] <==> j in old(graph)[i])
      ensures ok ==> data[max] == old(data)[old(max)] && graph[max] == old(graph)[old(max)]
    {
      if tag in tag2loc {
        var _ := LazyDelete(tag);
      }
      if nd >= max {
        var newMax := max * 3 / 2;
        if newMax <= max { return false, 0; }
        Resize(newMax);
      }
      l := Occupy(tag, v);
      ok := true;
    }

    /** Linking a new point, like any other change of adjacencies among slots in use. */
    method Link(g: Adjacency)
      requires Valid() && GraphOk(g, data, empty, max)
      modifies this`graph
      ensures Valid() && graph == g
    {
      graph := g;
    }

    /** consolidate_deletes */
    method ConsolidateDeletes(rule: Rule)
      requires Valid() && forall a: nat, b: nat :: rule.djk(a, b) >= 0.0
      modifies this`graph, this`empty, this`nd, this`compacted
      ensures Rewired(old(graph), graph, old(del), old(empty), rule)
      ensures Pending(graph, data, loc2tag.Keys, nd, max) && compacted == (del == {}) && (compacted ==> Valid())
    {
      Counts(loc2tag.Keys, del, empty, nd, max);
      var g, n: nat := graph, nd - |del|;
      g := RewireAll(graph, del, empty, rule);
      RewiredOk(graph, g, data, loc2tag.Keys, del, empty, nd, rule, max, n);
      graph, empty, nd, compacted := g, empty + del, n, del == {};
    }

    /** compact_data, past its early exits; the start node is frozen and cannot have been deleted. */
    method CompactNow()
      requires Inverse(tag2loc, loc2tag) && Pending(graph, data, loc2tag.Keys, nd, max) && ep == max && ep !in del
      modifies this
      ensures Valid() && del == {} && max == old(max) && nd == old(nd)
      ensures Relocated(old(tag2loc), tag2loc, old(loc2tag.Keys), max)
      ensures AllPlaced(old(graph), old(data), graph, data, old(loc2tag.Keys), max)
    {
      var g, d, t2l, l2t, e := CompactAll(graph, data, tag2loc, loc2tag, nd, max);
      graph, data, tag2loc, loc2tag := g, d, t2l, l2t;
      del, empty := {}, e;
      lazy, compacted := false, true;
    }

    method CompactData()
      requires Inverse(tag2loc, loc2tag) && Pending(graph, data, loc2tag.Keys, nd, max) && ep == max && ep !in del
      requires if compacted then Valid() && del == {} else lazy
      modifies this
      ensures Valid() && del == {} && max == old(max) && nd == old(nd)
      ensures Relocated(old(tag2loc), tag2loc, old(loc2tag.Keys), max)
      ensures AllPlaced(old(graph), old(data), graph, data, old(loc2tag.Keys), max)
    {
      if !lazy || compacted {
        StaySame(tag2loc, loc2tag, graph, data, nd, max);
      } else {
        CompactNow();
      }
    }

    /** consolidate: rewiring around the deleted points, then compaction.  The crash in the
        compaction is not reached.  Every tag keeps its vector, the graph is the rewired one
        under an order-preserving renumbering, and no deleted point is left. */
    method Consolidate(rule: Rule) returns (ghost rewired: Adjacency)
      requires Valid() && forall a: nat, b: nat :: rule.djk(a, b) >= 0.0
      modifies this
      ensures Valid() && del == {} && max == old(max) && nd == |old(loc2tag.Keys)|
      ensures Rewired(old(graph), rewired, old(del), old(empty), rule)
      ensures Relocated(old(tag2loc), tag2loc, old(loc2tag.Keys), max)
      ensures AllPlaced(rewired, old(data), graph, data, old(loc2tag.Keys), max)
    {
      ConsolidateDeletes(rule);
      rewired := graph;
      CompactData();
    }
  }

  /** A full index with one slot cannot take a second point. */
  method OneSlotFails<Tag(==, !new), V>(t: Tag, u: Tag, v: V) returns (ok: bool)
    ensures !ok
  {
    var index := new Index<Tag, V>.Load([[], []], [v, v], map[t := 0], map[0 := t], {}, 1, v);
    var l;
    ok, l := index.InsertPoint(u, v);
  }

  /** What rewiring leaves for the compaction. */
  ghost predicate Pending<V>(g: Adjacency, data: seq<V>, tagged: set<nat>, nd: nat, max: nat) {
    && |g| == |data| == max + 1 && max !in g[max] && nd == |tagged| && (forall x :: x in tagged ==> x < max)
    && (forall i :: 0 <= i <= max && Kept(tagged, max, i) ==> Targets(g[i], max + 1, {}) && Survives(g[i], tagged, max))
  }

  ghost predicate AllPlaced<V>(g0: Adjacency, data0: seq<V>, g: Adjacency, data: seq<V>, tagged: set<nat>, max: nat) {
    forall i :: 0 <= i <= max && Kept(tagged, max, i) ==> Placed(g0, data0, g, data, tagged, max, i)
  }

  method CompactAll<Tag(==, !new), V>(g0: Adjacency, d0: seq<V>, t0: map<Tag, nat>, l0: map<nat, Tag>, nd: nat, max: nat)
    returns (g: Adjacency, d: seq<V>, t1: map<Tag, nat>, l1: map<nat, Tag>, e: set<nat>)
    requires Inverse(t0, l0) && Pending(g0, d0, l0.Keys, nd, max)
    ensures Inverse(t1, l1) && Partition(l1.Keys, {}, e, nd, max) && GraphOk(g, d, e, max)
    ensures Relocated(t0, t1, l0.Keys, max) && AllPlaced(g0, d0, g, d, l0.Keys, max)
  {
    var ok, g';
    ok, g', d := CompactSlots(g0, d0, l0.Keys, max);
    t1, l1 := RebuildTags(t0, l0, max);
    CompactedTags(t0, l0, t1, l1, nd, max);
    g := ClearFrom(g', nd, max);
    e := Slots(nd, max);
    CompactedPlaced(g0, d0, g', g, d, l0.Keys, nd, max);
    CompactedGraph(g0, d0, g, d, l0.Keys, nd, max, e);
  }

  /** Through the tags, a consolidated index is the rewired one: same vectors, same edges, same
      order of slots. */
  lemma ConsolidatedIsomorphic<Tag(!new), V>(r: Adjacency, d0: seq<V>, g: Adjacency, d: seq<V>, t0: map<Tag, nat>, l0: map<nat, Tag>,
                                             t1: map<Tag, nat>, nd: nat, max: nat, t: Tag, u: Tag)
    requires Inverse(t0, l0) && Pending(r, d0, l0.Keys, nd, max) && t in t0 && u in t0
    requires Relocated(t0, t1, l0.Keys, max) && AllPlaced(r, d0, g, d, l0.Keys, max)
    ensures t0[t] < |r| && t0[t] < |d0| && t1[t] < |g| && t1[t] < |d| && d[t1[t]] == d0[t0[t]]
    ensures t1[u] in g[t1[t]] <==> t0[u] in r[t0[t]]
    ensures |g[t1[t]]| == |r[t0[t]]| && forall k :: 0 <= k < |r[t0[t]]| ==> (g[t1[t]][k] == t1[u] <==> r[t0[t]][k] == t0[u])
    ensures t1[t] < t1[u] <==> t0[t] < t0[u]
  {
    var i, j := t0[t], t0[u];
    assert Kept(l0.Keys, max, i) && Placed(r, d0, g, d, l0.Keys, max, i) && Survives(r[i], l0.Keys, max);
    if i <= j { RankMono(l0.Keys, i, j); } else { RankMono(l0.Keys, j, i); }
    var adj := Renamed(r[i], l0.Keys, max);
    if j in r[i] {
      var k :| 0 <= k < |r[i]| && r[i][k] == j;
      assert adj[k] == t1[u];
    }
    forall k | 0 <= k < |adj| && adj[k] == t1[u] ensures r[i][k] == j {
      PlaceRange(l0.Keys, max, j);
      assert r[i][k] in r[i];
      SameRank(l0.Keys, max, r[i][k], j);
    }
  }

  lemma SameRank(tagged: set<nat>, max: nat, i: nat, j: nat)
    requires Kept(tagged, max, i) && j in tagged && j < max && NewLocation(tagged, max, i) == NewLocation(tagged, max, j)
    ensures i == j
  {
    if i in tagged {
      if i < j { RankMono(tagged, i, j); }
      if j < i { RankMono(tagged, j, i); }
    }
  }

  lemma RewiredOk<V>(g: Adjacency, g': Adjacency, data: seq<V>, tagged: set<nat>, del: set<nat>, empty: set<nat>, nd: nat, rule: Rule, max: nat, n: nat)
    requires Partition(tagged, del, empty, nd, max) && GraphOk(g, data, empty, max) && Rewired(g, g', del, empty, rule)
    requires n + |del| == nd
    ensures Pending(g', data, tagged, n, max) && (del == {} ==> GraphOk(g', data, empty, max))
  {
    Counts(tagged, del, empty, nd, max);
    NoDeadEdges(g, g', del, empty, rule);
    NoLoop(g, g', del, empty, rule, max);
    AllSurvive(g', tagged, empty + del, max);
    assert del == {} ==> empty + del == empty;
  }

  /** Every tag moves with its slot. */
  ghost predicate Relocated<Tag(!new)>(t0: map<Tag, nat>, t1: map<Tag, nat>, tagged: set<nat>, max: nat) {
    t1.Keys == t0.Keys && forall t :: t in t0 ==> t1[t] == NewLocation(tagged, max, t0[t])
  }

  lemma NoLoop(g: Adjacency, g': Adjacency, del: set<nat>, empty: set<nat>, rule: Rule, max: nat)
    requires Rewired(g, g', del, empty, rule) && |g| == max + 1 && max !in del && max !in empty && max !in g[max]
    ensures max !in g'[max] && forall i :: i in empty && i < |g| ==> g'[i] == g[i]
  {
    assert SlotRewired(g, g', del, empty, rule, max);
    forall i | i in empty && i < |g| ensures g'[i] == g[i] { assert SlotRewired(g, g', del, empty, rule, i); }
  }

  lemma AllSurvive(g: Adjacency, tagged: set<nat>, unused: set<nat>, max: nat)
    requires |g| == max + 1 && EdgesOk(g, unused) && max !in unused && forall i: nat :: i < max ==> (i in tagged <==> i !in unused)
    ensures forall i :: 0 <= i <= max && Kept(tagged, max, i) ==> Targets(g[i], max + 1, {}) && Survives(g[i], tagged, max)
  {
    forall i | 0 <= i <= max && Kept(tagged, max, i) ensures Targets(g[i], max + 1, {}) && Survives(g[i], tagged, max) {
      assert Targets(g[i], |g|, unused);
    }
  }

  lemma {:induction false} RankDense(tagged: set<nat>, n: nat)
    requires forall i :: 0 <= i < n ==> i in tagged
    ensures Rank(tagged, n) == n
  {
    if n > 0 { RankDense(tagged, n - 1); }
  }

  /** With nothing deleted the renumbering is the identity. */
  lemma StaySame<Tag(!new), V>(tag2loc: map<Tag, nat>, loc2tag: map<nat, Tag>, g: Adjacency, data: seq<V>, nd: nat, max: nat)
    requires Inverse(tag2loc, loc2tag) && nd <= max && (forall i: nat :: i in loc2tag <==> i < nd) && |g| == |data| == max + 1
    requires forall i :: 0 <= i <= max && Kept(loc2tag.Keys, max, i) ==> Survives(g[i], loc2tag.Keys, max)
    ensures Relocated(tag2loc, tag2loc, loc2tag.Keys, max) && nd == |loc2tag.Keys|
    ensures AllPlaced(g, data, g, data, loc2tag.Keys, max)
  {
    var tagged := loc2tag.Keys;
    RangeCount(tagged, 0, nd);
    forall i | 0 <= i < nd ensures Rank(tagged, i) == i { RankDense(tagged, i); }
    forall i | 0 <= i <= max && Kept(tagged, max, i) ensures Renamed(g[i], tagged, max) == g[i] {
      forall k | 0 <= k < |g[i]| ensures NewLocation(tagged, max, g[i][k]) == g[i][k] { assert g[i][k] in g[i]; }
    }
  }

  /** The tag maps after the move. */
  method RebuildTags<Tag(==, !new)>(t0: map<Tag, nat>, l0: map<nat, Tag>, max: nat) returns (t1: map<Tag, nat>, l1: map<nat, Tag>)
    requires Inverse(t0, l0)
    ensures Relocated(t0, t1, l0.Keys, max) && Inverse(t1, l1) && l1.Keys == t1.Values
  {
    t1, l1 := map t | t in t0 :: NewLocation(l0.Keys, max, t0[t]), map[];
    var rest := t1.Keys;
    while rest != {}
      invariant rest <= t1.Keys
      invariant forall l :: l in l1 ==> l1[l] in t1 && l1[l] !in rest && t1[l1[l]] == l
      invariant forall t :: t in t1 && t !in rest ==> t1[t] in l1
      decreases |rest|
    {
      var t :| t in rest;
      l1 := l1[t1[t] := t];
      rest := rest - {t};
    }
    forall t | t in t1 ensures l1[t1[t]] == t { Separate(t0, l0, t, l1[t1[t]]); }
  }

  lemma Separate<Tag(!new)>(t0: map<Tag, nat>, l0: map<nat, Tag>, t: Tag, u: Tag)
    requires Inverse(t0, l0) && t in t0 && u in t0 && Rank(l0.Keys, t0[t]) == Rank(l0.Keys, t0[u])
    ensures t == u
  {
    if t0[t] < t0[u] { RankMono(l0.Keys, t0[t], t0[u]); }
    if t0[u] < t0[t] { RankMono(l0.Keys, t0[u], t0[t]); }
  }

  method ClearFrom(g: Adjacency, lo: nat, hi: nat) returns (g': Adjacency)
    requires lo <= hi <= |g|
    ensures |g'| == |g| && forall i :: 0 <= i < |g| ==> g'[i] == if lo <= i < hi then [] else g[i]
  {
    g' := g;
    for k := lo to hi
      invariant |g'| == |g| && forall i :: 0 <= i < |g| ==> g'[i] == if lo <= i < k then [] else g[i]
    {
      g' := g'[k := []];
    }
  }

  lemma PlaceRange(tagged: set<nat>, max: nat, j: nat)
    requires (forall x :: x in tagged ==> x < max) && Kept(tagged, max, j)
    ensures if j in tagged then NewLocation(tagged, max, j) < |tagged| <= max else NewLocation(tagged, max, j) == max
  {
    RankTotal(tagged, max);
    if j in tagged { RankMono(tagged, j, max); }
  }

  lemma CompactedPlaced<V>(g1: Adjacency, data: seq<V>, g2: Adjacency, g3: Adjacency, d2: seq<V>, tagged: set<nat>, nd: nat, max: nat)
    requires Moving(g1, data, g2, d2, tagged, max, max + 1) && nd == |tagged| && forall x :: x in tagged ==> x < max
    requires |g3| == |g2| && forall i :: 0 <= i <= max && !(nd <= i < max) ==> g3[i] == g2[i]
    ensures AllPlaced(g1, data, g3, d2, tagged, max)
  {
    forall i | 0 <= i <= max && Kept(tagged, max, i) ensures Placed(g1, data, g3, d2, tagged, max, i) {
      assert Placed(g1, data, g2, d2, tagged, max, i);
      PlaceRange(tagged, max, i);
    }
  }

  lemma RenamedTargets(adj: seq<nat>, tagged: set<nat>, max: nat, e: set<nat>)
    requires (forall x :: x in tagged ==> x < max) && Survives(adj, tagged, max)
    requires forall i :: i in e ==> |tagged| <= i < max
    ensures Targets(Renamed(adj, tagged, max), max + 1, e)
    ensures max !in adj ==> max !in Renamed(adj, tagged, max)
  {
    var r := Renamed(adj, tagged, max);
    forall j | j in r ensures j < max + 1 && j !in e && (j == max ==> max in adj) {
      var k :| 0 <= k < |r| && r[k] == j;
      assert adj[k] in adj;
      PlaceRange(tagged, max, adj[k]);
    }
  }

  lemma CompactedGraph<V>(g1: Adjacency, data: seq<V>, g3: Adjacency, d2: seq<V>, tagged: set<nat>, nd: nat, max: nat, e: set<nat>)
    requires |g3| == |d2| == max + 1
    requires AllPlaced(g1, data, g3, d2, tagged, max) && Pending(g1, data, tagged, nd, max)
    requires (forall i :: i in e <==> nd <= i < max) && forall i :: nd <= i < max ==> g3[i] == []
    ensures GraphOk(g3, d2, e, max)
  {
    RankTotal(tagged, max);
    forall p | 0 <= p < |g3| && p !in e ensures Targets(g3[p], |g3|, e) {
      var i := max;
      if p < max { i := RankOnto(tagged, max, p); }
      assert Kept(tagged, max, i) && Placed(g1, data, g3, d2, tagged, max, i);
      RenamedTargets(g1[i], tagged, max, e);
    }
    assert Placed(g1, data, g3, d2, tagged, max, max) && Survives(g1[max], tagged, max) by { assert Kept(tagged, max, max); }
    RenamedTargets(g1[max], tagged, max, e);
  }

  lemma CompactedTags<Tag(!new)>(t0: map<Tag, nat>, l0: map<nat, Tag>, t1: map<Tag, nat>, l1: map<nat, Tag>, nd: nat, max: nat)
    requires Inverse(t0, l0) && Relocated(t0, t1, l0.Keys, max) && l1.Keys == t1.Values && nd == |l0.Keys|
    requires forall x :: x in l0 ==> x < max
    ensures nd <= max && forall i: nat :: i in l1 <==> i < nd
  {
    RankTotal(l0.Keys, max);
    forall i: nat | i < nd ensures i in l1 {
      var l := RankOnto(l0.Keys, max, i);
      assert t1[l0[l]] == i && l0[l] in t1;
    }
    forall i | i in l1 ensures i < nd {
      var t :| t in t1 && t1[t] == i;
      PlaceRange(l0.Keys, max, t0[t]);
    }
  }

  lemma InsertGraph<V>(g: Adjacency, data: seq<V>, empty: set<nat>, max: nat, l: nat, v: V)
    requires GraphOk(g, data, empty, max) && l in empty && l < max
    ensures GraphOk(g, data[l := v], empty - {l}, max)
  {
    forall i | 0 <= i < |g| && i !in empty - {l} ensures Targets(g[i], |g|, empty - {l}) {
      if i != l { assert Targets(g[i], |g|, empty); }
    }
  }

  lemma InsertTag<Tag(!new)>(tag2loc: map<Tag, nat>, loc2tag: map<nat, Tag>, del: set<nat>, empty: set<nat>, nd: nat, max: nat, tag: Tag)
    requires Inverse(tag2loc, loc2tag) && Partition(loc2tag.Keys, del, empty, nd, max) && nd < max && tag !in tag2loc
    ensures Inverse(tag2loc[tag := nd], loc2tag[nd := tag])
    ensures Partition(loc2tag[nd := tag].Keys, del, empty - {nd}, nd + 1, max)
  {
    assert loc2tag[nd := tag].Keys == loc2tag.Keys + {nd};
  }
}
