/**
  Rewiring around deleted points (src/index.cpp, `consolidate_deletes`): every remaining node
  that points at a deleted one gets a new adjacency, pruned from its remaining neighbours and
  the remaining neighbours of its deleted neighbours.
 */
module Consolidation {
  import opened Basics
  import opened Pool
  import opened Prune

  type Adjacency = seq<seq<nat>>

  /** Edges from slots in use go to slots in use. */
  ghost predicate EdgesOk(g: Adjacency, unused: set<nat>) {
    forall i :: 0 <= i < |g| && i !in unused ==> Targets(g[i], |g|, unused)
  }

  ghost predicate Targets(adj: seq<nat>, n: nat, unused: set<nat>) {
    forall j :: j in adj ==> j < n && j !in unused
  }

  ghost predicate Via(g: Adjacency, del: set<nat>, x: nat, j: nat) { x in del && x < |g| && j in g[x] }

  /** A remaining node among the neighbours, or one step behind a deleted neighbour. */
  ghost predicate Candidate(g: Adjacency, del: set<nat>, nbrs: seq<nat>, j: nat) {
    j !in del && (j in nbrs || exists x :: x in nbrs && Via(g, del, x, j))
  }

  lemma CandidateMore(g: Adjacency, del: set<nat>, nbrs: seq<nat>, x: nat, j: nat)
    ensures Candidate(g, del, nbrs + [x], j) <==> Candidate(g, del, nbrs, j) || (j !in del && (j == x || Via(g, del, x, j)))
  {
    if Candidate(g, del, nbrs, j) && j !in nbrs {
      var y :| y in nbrs && Via(g, del, y, j);
      assert y in nbrs + [x];
    }
    assert x in nbrs + [x];
  }

  ghost predicate Touched(g: Adjacency, del: set<nat>, i: nat)
    requires i < |g|
  {
    exists x :: x in g[i] && x in del
  }

  /** The candidates of a node, each once and with its distance. */
  ghost predicate CandidatePool(g: Adjacency, del: set<nat>, i: nat, djk: Metric, pool: seq<Neighbor>)
    requires i < |g|
  {
    && DistinctIds(pool) && (forall j :: IsIdOf(pool, j) <==> Candidate(g, del, g[i], j))
    && forall k :: 0 <= k < |pool| ==> pool[k].distance == djk(i, pool[k].id)
  }

  ghost predicate PrunedFrom(g: Adjacency, del: set<nat>, i: nat, adj: seq<nat>, rule: Rule, sel: Selection)
    requires i < |g|
  {
    CandidatePool(g, del, i, rule.djk, sel.pool) && Selected(sel, rule) && DistinctIds(sel.result) && OthersOf(sel.result, i, adj)
  }

  /** What the new adjacency of a remaining node must be: with a deleted neighbour, what pruning
      selects from all its candidates. */
  ghost predicate NodeRewired(g: Adjacency, del: set<nat>, i: nat, adj: seq<nat>, rule: Rule)
    requires i < |g|
  {
    if !Touched(g, del, i) then adj == g[i]
    else
      && |adj| <= rule.range && Distinct(adj)
      && (forall k :: 0 <= k < |adj| ==> adj[k] != i && Candidate(g, del, g[i], adj[k]))
      && exists sel :: PrunedFrom(g, del, i, adj, rule, sel)
  }

  ghost predicate SlotRewired(g: Adjacency, g': Adjacency, del: set<nat>, unused: set<nat>, rule: Rule, i: nat)
    requires i < |g| == |g'|
  {
    if i in del || i in unused then g'[i] == g[i] else NodeRewired(g, del, i, g'[i], rule)
  }

  ghost predicate Rewired(g: Adjacency, g': Adjacency, del: set<nat>, unused: set<nat>, rule: Rule) {
    |g'| == |g| && forall i :: 0 <= i < |g| ==> SlotRewired(g, g', del, unused, rule, i)
  }

  lemma CandidateInUse(g: Adjacency, del: set<nat>, unused: set<nat>, i: nat, j: nat)
    requires EdgesOk(g, unused) && i < |g| && i !in unused && Candidate(g, del, g[i], j)
    ensures j < |g| && j !in unused && j !in del
  {
    assert Targets(g[i], |g|, unused);
    if j !in g[i] {
      var x :| x in g[i] && Via(g, del, x, j);
      assert Targets(g[x], |g|, unused);
    }
  }

  /** After rewiring no edge of a remaining node reaches a deleted or unused slot. */
  lemma NoDeadEdges(g: Adjacency, g': Adjacency, del: set<nat>, unused: set<nat>, rule: Rule)
    requires EdgesOk(g, unused) && Rewired(g, g', del, unused, rule)
    ensures EdgesOk(g', unused + del)
  {
    forall i | 0 <= i < |g'| && i !in unused + del ensures Targets(g'[i], |g'|, unused + del) {
      assert SlotRewired(g, g', del, unused, rule, i) && Targets(g[i], |g|, unused);
      if Touched(g, del, i) {
        forall j | j in g'[i] ensures j < |g'| && j !in unused + del {
          var k :| 0 <= k < |g'[i]| && g'[i][k] == j;
          CandidateInUse(g, del, unused, i, j);
        }
      }
    }
  }

  /** The candidates of a node, and whether it has a deleted neighbour. */
  method Gather(g: Adjacency, del: set<nat>, i: nat) returns (cands: set<nat>, hit: bool)
    requires i < |g| && Targets(g[i], |g|, {})
    ensures hit <==> Touched(g, del, i)
    ensures forall j :: j in cands <==> Candidate(g, del, g[i], j)
  {
    cands, hit := {}, false;
    var nbrs := g[i];
    var k := 0;
    while k < |nbrs|
      invariant 0 <= k <= |nbrs|
      invariant hit <==> exists x :: x in nbrs[..k] && x in del
      invariant forall j :: j in cands <==> Candidate(g, del, nbrs[..k], j)
    {
      var x := nbrs[k];
      assert x in g[i];
      assert nbrs[..k + 1] == nbrs[..k] + [x];
      forall j: nat
        ensures Candidate(g, del, nbrs[..k + 1], j) <==> Candidate(g, del, nbrs[..k], j) || (j !in del && (j == x || Via(g, del, x, j)))
      {
        CandidateMore(g, del, nbrs[..k], x, j);
      }
      if x in del {
        hit := true;
        var more := Remaining(g[x], del);
        cands := cands + more;
      } else {
        cands := cands + {x};
      }
      k := k + 1;
    }
    assert nbrs[..k] == g[i];
  }

  method Remaining(s: seq<nat>, del: set<nat>) returns (r: set<nat>)
    ensures forall j :: j in r <==> j in s && j !in del
  {
    r := {};
    var k := 0;
    while k < |s|
      invariant 0 <= k <= |s| && forall j :: j in r <==> j in s[..k] && j !in del
    {
      assert s[..k + 1] == s[..k] + [s[k]];
      if s[k] !in del { r := r + {s[k]}; }
      k := k + 1;
    }
    assert s[..k] == s;
  }

  /** The candidates with their distances, in whatever order the set yields them. */
  method ToPool(cands: set<nat>, i: nat, djk: Metric) returns (pool: seq<Neighbor>)
    ensures DistinctIds(pool) && (forall j :: IsIdOf(pool, j) <==> j in cands)
    ensures forall k :: 0 <= k < |pool| ==> pool[k].distance == djk(i, pool[k].id)
  {
    pool := [];
    var rest := cands;
    while rest != {}
      invariant rest <= cands && DistinctIds(pool) && (forall j :: IsIdOf(pool, j) <==> j in cands && j !in rest)
      invariant forall k :: 0 <= k < |pool| ==> pool[k].distance == djk(i, pool[k].id)
      decreases |rest|
    {
      var j :| j in rest;
      AddId(pool, Neighbor(j, djk(i, j), true));
      pool := pool + [Neighbor(j, djk(i, j), true)];
      rest := rest - {j};
    }
  }

  lemma AddId(pool: seq<Neighbor>, nn: Neighbor)
    ensures forall j :: IsIdOf(pool + [nn], j) <==> IsIdOf(pool, j) || j == nn.id
    ensures DistinctIds(pool) && !IsIdOf(pool, nn.id) ==> DistinctIds(pool + [nn])
  {
    var p := pool + [nn];
    forall j | IsIdOf(pool, j) ensures IsIdOf(p, j) {
      var i :| 0 <= i < |pool| && pool[i].id == j;
      assert p[i].id == j;
    }
    assert p[|pool|].id == nn.id;
  }

  /** The new adjacency of one remaining node. */
  method RewireNode(g: Adjacency, del: set<nat>, i: nat, rule: Rule) returns (adj: seq<nat>)
    requires i < |g| && Targets(g[i], |g|, {}) && forall a: nat, b: nat :: rule.djk(a, b) >= 0.0
    ensures NodeRewired(g, del, i, adj, rule)
  {
    var cands, hit := Gather(g, del, i);
    if !hit { return g[i]; }
    var pool0 := ToPool(cands, i, rule.djk);
    SortedPool(pool0, rule.djk);
    SortKeeps(pool0);
    var pool := SortSeq(pool0);
    var result, chosen, passes, last := OccludeList(pool, rule);
    PickedOnce(pool, rule.djk, rule.alpha, Min(|pool|, rule.maxc), result, chosen);
    adj := WithoutSelf(pool, result, i);
    forall k | 0 <= k < |pool| ensures pool[k].distance == rule.djk(i, pool[k].id) { assert pool[k] in pool0; }
    assert PrunedFrom(g, del, i, adj, rule, Selection(pool, result, chosen, passes, last));
  }

  /** Rewiring a node reads its own adjacency and those of deleted nodes only. */
  lemma RewireReads(g: Adjacency, g': Adjacency, del: set<nat>, i: nat, adj: seq<nat>, rule: Rule)
    requires |g'| == |g| && i < |g| && g'[i] == g[i] && (forall x :: x in del && x < |g| ==> g'[x] == g[x])
    requires NodeRewired(g', del, i, adj, rule)
    ensures NodeRewired(g, del, i, adj, rule)
  {
    forall x: nat, j: nat ensures Via(g', del, x, j) <==> Via(g, del, x, j) { }
    forall j ensures Candidate(g', del, g'[i], j) <==> Candidate(g, del, g[i], j) {
      if x :| x in g[i] && Via(g, del, x, j) { assert Via(g', del, x, j); }
      if x :| x in g[i] && Via(g', del, x, j) { assert Via(g, del, x, j); }
    }
    if Touched(g, del, i) {
      assert Touched(g', del, i);
      var sel :| PrunedFrom(g', del, i, adj, rule, sel);
      assert PrunedFrom(g, del, i, adj, rule, sel);
    }
  }

  method Slots(lo: nat, hi: nat) returns (s: set<nat>)
    requires lo <= hi
    ensures forall i: nat :: i in s <==> lo <= i < hi
  {
    s := {};
    for i := lo to hi
      invariant forall k: nat :: k in s <==> lo <= k < i
    {
      s := s + {i};
    }
  }

  /** The rewiring of all remaining nodes, in place and in any order; every node comes out as if
      it had been rewired first. */
  method RewireAll(g: Adjacency, del: set<nat>, unused: set<nat>, rule: Rule) returns (g': Adjacency)
    requires EdgesOk(g, unused) && forall a: nat, b: nat :: rule.djk(a, b) >= 0.0
    ensures Rewired(g, g', del, unused, rule)
  {
    g' := g;
    var rest: set<nat> := Slots(0, |g|);
    while rest != {}
      invariant |g'| == |g| && forall i :: i in rest ==> i < |g|
      invariant forall i :: 0 <= i < |g| ==> if i in rest then g'[i] == g[i] else SlotRewired(g, g', del, unused, rule, i)
      decreases |rest|
    {
      var i: nat :| i in rest;
      rest := rest - {i};
      if i !in del && i !in unused {
        assert Targets(g[i], |g|, unused);
        ghost var before := g';
        var adj := RewireNode(g', del, i, rule);
        assert forall x :: x in del && x < |g| && x !in rest ==> SlotRewired(g, g', del, unused, rule, x);
        RewireReads(g, g', del, i, adj, rule);
        g' := g'[i := adj];
        forall k | 0 <= k < |g| && k !in rest && k != i ensures SlotRewired(g, g', del, unused, rule, k) {
          assert SlotRewired(g, before, del, unused, rule, k);
        }
      }
    }
  }
}
