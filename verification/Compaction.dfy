/**
  In-place compaction of the slots (src/index.cpp, `compact_data`): the tagged points move to
  the front, keeping their order, and all edges are renumbered.
 */
module Compaction {
  import opened Consolidation

  /** The number of tagged slots before n. */
  function Rank(tagged: set<nat>, n: nat): (r: nat)
    ensures r <= n
  {
    if n == 0 then 0 else Rank(tagged, n - 1) + if n - 1 in tagged then 1 else 0
  }

  lemma {:induction false} RankMono(tagged: set<nat>, i: nat, j: nat)
    requires i <= j
    ensures Rank(tagged, i) <= Rank(tagged, j) && (i in tagged && i < j ==> Rank(tagged, i) < Rank(tagged, j))
    decreases j
  {
    if i < j { RankMono(tagged, i, j - 1); }
  }

  lemma {:induction false} RankTotal(tagged: set<nat>, n: nat)
    requires forall x :: x in tagged ==> x < n
    ensures Rank(tagged, n) == |tagged|
  {
    if n == 0 {
      assert tagged == {};
    } else {
      var less := tagged - {n - 1};
      RankTotal(less, n - 1);
      RankSame(tagged, less, n - 1);
      if n - 1 in tagged { assert tagged == less + {n - 1}; } else { assert tagged == less; }
    }
  }

  lemma {:induction false} RankSame(a: set<nat>, b: set<nat>, n: nat)
    requires forall x :: x < n ==> (x in a <==> x in b)
    ensures Rank(a, n) == Rank(b, n)
  {
    if n > 0 { RankSame(a, b, n - 1); }
  }

  /** Every new number below the total is some tagged slot's. */
  lemma {:induction false} RankOnto(tagged: set<nat>, n: nat, p: nat) returns (i: nat)
    requires p < Rank(tagged, n)
    ensures i < n && i in tagged && Rank(tagged, i) == p
  {
    if n - 1 in tagged && Rank(tagged, n - 1) == p { i := n - 1; } else { i := RankOnto(tagged, n - 1, p); }
  }

  /** Where a slot goes; untagged slots and the frozen point go to `max`. */
  function NewLocation(tagged: set<nat>, max: nat, i: nat): nat { if i in tagged then Rank(tagged, i) else max }

  method NewLocations(tagged: set<nat>, max: nat) returns (nl: seq<nat>)
    ensures |nl| == max + 1 && forall i :: 0 <= i <= max ==> nl[i] == NewLocation(tagged, max, i)
  {
    nl := [];
    var counter, i := 0, 0;
    while i <= max
      invariant 0 <= i == |nl| <= max + 1 && counter == Rank(tagged, i)
      invariant forall k :: 0 <= k < i ==> nl[k] == NewLocation(tagged, max, k)
    {
      if i in tagged {
        nl := nl + [counter];
        counter := counter + 1;
      } else {
        nl := nl + [max];
      }
      i := i + 1;
    }
  }

  function Renamed(adj: seq<nat>, tagged: set<nat>, max: nat): seq<nat> {
    seq(|adj|, k requires 0 <= k < |adj| => NewLocation(tagged, max, adj[k]))
  }

  /** All edges go to tagged slots or the frozen point. */
  ghost predicate Survives(adj: seq<nat>, tagged: set<nat>, max: nat) { forall j :: j in adj ==> j in tagged || j == max }

  /** Renumbers one adjacency; fails on an edge whose target would move to a larger number. */
  method Renumber(adj: seq<nat>, nl: seq<nat>, tagged: set<nat>, max: nat) returns (ok: bool, r: seq<nat>)
    requires |nl| == max + 1 && (forall i :: 0 <= i <= max ==> nl[i] == NewLocation(tagged, max, i)) && Targets(adj, max + 1, {})
    ensures ok <==> Survives(adj, tagged, max)
    ensures ok ==> r == Renamed(adj, tagged, max)
  {
    r := [];
    var i := 0;
    while i < |adj|
      invariant 0 <= i == |r| <= |adj| && Survives(adj[..i], tagged, max)
      invariant forall k :: 0 <= k < i ==> r[k] == NewLocation(tagged, max, adj[k])
    {
      assert adj[i] in adj;
      if nl[adj[i]] > adj[i] { return false, r; }
      assert adj[..i + 1] == adj[..i] + [adj[i]];
      r := r + [nl[adj[i]]];
      i := i + 1;
    }
    assert adj[..i] == adj;
    ok := true;
  }

  ghost predicate Kept(tagged: set<nat>, max: nat, i: nat) { i in tagged || i == max }

  /** Slot i's adjacency and vector are at its new place. */
  ghost predicate Placed<V>(g0: Adjacency, data0: seq<V>, g: Adjacency, data: seq<V>, tagged: set<nat>, max: nat, i: nat) {
    && i <= max < |g0| == |data0| == |g| == |data| && NewLocation(tagged, max, i) <= max
    && g[NewLocation(tagged, max, i)] == Renamed(g0[i], tagged, max)
    && data[NewLocation(tagged, max, i)] == data0[i]
  }

  ghost predicate Moving<V>(g0: Adjacency, data0: seq<V>, g: Adjacency, data: seq<V>, tagged: set<nat>, max: nat, n: nat) {
    && max + 1 == |g0| == |data0| == |g| == |data| && n <= max + 1
    && (forall i :: 0 <= i < n && Kept(tagged, max, i) ==> Placed(g0, data0, g, data, tagged, max, i))
    && (forall i :: n <= i <= max ==> g[i] == g0[i] && data[i] == data0[i])
    && (forall i :: 0 <= i < n && Kept(tagged, max, i) ==> Survives(g0[i], tagged, max))
  }

  /** Moving slot n does not disturb the slots placed before it. */
  lemma MoveOne<V>(g0: Adjacency, data0: seq<V>, g: Adjacency, data: seq<V>, g': Adjacency, data': seq<V>,
                   tagged: set<nat>, max: nat, n: nat)
    requires (forall x :: x in tagged ==> x < max) && n <= max && Moving(g0, data0, g, data, tagged, max, n)
    requires |g'| == |g| && |data'| == |data|
    requires var p := NewLocation(tagged, max, n);
             forall i :: 0 <= i <= max && i != n && i != p ==> g'[i] == g[i] && data'[i] == data[i]
    requires Kept(tagged, max, n) ==> Survives(g0[n], tagged, max) && Placed(g0, data0, g', data', tagged, max, n)
    requires !Kept(tagged, max, n) ==> g'[max] == g[max] && data'[max] == data[max]
    ensures Moving(g0, data0, g', data', tagged, max, n + 1)
  {
    forall i | 0 <= i < n && Kept(tagged, max, i) ensures Placed(g0, data0, g', data', tagged, max, i) {
      assert Placed(g0, data0, g, data, tagged, max, i);
      RankMono(tagged, i, n);
    }
    forall i | n < i <= max ensures g'[i] == g0[i] && data'[i] == data0[i] {
      assert i != NewLocation(tagged, max, n) || i == max;
    }
  }

  /** The moving loop.  It stops at a crash exactly if a slot that stays has an edge to an
      untagged slot; otherwise every slot that stays is at its new place, renumbered. */
  method CompactSlots<V>(g0: Adjacency, data0: seq<V>, tagged: set<nat>, max: nat)
    returns (ok: bool, g: Adjacency, data: seq<V>)
    requires |g0| == |data0| == max + 1 && (forall x :: x in tagged ==> x < max)
    requires forall i :: 0 <= i <= max && Kept(tagged, max, i) ==> Targets(g0[i], max + 1, {})
    ensures ok <==> forall i :: 0 <= i <= max && Kept(tagged, max, i) ==> Survives(g0[i], tagged, max)
    ensures ok ==> Moving(g0, data0, g, data, tagged, max, max + 1)
  {
    var nl := NewLocations(tagged, max);
    g, data := g0, data0;
    var n := 0;
    while n <= max
      invariant 0 <= n <= max + 1 && Moving(g0, data0, g, data, tagged, max, n)
    {
      ghost var gn, datan := g, data;
      if nl[n] < max || n == max {
        PlaceBound(tagged, max, n);
        var fine, adj := Renumber(g[n], nl, tagged, max);
        if !fine { return false, g, data; }
        g := g[n := adj];
        if nl[n] != n {
          g := g[nl[n] := g[n]][n := g[nl[n]]];
          data := data[nl[n] := data[n]];
        }
      } else {
        g := g[n := []];
      }
      PlaceKept(tagged, max, n);
      MoveOne(g0, data0, gn, datan, g, data, tagged, max, n);
      n := n + 1;
    }
    ok := true;
  }

  lemma PlaceBound(tagged: set<nat>, max: nat, n: nat)
    requires n <= max && (NewLocation(tagged, max, n) < max || n == max) && forall x :: x in tagged ==> x < max
    ensures Kept(tagged, max, n) && NewLocation(tagged, max, n) <= n
  {
  }

  lemma PlaceKept(tagged: set<nat>, max: nat, n: nat)
    requires n <= max && forall x :: x in tagged ==> x < max
    ensures Kept(tagged, max, n) <==> NewLocation(tagged, max, n) < max || n == max
  {
  }
}
