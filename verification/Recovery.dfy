/**
  Rebuilding the allocator from the persistent id2loc array after a crash
  (src/ssd_index.cpp).  A zero entry marks an id that does not exist, except for id 0.
 */
module Recovery {
  import Arith
  import opened Commit
  import opened PageLayout

  /** The entries that the load loop accepts. */
  function Loaded(file: seq<nat>): map<nat, nat> {
    map id: nat | id < |file| && (id == 0 || file[id] != 0) :: file[id]
  }

  /** The array that a run leaves behind for an id map. */
  ghost predicate Persists(file: seq<nat>, m: map<nat, nat>) {
    && (forall id :: id in m ==> id < |file|)
    && (forall id: nat :: id < |file| ==> file[id] == if id in m then m[id] else 0)
  }

  /** Recovery gives back the id map exactly if id 0 exists and no other id is at location 0. */
  lemma LoadRestores(file: seq<nat>, m: map<nat, nat>)
    requires Persists(file, m)
    ensures Loaded(file) == m <==> file == [] || (0 in m && forall id :: id in m && id != 0 ==> m[id] != 0)
  {
    if file == [] {
      assert Loaded(file) == m;
    } else if Loaded(file) == m {
      assert 0 in Loaded(file);
      forall id | id in m && id != 0 ensures m[id] != 0 { assert id in Loaded(file); }
    } else {
      var id :| (id in m) != (id in Loaded(file)) || (id in m && m[id] != Loaded(file)[id]);
      assert id in Loaded(file) ==> file[id] == Loaded(file)[id];
    }
  }

  /** An id that moved to location 0 is lost by recovery. */
  lemma LocationZeroIsLost()
    ensures Persists([1, 0], map[0 := 1, 1 := 0]) && Loaded([1, 0]) != map[0 := 1, 1 := 0]
  {
    assert 1 !in Loaded([1, 0]) && 1 in map[0 := 1, 1 := 0];
  }

  /** Each location that an id points at, with one such id. */
  ghost predicate Inverts(m: map<nat, nat>, inv: map<nat, nat>) {
    && (forall l :: l in inv ==> inv[l] in m && m[inv[l]] == l)
    && (forall id :: id in m ==> m[id] in inv)
  }

  ghost predicate LargestLoc(m: map<nat, nat>, x: nat) {
    (forall id :: id in m ==> m[id] <= x) && (x == 0 || exists id :: id in m && m[id] == x)
  }

  function MaxLoc(file: seq<nat>): nat {
    if file == [] then 0
    else
      var n := |file| - 1;
      if file[n] > MaxLoc(file[..n]) then file[n] else MaxLoc(file[..n])
  }

  /** The largest id that the load loop accepts. */
  function LastId(file: seq<nat>): nat {
    if |file| <= 1 then 0 else if file[|file| - 1] != 0 then |file| - 1 else LastId(file[..|file| - 1])
  }

  lemma {:induction false} LastIdIs(file: seq<nat>)
    ensures (file != [] ==> LastId(file) in Loaded(file)) && forall id :: id in Loaded(file) ==> id <= LastId(file)
    decreases |file|
  {
    if |file| > 1 && file[|file| - 1] == 0 {
      var n := |file| - 1;
      LastIdIs(file[..n]);
      assert forall id: nat :: id in Loaded(file) <==> id in Loaded(file[..n]);
    }
  }

  lemma LoadedMore(file: seq<nat>, n: nat)
    requires n < |file|
    ensures Loaded(file[..n + 1]) == if n == 0 || file[n] != 0 then Loaded(file[..n])[n := file[n]] else Loaded(file[..n])
    ensures n !in Loaded(file[..n])
    ensures LastId(file[..n + 1]) == if n == 0 || file[n] != 0 then n else LastId(file[..n])
    ensures MaxLoc(file[..n + 1]) == if file[n] > MaxLoc(file[..n]) then file[n] else MaxLoc(file[..n])
  {
    assert file[..n + 1][..n] == file[..n];
    var a, b := Loaded(file[..n + 1]), if n == 0 || file[n] != 0 then Loaded(file[..n])[n := file[n]] else Loaded(file[..n]);
    forall id: nat ensures (id in a <==> id in b) && (id in a ==> a[id] == b[id]) { }
  }

  /** The load loop. */
  method LoadIds(file: seq<nat>) returns (id2loc: map<nat, nat>, loc2id: map<nat, nat>, numPoints: nat, maxLoc: nat, maxId: nat)
    ensures id2loc == Loaded(file) && Inverts(id2loc, loc2id) && maxId == LastId(file)
    ensures numPoints == |id2loc| && LargestLoc(id2loc, maxLoc) && maxLoc == MaxLoc(file)
  {
    id2loc, loc2id, numPoints, maxLoc, maxId := map[], map[], 0, 0, 0;
    var id := 0;
    while id < |file|
      invariant 0 <= id <= |file|
      invariant id2loc == Loaded(file[..id]) && Inverts(id2loc, loc2id) && maxId == LastId(file[..id])
      invariant numPoints == |id2loc| && LargestLoc(id2loc, maxLoc) && maxLoc == MaxLoc(file[..id])
    {
      var loc := file[id];
      LoadedMore(file, id);
      if id == 0 || loc != 0 {
        LoadOne(id2loc, loc2id, maxLoc, id, loc);
        id2loc, loc2id := id2loc[id := loc], loc2id[loc := id];
        numPoints, maxId := numPoints + 1, id;
      }
      if loc > maxLoc { maxLoc := loc; }
      id := id + 1;
    }
    assert file[..id] == file;
  }

  lemma LoadOne(m: map<nat, nat>, inv: map<nat, nat>, x: nat, id: nat, loc: nat)
    requires Inverts(m, inv) && LargestLoc(m, x) && id !in m
    ensures Inverts(m[id := loc], inv[loc := id]) && |m[id := loc]| == |m| + 1
    ensures LargestLoc(m[id := loc], if loc > x then loc else x)
  {
    var m' := m[id := loc];
    assert m'.Keys == m.Keys + {id};
    assert id in m' && m'[id] == loc;
    if x != 0 {
      var a :| a in m && m[a] == x;
      assert a in m' && m'[a] == x;
    }
  }

  /** The number of pages that n slots fill. */
  function PagesFor(n: nat, npp: nat): nat
    requires npp > 0
  {
    Arith.Quotient(n + npp - 1, npp);
    (n + npp - 1) / npp
  }

  /** Distinct locations up to x need no more pages than x has before it. */
  lemma PagesEnough(npp: nat, m: map<nat, nat>, x: nat)
    requires npp > 0 && Injective(m) && LargestLoc(m, x)
    ensures PagesFor(|m|, npp) <= PageOf(x, npp)
  {
    InjectiveCount(m, x + 1);
    RoundedUp(|m|, x, npp);
  }

  lemma RoundedUp(n: nat, x: nat, npp: nat)
    requires npp > 0 && n <= x + 1
    ensures PagesFor(n, npp) <= PageOf(x, npp)
  {
    var a := n + npp - 1;
    var p, q := a / npp, x / npp;
    Arith.Quotient(x, npp);
    Arith.Quotient(a, npp);
    if p >= q + 2 { Arith.MulMono(q + 2, p, npp); }
  }

  lemma {:induction false} InjectiveCount(m: map<nat, nat>, n: nat)
    requires Injective(m) && forall id :: id in m ==> m[id] < n
    ensures |m| <= n
    decreases n
  {
    if n > 0 {
      if id :| id in m && m[id] == n - 1 {
        assert m.Keys == (m - {id}).Keys + {id};
        InjectiveCount(m - {id}, n - 1);
      } else {
        InjectiveCount(m, n - 1);
      }
    } else {
      assert m.Keys == {};
    }
  }

  /** With a hole between two ids, the page of the later one is not rebuilt. */
  lemma SparseIsNotRebuilt()
    ensures Persists([0, 5], map[0 := 0, 1 := 5]) && Loaded([0, 5]) == map[0 := 0, 1 := 5]
    ensures Injective(Loaded([0, 5])) && PagesFor(2, 4) == 1 && PageOf(MaxLoc([0, 5]), 4) == 2
  {
    LoadRestores([0, 5], map[0 := 0, 1 := 5]);
    assert MaxLoc([0]) == 0 && [0, 5][..1] == [0];
  }

  function RestoredRow(npp: nat, loc2id: map<nat, nat>, p: nat): seq<Slot>
    requires p > 0
  {
    seq(npp, o requires 0 <= o < npp => if LocOf(p, o, npp) in loc2id then Live(loc2id[LocOf(p, o, npp)]) else Free)
  }

  ghost predicate RestoredPages(y: Layout, npp: nat, loc2id: map<nat, nat>, n: nat) {
    && (forall p :: p in y <==> 1 <= p <= n)
    && (forall p :: p in y ==> y[p] == RestoredRow(npp, loc2id, p))
  }

  method RestorePages(npp: nat, loc2id: map<nat, nat>, n: nat) returns (y: Layout)
    ensures RestoredPages(y, npp, loc2id, n)
  {
    y := map[];
    for i := 0 to n
      invariant RestoredPages(y, npp, loc2id, i)
    {
      y := y[i + 1 := RestoredRow(npp, loc2id, i + 1)];
    }
  }

  lemma RestoredRows(y: Layout, npp: nat, loc2id: map<nat, nat>, n: nat, f: nat)
    requires RestoredPages(y, npp, loc2id, n) && f > 0
    ensures RowsOk(y, npp, f, {}) <==> f == n + 1
  {
    if RowsOk(y, npp, f, {}) {
      assert n + 1 !in y && (f <= n ==> f in y);
    }
  }

  lemma RestoredSlot(y: Layout, npp: nat, loc2id: map<nat, nat>, n: nat, l: nat)
    requires npp > 0 && Sound(Sectors(npp)) && RestoredPages(y, npp, loc2id, n)
    ensures LookUp(y, Sectors(npp), l) ==
            if PageOf(l, npp) <= n && l in loc2id then Live(loc2id[l]) else Free
  {
    var g := Sectors(npp);
    assert LocAt(g, l) && g.page(l) == PageOf(l, npp);
    assert g.loc(g.page(l), g.off(l)) == LocOf(g.page(l), g.off(l), npp);
  }

  /** The rebuilt table mirrors the id map if no two ids share a location and every location is on
      a rebuilt page. */
  lemma RestoredMaps(y: Layout, npp: nat, m: map<nat, nat>, loc2id: map<nat, nat>, n: nat)
    requires npp > 0 && Sound(Sectors(npp)) && RestoredPages(y, npp, loc2id, n) && Inverts(m, loc2id)
    requires forall id :: id in m ==> PageOf(m[id], npp) <= n
    ensures MapsExcept(y, m, Sectors(npp), []) <==> Injective(m)
  {
    forall l: nat ensures Mirrors(y, Sectors(npp), loc2id, l) {
      RestoredSlot(y, npp, loc2id, n, l);
    }
    MirrorMaps(y, Sectors(npp), m, loc2id);
  }

  ghost predicate Mirrors(y: Layout, g: Geometry, loc2id: map<nat, nat>, l: nat) {
    LookUp(y, g, l) == if l in loc2id then Live(loc2id[l]) else Free
  }

  lemma MirrorMaps(y: Layout, g: Geometry, m: map<nat, nat>, loc2id: map<nat, nat>)
    requires (forall l: nat :: Mirrors(y, g, loc2id, l)) && Inverts(m, loc2id)
    ensures MapsExcept(y, m, g, []) <==> Injective(m)
  {
    if Injective(m) {
      forall id | id in m ensures LookUp(y, g, m[id]) == Live(id) {
        assert Mirrors(y, g, loc2id, m[id]);
        assert loc2id[m[id]] in m && m[loc2id[m[id]]] == m[id];
      }
      forall l: nat | LookUp(y, g, l).Live? ensures LookUp(y, g, l).id in m && m[LookUp(y, g, l).id] == l {
        assert Mirrors(y, g, loc2id, l);
      }
    }
    if MapsExcept(y, m, g, []) {
      forall a, b | a in m && b in m && a != b ensures m[a] != m[b] {
        assert LookUp(y, g, m[a]) == Live(a) && LookUp(y, g, m[b]) == Live(b);
      }
    }
  }
}
