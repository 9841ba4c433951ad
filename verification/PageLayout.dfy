/**
  Locations, pages and the slot table of the disk index (include/ssd_index.h): a page holds
  `npp` node slots, a location is a slot of a page, and the layout says for every page up to
  the allocation frontier which node, if any, each of its slots belongs to.
 */
module PageLayout {
  import opened Arith
  import opened Basics

  // ---------------------------------------------------------------- location arithmetic

  /** loc_sector_no: the page of a location; page 0 is the header. */
  function PageOf(loc: nat, npp: nat): nat
    requires npp > 0
  {
    1 + loc / npp
  }

  /** sector_to_loc. */
  function LocOf(page: nat, off: nat, npp: nat): nat
    requires page > 0
  {
    (page - 1) * npp + off
  }

  /** The arithmetic of one layout, given as functions. */
  datatype Geometry = Geometry(npp: nat, page: nat -> nat, off: nat -> nat, loc: (nat, nat) --> nat)

  ghost predicate PairAt(g: Geometry, p: nat, o: nat) {
    && g.loc.requires(p, o)
    && g.page(g.loc(p, o)) == p && g.off(g.loc(p, o)) == o
    && g.loc.requires(p, 0) && g.loc(p, o) == g.loc(p, 0) + o
    && g.loc.requires(p + 1, 0) && g.loc(p + 1, 0) == g.loc(p, 0) + g.npp
  }

  ghost predicate LocAt(g: Geometry, l: nat) {
    && g.page(l) > 0 && g.off(l) < g.npp
    && g.loc.requires(g.page(l), g.off(l)) && g.loc(g.page(l), g.off(l)) == l
  }

  /** Pages and slots are a bijective numbering of locations. */
  ghost predicate Sound(g: Geometry) {
    && g.npp > 0
    && (forall p: nat, o: nat :: p > 0 && o < g.npp ==> PairAt(g, p, o))
    && (forall l: nat :: LocAt(g, l))
  }

  function Sectors(npp: nat): Geometry
    requires npp > 0
  {
    Geometry(npp, l => PageOf(l, npp), l => l % npp, (p, o) requires p > 0 => LocOf(p, o, npp))
  }

  lemma SectorsSound(npp: nat)
    requires npp > 0
    ensures Sound(Sectors(npp))
  {
    var g := Sectors(npp);
    forall p: nat, o: nat | p > 0 && o < npp ensures PairAt(g, p, o) {
      DivMod(p - 1, npp, o);
      assert LocOf(p + 1, 0, npp) == LocOf(p, 0, npp) + npp;
    }
    forall l: nat ensures LocAt(g, l) {
      Quotient(l, npp);
    }
  }

  // ---------------------------------------------------------------- slots

  /** The value stored for a slot: kInvalidID, kAllocatedID, or the id of a node. */
  datatype Slot = Free | Allocated | Live(id: nat)

  type Layout = map<nat, seq<Slot>>

  predicate AllFree(row: seq<Slot>) { forall o :: 0 <= o < |row| ==> row[o].Free? }

  predicate NoneFree(row: seq<Slot>) { forall o :: 0 <= o < |row| ==> !row[o].Free? }

  /** The pages 1 to f - 1 exist, except those in `gap`, each with npp slots. */
  ghost predicate RowsOk(y: Layout, npp: nat, f: nat, gap: set<nat>) {
    && f > 0 && (forall p :: p in gap ==> 1 <= p < f)
    && (forall p :: p in y <==> 1 <= p < f && p !in gap)
    && (forall p :: p in y ==> |y[p]| == npp)
  }

  /** Every queued page is wholly free and queued once. */
  ghost predicate QueueOk(q: seq<nat>, y: Layout) {
    Distinct(q) && forall i :: 0 <= i < |q| ==> q[i] in y && AllFree(y[q[i]])
  }

  /** Ids and live slots point at each other. */
  ghost predicate MapsOk(y: Layout, id2loc: map<nat, nat>, g: Geometry) {
    && (forall p, o :: p in y && 0 <= o < |y[p]| && y[p][o].Live? ==>
          g.loc.requires(p, o) && y[p][o].id in id2loc && id2loc[y[p][o].id] == g.loc(p, o))
    && (forall id :: id in id2loc ==> IsAt(y, g, id2loc[id], Live(id)))
  }

  /** The slot of a location. */
  predicate IsAt(y: Layout, g: Geometry, l: nat, s: Slot) {
    g.page(l) in y && g.off(l) < |y[g.page(l)]| && y[g.page(l)][g.off(l)] == s
  }

  // ---------------------------------------------------------------- taking slots

  datatype Pos = Pos(page: nat, off: nat)

  function At(y: Layout, p: nat, o: nat): Slot {
    if p in y && o < |y[p]| then y[p][o] else Free
  }

  /** Exactly the given slots, all free or beyond the frontier before, became allocated. */
  ghost predicate Took(y: Layout, y': Layout, taken: seq<Pos>) {
    && y.Keys <= y'.Keys
    && (forall p :: p in y ==> |y'[p]| == |y[p]|)
    && Distinct(taken)
    && (forall i :: 0 <= i < |taken| ==>
          At(y, taken[i].page, taken[i].off).Free? && taken[i].page in y' && taken[i].off < |y'[taken[i].page]|)
    && (forall p: nat, o: nat :: At(y', p, o) == if Pos(p, o) in taken then Allocated else At(y, p, o))
  }

  lemma TookNothing(y: Layout)
    ensures Took(y, y, [])
  {
  }

  lemma TookMore(y: Layout, y1: Layout, y2: Layout, a: seq<Pos>, b: seq<Pos>)
    requires Took(y, y1, a) && Took(y1, y2, b)
    ensures Took(y, y2, a + b)
  {
    forall i | 0 <= i < |b| ensures b[i] !in a {
      var x := b[i];
      assert x == Pos(x.page, x.off) && At(y1, x.page, x.off).Free?;
      assert At(y1, x.page, x.off) == if Pos(x.page, x.off) in a then Allocated else At(y, x.page, x.off);
    }
    forall p: nat, o: nat
      ensures At(y2, p, o) == if Pos(p, o) in a + b then Allocated else At(y, p, o)
    {
      assert At(y1, p, o) == if Pos(p, o) in a then Allocated else At(y, p, o);
      assert At(y2, p, o) == if Pos(p, o) in b then Allocated else At(y1, p, o);
    }
    forall i | 0 <= i < |a + b|
      ensures At(y, (a + b)[i].page, (a + b)[i].off).Free? && (a + b)[i].page in y2 && (a + b)[i].off < |y2[(a + b)[i].page]|
    {
      var x := (a + b)[i];
      if i < |a| {
        assert x == a[i];
        assert x.page in y1 && |y2[x.page]| == |y1[x.page]|;
      } else {
        assert x == b[i - |a|] && x !in a;
        assert At(y1, x.page, x.off) == At(y, x.page, x.off);
      }
    }
  }

  ghost predicate OnPage(taken: seq<Pos>, p: nat) { exists i :: 0 <= i < |taken| && taken[i].page == p }

  /** A page without a taken slot is unchanged. */
  lemma TookRow(y: Layout, y': Layout, taken: seq<Pos>, p: nat)
    requires Took(y, y', taken) && p in y && !OnPage(taken, p)
    ensures y'[p] == y[p]
  {
    forall o | 0 <= o < |y[p]| ensures y'[p][o] == y[p][o] {
      assert At(y', p, o) == if Pos(p, o) in taken then Allocated else At(y, p, o);
    }
  }

  /** Taking slots disturbs no live slot. */
  lemma TookMaps(y: Layout, y': Layout, taken: seq<Pos>, id2loc: map<nat, nat>, g: Geometry)
    requires Took(y, y', taken) && MapsOk(y, id2loc, g) && forall p :: p in y ==> p > 0
    ensures MapsOk(y', id2loc, g)
  {
    forall p: nat, o: nat | p in y' && o < |y'[p]| && y'[p][o].Live?
      ensures p in y && o < |y[p]| && y[p][o] == y'[p][o]
    {
      assert At(y', p, o) == if Pos(p, o) in taken then Allocated else At(y, p, o);
    }
    forall id | id in id2loc ensures IsAt(y', g, id2loc[id], Live(id)) {
      var p, o := g.page(id2loc[id]), g.off(id2loc[id]);
      assert IsAt(y, g, id2loc[id], Live(id));
      assert At(y', p, o) == if Pos(p, o) in taken then Allocated else At(y, p, o);
    }
  }

  /** The taken slots as locations. */
  ghost predicate LocsAre(g: Geometry, locs: seq<nat>, taken: seq<Pos>) {
    |locs| == |taken| &&
    forall i :: 0 <= i < |locs| ==> g.loc.requires(taken[i].page, taken[i].off) && locs[i] == g.loc(taken[i].page, taken[i].off)
  }

  lemma LocsDistinct(g: Geometry, locs: seq<nat>, taken: seq<Pos>)
    requires Sound(g) && LocsAre(g, locs, taken) && Distinct(taken)
    requires forall i :: 0 <= i < |taken| ==> taken[i].page > 0 && taken[i].off < g.npp
    ensures Distinct(locs)
  {
    forall i, j | 0 <= i < j < |locs| ensures locs[i] != locs[j] {
      assert PairAt(g, taken[i].page, taken[i].off) && PairAt(g, taken[j].page, taken[j].off);
    }
  }

  /** The pages among the taken ones that already had an occupant, whose content must be read. */
  ghost function Occupied(y: Layout, taken: seq<Pos>): set<nat> {
    set i | 0 <= i < |taken| && taken[i].page in y && !AllFree(y[taken[i].page]) :: taken[i].page
  }

  // ---------------------------------------------------------------- by location

  function Put(y: Layout, p: nat, o: nat, s: Slot): Layout {
    if p in y && o < |y[p]| then y[p := y[p][o := s]] else y
  }

  function LookUp(y: Layout, g: Geometry, l: nat): Slot { At(y, g.page(l), g.off(l)) }

  /** The location is on an existing page. */
  predicate Exists(y: Layout, g: Geometry, l: nat) { g.page(l) in y && g.off(l) < |y[g.page(l)]| }

  lemma PutLookUp(y: Layout, g: Geometry, l: nat, s: Slot, l': nat)
    requires Sound(g) && Exists(y, g, l)
    ensures LookUp(Put(y, g.page(l), g.off(l), s), g, l') == if l' == l then s else LookUp(y, g, l')
  {
    assert LocAt(g, l) && LocAt(g, l');
  }

  /** Ids and live slots point at each other, except that the slots in `stale` are live and no
      longer anybody's. */
  ghost predicate MapsExcept(y: Layout, m: map<nat, nat>, g: Geometry, stale: seq<nat>) {
    && (forall l :: LookUp(y, g, l).Live? && l !in stale ==> LookUp(y, g, l).id in m && m[LookUp(y, g, l).id] == l)
    && (forall id :: id in m ==> LookUp(y, g, m[id]) == Live(id) && m[id] !in stale)
    && (forall l :: l in stale ==> LookUp(y, g, l).Live?)
    && Distinct(stale)
  }

  lemma MapsByLoc(y: Layout, m: map<nat, nat>, g: Geometry, f: nat, gap: set<nat>)
    requires Sound(g) && RowsOk(y, g.npp, f, gap)
    ensures MapsOk(y, m, g) <==> MapsExcept(y, m, g, [])
  {
    if MapsOk(y, m, g) {
      forall l: nat | LookUp(y, g, l).Live? ensures LookUp(y, g, l).id in m && m[LookUp(y, g, l).id] == l {
        assert LocAt(g, l);
      }
    }
    if MapsExcept(y, m, g, []) {
      forall p: nat, o: nat | p in y && o < |y[p]| && y[p][o].Live?
        ensures g.loc.requires(p, o) && y[p][o].id in m && m[y[p][o].id] == g.loc(p, o)
      {
        assert PairAt(g, p, o);
        assert LookUp(y, g, g.loc(p, o)) == y[p][o];
      }
      forall id | id in m ensures IsAt(y, g, m[id], Live(id)) {
        assert LookUp(y, g, m[id]) == Live(id);
      }
    }
  }
}
