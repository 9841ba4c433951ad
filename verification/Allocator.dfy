/**
  The page and slot allocator of the disk index (include/ssd_index.h): `alloc_loc`,
  `alloc_loc_compact`, `erase_and_set_loc` and the maps they keep.  An allocation and the change
  of the slot table by a commit are sections under `alloc_lock`; a commit points its ids at the
  new locations before, so sections of other threads may come in between.
 */
module Allocator {
  import opened Basics
  import opened Commit
  import opened PageLayout
  import opened Recovery
  import opened SlotOrder

  class PageAllocator {
    const g: Geometry
    const threshold: nat          // holes a hinted page must have to be worth filling
    const firstUsable: nat        // pages below are left alone (0 unless the original is kept)
    var layout: Layout
    var emptyPages: seq<nat>
    var curLoc: nat
    var id2loc: map<nat, nat>

    ghost var settled: map<nat, nat>      // the id map without the commits in progress
    ghost var flights: set<Flight>
    ghost var missing: set<nat>           // pages below the frontier that were not rebuilt

    /** What allocation rests on; the id map does not matter. */
    ghost predicate LayoutOk()
      reads this`layout, this`emptyPages, this`curLoc, this`missing
    {
      && Sound(g) && 1 <= threshold <= g.npp
      && g.off(curLoc) == 0
      && RowsOk(layout, g.npp, g.page(curLoc), missing)
      && QueueOk(emptyPages, layout)
    }

    /** The number of slots that a request for none reserves. */
    ghost function Surplus(hints: seq<nat>, compact: bool): nat
      reads this
    {
      SumHoles(layout, Reach(layout, emptyPages, hints, firstUsable, threshold, compact))
    }

    /** The locations that a request for n slots returns. */
    ghost function Answer(n: nat, hints: seq<nat>, compact: bool): seq<nat>
      reads this`layout, this`emptyPages, this`curLoc
    {
      FirstOf(g, OldSlots(layout, emptyPages, hints, firstUsable, threshold, compact), curLoc, n)
    }

    /** What keeps records from being overwritten, even if pages are missing. */
    ghost predicate Guarded()
      reads this
    {
      && LayoutOk() && Guards(layout, settled, g, missing, [])
      && FlightsOk(layout, g, settled, id2loc, flights)
    }

    /** verify_id2loc, up to the commits in progress, and what it rests on. */
    ghost predicate Valid()
      reads this
    {
      Guarded() && missing == {} && MapsOk(layout, settled, g)
    }

    /** The equal mapping of a freshly built index: id i lives at location i, the rest of the last
        page is free, and the frontier is the next page. */
    constructor Equal(npp: nat, threshold: nat, firstUsable: nat, n: nat)
      requires 1 <= threshold <= npp
      ensures Valid() && g == Sectors(npp) && this.threshold == threshold && this.firstUsable == firstUsable && flights == {}
      ensures IsIdentity(id2loc, n) && forall l: nat :: EqualAt(layout, g, n, l)
      ensures emptyPages == [] && n <= curLoc < n + npp
    {
      var cur: nat := n;
      SectorsSound(npp);
      if n % npp != 0 {
        AlignedUp(Sectors(npp), n);
        cur := n + (npp - n % npp);
      }
      var ids := Identity(n);
      var pages := EqualLayout(npp, n, cur);
      EqualMaps(pages, ids, Sectors(npp), n);
      MapsByLoc(pages, ids, Sectors(npp), PageOf(cur, npp), {});
      MapsGuard(pages, ids, Sectors(npp), []);
      NoFlightsOk(pages, Sectors(npp), ids);
      g, this.threshold, this.firstUsable := Sectors(npp), threshold, firstUsable;
      curLoc, emptyPages, layout, id2loc := cur, [], pages, ids;
      settled, flights, missing := ids, {}, {};
    }

    /** Rebuilding from the persistent id2loc array.  Pages are rebuilt for as many locations as
        there are ids, while the frontier lies beyond the largest location; the allocator's
        invariant holds afterwards exactly if no two ids share a location and these agree.  The
        weaker one only needs that no two ids share a location. */
    constructor Recovered(npp: nat, threshold: nat, firstUsable: nat, file: seq<nat>)
      requires 1 <= threshold <= npp
      ensures id2loc == Loaded(file) && g == Sectors(npp) && this.threshold == threshold && this.firstUsable == firstUsable
      ensures flights == {} && emptyPages == [] && MaxLoc(file) < curLoc <= MaxLoc(file) + npp
      ensures forall l :: !LookUp(layout, g, l).Allocated?
      ensures Guarded() <==> Injective(id2loc)
      ensures Valid() <==> Injective(id2loc) && PagesFor(|id2loc|, npp) == PageOf(MaxLoc(file), npp)
    {
      var ids, loc2id, numPoints, maxLoc, maxId := LoadIds(file);
      var cur: nat := maxLoc + 1;
      if cur % npp != 0 {
        cur := cur + (npp - cur % npp);
      }
      g, this.threshold, this.firstUsable := Sectors(npp), threshold, firstUsable;
      var numSectors := PagesFor(numPoints, npp);
      var pages := RestorePages(npp, loc2id, numSectors);
      curLoc, emptyPages, layout, id2loc := cur, [], pages, ids;
      settled, flights, missing := ids, {}, Unbuilt(numSectors, PageOf(maxLoc, npp));
      new;
      NoFlightsOk(layout, g, id2loc);
      RestoredGuarded(this, npp, loc2id, numSectors, maxLoc);
      RestoredValid(this, npp, loc2id, numSectors, maxLoc);
      NoneAllocated(layout, npp, loc2id, numSectors);
    }

    /** Allocates free slots of one page, in order, until `max` are found. */
    method FillPage(p: nat, max: nat) returns (locs: seq<nat>, ghost taken: seq<Pos>)
      requires Sound(g) && p > 0 && p in layout && |layout[p]| == g.npp && max > 0
      modifies this`layout
      ensures layout.Keys == old(layout).Keys && Took(old(layout), layout, taken) && LocsAre(g, locs, taken)
      ensures |taken| <= max && forall i :: 0 <= i < |taken| ==> taken[i].page == p
      ensures |taken| < max ==> NoneFree(layout[p])
      ensures taken == [] ==> NoneFree(old(layout)[p])
      ensures taken == Cut(FreeSlots(p, old(layout)[p]), max)
    {
      ghost var y := layout;
      var row;
      row, locs, taken := FillRow(g, p, layout[p], max);
      layout := layout[p := row];
      FilledTook(y, layout, p, row, max);
    }

    /** Takes slots of one more page that has a hole, up to n in all since the layout was y0. */
    method TakePage(p: nat, n: nat, locs0: seq<nat>, ghost y0: Layout, ghost taken0: seq<Pos>)
      returns (locs: seq<nat>, ghost taken: seq<Pos>)
      requires Sound(g) && p > 0 && p in layout && |layout[p]| == g.npp && !NoneFree(layout[p])
      requires Progress(y0, layout, g, locs0, taken0) && FullPages(layout, taken0) && |locs0| < n
      modifies this`layout
      ensures Progress(y0, layout, g, locs, taken) && |locs0| < |locs| <= n
      ensures |locs| < n ==> FullPages(layout, taken)
      ensures PagesOf(taken) == PagesOf(taken0) + {p} && taken0 <= taken
      ensures forall q :: q in layout && q != p ==> layout[q] == old(layout)[q]
      ensures Occupied(y0, taken) == Occupied(y0, taken0) + if AllFree(old(layout)[p]) then {} else {p}
      ensures p in y0 && taken == taken0 + Cut(FreeSlots(p, y0[p]), n - |taken0|)
    {
      ghost var y := layout;
      var more;
      ghost var t;
      more, t := FillPage(p, n - |locs0|);
      PageTaken(y0, y, layout, g, p, n, locs0, taken0, more, t);
      locs, taken := locs0 + more, taken0 + t;
    }

    /** Rule 1: whole empty pages from the queue.  A queued page is always wholly free, so the
        code's crash on a non-empty one is never reached. */
    method TakeEmpty(n: nat) returns (locs: seq<nat>, ghost taken: seq<Pos>)
      requires LayoutOk() && n > 0
      modifies this`layout, this`emptyPages
      ensures Progress(old(layout), layout, g, locs, taken) && |locs| <= n
      ensures QueueOk(emptyPages, layout)
      ensures Occupied(old(layout), taken) == {}
      ensures |locs| < n ==> emptyPages == [] && FullPages(layout, taken)
      ensures |locs| < n ==> PagesOf(taken) == Usable(old(emptyPages), firstUsable)
      ensures PagesOf(taken) <= Usable(old(emptyPages), firstUsable)
      ensures taken == Cut(QueueSlots(old(layout), old(emptyPages), firstUsable), n)
    {
      ghost var y0, q := layout, emptyPages;
      locs, taken := [], [];
      TookNothing(y0);
      assert [] + QueueSlots(y0, q, firstUsable) == QueueSlots(y0, q, firstUsable);
      while emptyPages != [] && |locs| < n
        invariant Queued(y0, layout, g, q, emptyPages, firstUsable, n, locs, taken)
        decreases |emptyPages|
      {
        locs, taken := TakeQueued(n, locs, y0, q, taken);
      }
      CutDone(taken, QueueSlots(y0, emptyPages, firstUsable), n);
    }

    method TakeQueued(n: nat, locs0: seq<nat>, ghost y0: Layout, ghost q: seq<nat>, ghost taken0: seq<Pos>)
      returns (locs: seq<nat>, ghost taken: seq<Pos>)
      requires Sound(g) && g.npp > 0 && (forall p :: p in layout ==> p > 0 && |layout[p]| == g.npp) && emptyPages != [] && |locs0| < n
      requires Queued(y0, layout, g, q, emptyPages, firstUsable, n, locs0, taken0)
      modifies this`layout, this`emptyPages
      ensures Queued(y0, layout, g, q, emptyPages, firstUsable, n, locs, taken) && |emptyPages| < |old(emptyPages)|
      ensures forall p :: p in layout ==> p > 0 && |layout[p]| == g.npp
    {
      locs, taken := locs0, taken0;
      var p: nat := emptyPages[0];
      assert AllFree(layout[p]);                      // otherwise the code crashes
      ghost var y, rest := layout, emptyPages;
      emptyPages := emptyPages[1..];
      if p >= firstUsable {
        assert layout[p][0].Free?;
        locs, taken := TakePage(p, n, locs, y0, taken);
        QueueRest(emptyPages, y, layout, p);
        QueuedTook(y0, y, layout, g, q, rest, firstUsable, n, locs0, taken0, locs, taken);
      } else {
        QueuedSkip(y0, layout, g, q, rest, firstUsable, n, locs, taken);
      }
    }

    method CountHoles(p: nat) returns (cnt: nat)
      requires p in layout
      ensures cnt == Holes(layout[p])
    {
      cnt := 0;
      var row, o := layout[p], 0;
      while o < |row|
        invariant 0 <= o <= |row| && cnt == Holes(row[..o])
      {
        assert row[..o + 1][..o] == row[..o];
        if row[o].Free? {
          cnt := cnt + 1;
        }
        o := o + 1;
      }
      assert row[..o] == row;
    }

    /** One hinted page.  With `compact` every hole counts and every scanned page is put on the read
        list; otherwise a page needs `threshold` holes. */
    method TakeHint(p: nat, bound: nat, compact: bool, locs0: seq<nat>, toRead0: set<nat>, ghost y0: Layout, ghost taken0: seq<Pos>)
      returns (locs: seq<nat>, toRead: set<nat>, ghost taken: seq<Pos>)
      requires Sound(g) && 1 <= threshold && (forall q :: q in layout ==> q > 0 && |layout[q]| == g.npp)
      requires Hinted(y0, layout, g, locs0, taken0, toRead0, compact, bound) && |locs0| < bound
      modifies this`layout
      ensures Hinted(y0, layout, g, locs, taken, toRead, compact, bound) && |locs0| <= |locs|
      ensures forall q :: q in layout ==> q > 0 && |layout[q]| == g.npp
      ensures layout.Keys == old(layout).Keys && (forall q :: q in layout && q != p ==> layout[q] == old(layout)[q]) && taken0 <= taken
      ensures if Gives(old(layout), p, threshold, compact) then PagesOf(taken) == PagesOf(taken0) + {p}
              else taken == taken0 && layout == old(layout)
      ensures Gives(old(layout), p, threshold, compact) ==> p in y0 && taken == taken0 + Cut(FreeSlots(p, y0[p]), bound - |taken0|)
    {
      locs, toRead, taken := locs0, toRead0, taken0;
      if p in layout {
        var cnt := CountHoles(p);
        HolesMean(layout[p]);
        if compact || cnt >= threshold {
          if cnt < g.npp {
            toRead := toRead + {p};
          }
          if cnt > 0 {
            locs, taken := TakePage(p, bound, locs, y0, taken);
          }
        }
      }
    }

    /** Rule 2: holes of hinted pages. */
    method TakeHints(n: nat, hints: seq<nat>, compact: bool, locs0: seq<nat>, ghost y0: Layout, ghost taken0: seq<Pos>)
      returns (locs: seq<nat>, toRead: set<nat>, ghost taken: seq<Pos>)
      requires Sound(g) && 1 <= threshold && (forall p :: p in layout ==> p > 0 && |layout[p]| == g.npp)
      requires Progress(y0, layout, g, locs0, taken0) && FullPages(layout, taken0) && |locs0| < n
      requires Occupied(y0, taken0) == {}
      modifies this`layout
      ensures Hinted(y0, layout, g, locs, taken, toRead, compact, n) && taken0 <= taken
      ensures taken == Cut(taken0 + HintSlots(y0, hints, firstUsable, threshold, compact, PagesOf(taken0)), n)
    {
      locs, toRead, taken := locs0, {}, taken0;
      ghost var all := Cut(taken0 + HintSlots(y0, hints, firstUsable, threshold, compact, PagesOf(taken0)), n);
      assert hints[0..] == hints;
      var i := 0;
      while i < |hints| && |locs| < n
        invariant 0 <= i <= |hints| && taken0 <= taken
        invariant Hinted(y0, layout, g, locs, taken, toRead, compact, n)
        invariant forall p :: p in layout ==> p > 0 && |layout[p]| == g.npp
        invariant Cut(taken + HintSlots(y0, hints[i..], firstUsable, threshold, compact, PagesOf(taken)), n) == all
      {
        locs, toRead, taken := TakeNextHint(n, hints, i, compact, locs, toRead, y0, taken);
        i := i + 1;
      }
      CutDone(taken, HintSlots(y0, hints[i..], firstUsable, threshold, compact, PagesOf(taken)), n);
    }

    method TakeNextHint(n: nat, hints: seq<nat>, i: nat, compact: bool, locs0: seq<nat>, toRead0: set<nat>, ghost y0: Layout, ghost taken0: seq<Pos>)
      returns (locs: seq<nat>, toRead: set<nat>, ghost taken: seq<Pos>)
      requires Sound(g) && 1 <= threshold && (forall p :: p in layout ==> p > 0 && |layout[p]| == g.npp) && i < |hints|
      requires Hinted(y0, layout, g, locs0, taken0, toRead0, compact, n) && |locs0| < n
      modifies this`layout
      ensures Hinted(y0, layout, g, locs, taken, toRead, compact, n) && taken0 <= taken
      ensures forall p :: p in layout ==> p > 0 && |layout[p]| == g.npp
      ensures Cut(taken + HintSlots(y0, hints[i + 1..], firstUsable, threshold, compact, PagesOf(taken)), n)
           == Cut(taken0 + HintSlots(y0, hints[i..], firstUsable, threshold, compact, PagesOf(taken0)), n)
    {
      locs, toRead, taken := locs0, toRead0, taken0;
      HintStep(y0, layout, hints[i..], firstUsable, threshold, compact, taken, n);
      assert hints[i..][1..] == hints[i + 1..];
      if hints[i] >= firstUsable {
        locs, toRead, taken := TakeHint(hints[i], n, compact, locs, toRead, y0, taken);
      }
    }

    /** Rule 2 for a request of no slots: the loop ends only at a hint after which there are still
        none.  `bound` is a number that is never reached. */
    method TakeAllHints(bound: nat, hints: seq<nat>, compact: bool, locs0: seq<nat>, ghost y0: Layout, ghost taken0: seq<Pos>)
      returns (locs: seq<nat>, toRead: set<nat>, ghost taken: seq<Pos>)
      requires Sound(g) && 1 <= threshold && (forall p :: p in layout ==> p > 0 && |layout[p]| == g.npp)
      requires Progress(y0, layout, g, locs0, taken0) && FullPages(layout, taken0) && |locs0| < bound
      requires Occupied(y0, taken0) == {}
      modifies this`layout
      ensures Hinted(y0, layout, g, locs, taken, toRead, compact, bound)
      ensures |locs| < bound ==> PagesOf(taken) == Scan(old(layout), hints, firstUsable, threshold, compact, PagesOf(taken0))
    {
      locs, toRead, taken := locs0, {}, taken0;
      ghost var y1 := layout;
      ghost var scan := Scan(y1, hints, firstUsable, threshold, compact, PagesOf(taken0));
      FullMeans(layout, taken0);
      var i, stop := 0, false;
      while i < |hints| && |locs| < bound && !stop
        invariant 0 <= i <= |hints|
        invariant Hinted(y0, layout, g, locs, taken, toRead, compact, bound)
        invariant forall p :: p in layout ==> p > 0 && |layout[p]| == g.npp
        invariant |locs| < bound ==> Scanned(y1, layout, hints, firstUsable, threshold, compact, PagesOf(taken), i, stop, scan)
      {
        locs, toRead, stop, taken := ScanHint(bound, hints, i, compact, locs, toRead, y0, y1, taken, scan);
        i := i + 1;
      }
    }

    method ScanHint(bound: nat, hints: seq<nat>, i: nat, compact: bool, locs0: seq<nat>, toRead0: set<nat>, ghost y0: Layout,
                    ghost y1: Layout, ghost taken0: seq<Pos>, ghost scan: set<nat>)
      returns (locs: seq<nat>, toRead: set<nat>, stop: bool, ghost taken: seq<Pos>)
      requires Sound(g) && 1 <= threshold && (forall q :: q in layout ==> q > 0 && |layout[q]| == g.npp) && i < |hints|
      requires Hinted(y0, layout, g, locs0, taken0, toRead0, compact, bound) && |locs0| < bound
      requires Scanned(y1, layout, hints, firstUsable, threshold, compact, PagesOf(taken0), i, false, scan)
      modifies this`layout
      ensures forall q :: q in layout ==> q > 0 && |layout[q]| == g.npp
      ensures Hinted(y0, layout, g, locs, taken, toRead, compact, bound)
      ensures |locs| < bound ==> Scanned(y1, layout, hints, firstUsable, threshold, compact, PagesOf(taken), i + 1, stop, scan)
    {
      ghost var y := layout;
      locs, toRead, stop, taken := locs0, toRead0, false, taken0;
      if hints[i] >= firstUsable {
        locs, toRead, taken := TakeHint(hints[i], bound, compact, locs, toRead, y0, taken);
        stop := |locs| == 0;
      }
      if |locs| < bound {
        FullMeans(layout, taken);
        ScanStep(y1, y, layout, hints, firstUsable, threshold, compact, PagesOf(taken0), PagesOf(taken), i, stop, scan);
      }
    }

    /** set_loc2id: opens a page that does not exist yet with free slots, then sets the slot. */
    method SetLoc2Id(l: nat, s: Slot)
      requires Sound(g) && (g.page(l) in layout ==> |layout[g.page(l)]| == g.npp)
      modifies this`layout
      ensures layout == Put(Opened(old(layout), g, l), g.page(l), g.off(l), s)
    {
      var p := g.page(l);
      assert LocAt(g, l);
      if p !in layout {
        layout := layout[p := seq(g.npp, _ => Free)];
      }
      layout := layout[p := layout[p][g.off(l) := s]];
    }

    /** Rule 3: new space at the frontier, which then moves on to a page boundary. */
    method TakeNew(k: nat, locs0: seq<nat>, ghost y0: Layout, ghost taken0: seq<Pos>)
      returns (locs: seq<nat>, ghost taken: seq<Pos>)
      requires Sound(g) && g.off(curLoc) == 0 && RowsOk(layout, g.npp, g.page(curLoc), missing) && y0.Keys == layout.Keys
      requires Took(y0, layout, taken0) && LocsAre(g, locs0, taken0)
      modifies this`layout, this`curLoc
      ensures g.off(curLoc) == 0 && RowsOk(layout, g.npp, g.page(curLoc), missing) && old(curLoc) + k <= curLoc < old(curLoc) + k + g.npp
      ensures Took(y0, layout, taken) && LocsAre(g, locs, taken)
      ensures Extends(locs, locs0, old(curLoc), k)
      ensures Occupied(y0, taken) == Occupied(y0, taken0) && taken0 <= taken
    {
      locs, taken := locs0, taken0;
      var i, l: nat := 0, curLoc;
      while i < k
        invariant 0 <= i <= k && l == curLoc + i && curLoc == old(curLoc)
        invariant Fresh(y0, layout, g, l, locs, taken, missing) && Extends(locs, locs0, curLoc, i)
        invariant Occupied(y0, taken) == Occupied(y0, taken0) && taken0 <= taken
      {
        NextTaken(y0, layout, g, l, locs, taken, missing);
        SetLoc2Id(l, Allocated);
        ExtendsMore(locs, locs0, curLoc, i);
        taken := taken + [Pos(g.page(l), g.off(l))];
        locs := locs + [l];
        i, l := i + 1, l + 1;
      }
      RoundUp(layout, g, l, missing);
      if g.off(l) != 0 {
        l := l + (g.npp - g.off(l));
      }
      curLoc := l;
    }

    /** alloc_loc and alloc_loc_compact.  For n > 0: the first n locations in order of queue, hints and
        frontier, which are distinct, each free or beyond the frontier before and allocated after;
        every other slot and all ids keep their place.  For alloc_loc the pages to read are exactly those that already had an occupant.
        For n == 0 all the queued pages that may be used are taken and, unless there is none and the
        first hint gives nothing, all holes of hinted pages.  The frontier then moves back by the
        whole pages among them: the invariant survives exactly if they have fewer holes than a page
        has slots. */
    method AllocLoc(n: nat, hints: seq<nat>, compact: bool) returns (locs: seq<nat>, toRead: set<nat>, ghost taken: seq<Pos>)
      requires LayoutOk()
      modifies this`layout, this`emptyPages, this`curLoc
      ensures Distinct(locs) && LocsAre(g, locs, taken) && Took(old(layout), layout, taken)
      ensures n > 0 ==> LayoutOk() && |locs| == n && (old(Guarded()) ==> Guarded()) && (old(Valid()) ==> Valid())
      ensures n > 0 ==> old(curLoc) <= curLoc < old(curLoc) + n + g.npp
      ensures n > 0 ==> locs == old(Answer(n, hints, compact))
      ensures if compact then toRead >= Occupied(old(layout), taken) else toRead == Occupied(old(layout), taken)
      ensures n == 0 ==> g.page(curLoc) + WholePages(|locs|, g.npp) == old(g.page(curLoc))
      ensures n == 0 ==> |locs| == old(Surplus(hints, compact)) && (LayoutOk() <==> old(Surplus(hints, compact)) < g.npp)
      ensures n == 0 && old(Guarded()) ==> (Guarded() <==> old(Surplus(hints, compact)) < g.npp)
      ensures n == 0 && old(Valid()) ==> (Valid() <==> old(Surplus(hints, compact)) < g.npp)
    {
      if n == 0 {
        locs, toRead, taken := AllocNone(hints, compact);
        return;
      }
      ghost var y0 := layout;
      locs, toRead, taken := TakeSlots(n, hints, compact);
      AllocKeeps(y0, layout, taken, g, g.page(curLoc), locs, settled, id2loc, flights, missing);
    }

    /** The three rules in turn. */
    method TakeSlots(n: nat, hints: seq<nat>, compact: bool) returns (locs: seq<nat>, toRead: set<nat>, ghost taken: seq<Pos>)
      requires LayoutOk() && n > 0
      modifies this`layout, this`emptyPages, this`curLoc
      ensures LocsAre(g, locs, taken) && Took(old(layout), layout, taken) && |locs| == n
      ensures LayoutOk() && old(curLoc) <= curLoc < old(curLoc) + n + g.npp
      ensures locs == old(Answer(n, hints, compact))
      ensures if compact then toRead >= Occupied(old(layout), taken) else toRead == Occupied(old(layout), taken)
    {
      ghost var y0, slots := layout, OldSlots(layout, emptyPages, hints, firstUsable, threshold, compact);
      locs, toRead, taken := TakeOld(n, hints, compact);
      ghost var locs1, taken1, cur := locs, taken, curLoc;
      if |locs| < n {
        locs, taken := TakeNew(n - |locs|, locs, y0, taken);
      }
      AnswerIs(g, slots, locs1, taken1, locs, cur, n);
    }

    /** Rules 1 and 2. */
    method TakeOld(n: nat, hints: seq<nat>, compact: bool) returns (locs: seq<nat>, toRead: set<nat>, ghost taken: seq<Pos>)
      requires LayoutOk() && n > 0
      modifies this`layout, this`emptyPages
      ensures LayoutOk() && Progress(old(layout), layout, g, locs, taken)
      ensures taken == Cut(OldSlots(old(layout), old(emptyPages), hints, firstUsable, threshold, compact), n)
      ensures |locs| < n ==> emptyPages == []
      ensures if compact then toRead >= Occupied(old(layout), taken) else toRead == Occupied(old(layout), taken)
    {
      ghost var y0, q := layout, emptyPages;
      toRead := {};
      locs, taken := TakeEmpty(n);
      ghost var queued := taken;
      RowsKept(y0, layout, taken, g.npp, g.page(curLoc), missing);
      if |locs| < n {
        locs, toRead, taken := TakeHints(n, hints, compact, locs, y0, taken);
        RowsKept(y0, layout, taken, g.npp, g.page(curLoc), missing);
      }
      OldTaken(y0, q, hints, firstUsable, threshold, compact, queued, taken, n);
    }

    /** The same code for n == 0.  No more slots exist than there are locations before the frontier,
        so a larger bound is never reached. */
    method AllocNone(hints: seq<nat>, compact: bool) returns (locs: seq<nat>, toRead: set<nat>, ghost taken: seq<Pos>)
      requires LayoutOk()
      modifies this`layout, this`emptyPages, this`curLoc
      ensures Distinct(locs) && LocsAre(g, locs, taken) && Took(old(layout), layout, taken)
      ensures if compact then toRead >= Occupied(old(layout), taken) else toRead == Occupied(old(layout), taken)
      ensures g.page(curLoc) + WholePages(|locs|, g.npp) == old(g.page(curLoc))
      ensures |locs| == old(Surplus(hints, compact))
      ensures LayoutOk() <==> |locs| < g.npp
      ensures old(Guarded()) ==> (Guarded() <==> |locs| < g.npp)
      ensures old(Valid()) ==> (Valid() <==> |locs| < g.npp)
    {
      locs, toRead, taken := ReserveAll(hints, compact);
      StepBack(g, curLoc, |locs|);
      var l := curLoc - |locs|;
      if g.off(l) != 0 {
        l := l + (g.npp - g.off(l));
      }
      assert LocAt(g, l);
      RowsMoved(layout, g.npp, g.page(curLoc), g.page(l), missing);
      curLoc := l;
    }

    /** Rules 1 and 2 without a bound. */
    method ReserveAll(hints: seq<nat>, compact: bool) returns (locs: seq<nat>, toRead: set<nat>, ghost taken: seq<Pos>)
      requires LayoutOk()
      modifies this`layout, this`emptyPages
      ensures LayoutOk() && (old(Guarded()) ==> Guarded()) && (old(Valid()) ==> Valid()) && |locs| <= curLoc
      ensures Distinct(locs) && LocsAre(g, locs, taken) && Took(old(layout), layout, taken)
      ensures if compact then toRead >= Occupied(old(layout), taken) else toRead == Occupied(old(layout), taken)
      ensures |locs| == old(Surplus(hints, compact))
    {
      ghost var y0, q := layout, emptyPages;
      var bound := curLoc + 1;
      locs, taken := TakeEmpty(bound);
      FoundBound(y0, layout, g, curLoc, locs, taken, missing);
      RowsKept(y0, layout, taken, g.npp, g.page(curLoc), missing);
      locs, toRead, taken := ReserveHinted(bound, hints, compact, locs, y0, q, taken);
    }

    method ReserveHinted(bound: nat, hints: seq<nat>, compact: bool, locs0: seq<nat>, ghost y0: Layout, ghost q: seq<nat>, ghost taken0: seq<Pos>)
      returns (locs: seq<nat>, toRead: set<nat>, ghost taken: seq<Pos>)
      requires LayoutOk() && RowsOk(y0, g.npp, g.page(curLoc), missing) && bound == curLoc + 1
      requires Progress(y0, layout, g, locs0, taken0) && FullPages(layout, taken0) && |locs0| < bound
      requires Occupied(y0, taken0) == {} && PagesOf(taken0) == Usable(q, firstUsable) && emptyPages == []
      modifies this`layout
      ensures LayoutOk() && |locs| <= curLoc && Distinct(locs) && LocsAre(g, locs, taken) && Took(y0, layout, taken)
      ensures MapsOk(y0, settled, g) ==> MapsOk(layout, settled, g)
      ensures Guards(y0, settled, g, missing, []) ==> Guards(layout, settled, g, missing, [])
      ensures FlightsOk(y0, g, settled, id2loc, flights) ==> FlightsOk(layout, g, settled, id2loc, flights)
      ensures if compact then toRead >= Occupied(y0, taken) else toRead == Occupied(y0, taken)
      ensures |locs| == SumHoles(y0, Reach(y0, q, hints, firstUsable, threshold, compact))
    {
      ghost var y1 := layout;
      locs, toRead, taken := TakeAllHints(bound, hints, compact, locs0, y0, taken0);
      FoundBound(y0, layout, g, curLoc, locs, taken, missing);
      RowsKept(y0, layout, taken, g.npp, g.page(curLoc), missing);
      SurplusIs(y0, y1, layout, taken0, taken, q, hints, firstUsable, threshold, compact);
      AllocKeeps(y0, layout, taken, g, g.page(curLoc), locs, settled, id2loc, flights, missing);
    }

    /** erase_loc2id: frees the slot, and queues its page once nothing is left on it.  A page that is
        not in the table is entered with zeros first, and then has id 0 in its other slots. */
    method EraseLoc2Id(l: nat)
      requires Sound(g) && RowsOk(layout, g.npp, g.page(curLoc), missing) && Taken(layout, g, missing, l) && QueueOk(emptyPages, layout)
      modifies this`layout, this`emptyPages, this`missing
      ensures layout == Erased(old(layout), g, l) && missing == old(missing) - {g.page(l)}
      ensures QueueOk(emptyPages, layout) && g.page(l) in layout
      ensures emptyPages == old(emptyPages) + if AllFree(layout[g.page(l)]) then [g.page(l)] else []
    {
      var p, o := g.page(l), g.off(l);
      assert LocAt(g, l);
      if p !in layout {
        layout, missing := layout[p := seq(g.npp, _ => Live(0))], missing - {p};
      }
      ghost var y0 := layout;
      var row := layout[p][o := Free];
      var empty := IsEmpty(row);
      layout := layout[p := row];
      QueueWithout(emptyPages, y0, p, o, Free);
      if empty {
        emptyPages := emptyPages + [p];
      }
    }

    /** One step of the id2loc loop of an update, which runs outside the allocator's lock: the id now
        points at its new location, and the location it had is to be erased.  Other threads'
        sections may run before and after it. */
    method PointOne(id: nat, l: nat, ghost f: Flight) returns (orig: seq<nat>, ghost f': Flight)
      requires FlightsOk(layout, g, settled, id2loc, flights) && f in flights && LookUp(layout, g, l).Allocated?
      requires !Flying(flights - {f}, id) && forall e :: e in flights ==> l !in e.locs
      modifies this`id2loc, this`flights
      ensures FlightsOk(layout, g, settled, id2loc, flights) && (old(Guarded()) ==> Guarded()) && (old(Valid()) ==> Valid())
      ensures id2loc == old(id2loc)[id := l] && f' == Flight(f.ids + [id], f.locs + [l], f.origs + orig)
      ensures flights == old(flights) - {f} + {f'}
    {
      FlightGrows(layout, g, settled, id2loc, flights, f, id, l);
      f' := Grown(f, id2loc, id, l);
      orig := if id in id2loc then [id2loc[id]] else [];
      id2loc := id2loc[id := l];
      flights := flights - {f} + {f'};
    }

    /** The loop without other threads in between. */
    method PointAt(ids: seq<nat>, locs: seq<nat>) returns (origs: seq<nat>)
      requires Guarded() && |ids| == |locs| && Distinct(locs) && AllocatedAll(layout, g, locs) && flights == {}
      modifies this`id2loc, this`flights
      ensures Guarded() && (old(Valid()) ==> Valid()) && id2loc == Moved(old(id2loc), ids, locs) && flights == {Flight(ids, locs, origs)}
    {
      origs := [];
      ghost var f := EMPTY;
      EmptyFlight(layout, g, settled, id2loc, flights);
      flights := flights + {f};
      var i := 0;
      while i < |ids|
        invariant 0 <= i <= |ids| && FlightsOk(layout, g, settled, id2loc, flights) && flights == {f}
        invariant f == Flight(ids[..i], locs[..i], origs)
        invariant id2loc == Moved(old(id2loc), ids[..i], locs[..i])
      {
        origs, f := PointNext(ids, locs, i, origs, f, old(id2loc));
        i := i + 1;
      }
      assert ids[..i] == ids && locs[..i] == locs;
    }

    method PointNext(ids: seq<nat>, locs: seq<nat>, i: nat, origs0: seq<nat>, ghost f0: Flight, ghost m: map<nat, nat>)
      returns (origs: seq<nat>, ghost f: Flight)
      requires FlightsOk(layout, g, settled, id2loc, flights) && flights == {f0} && i < |ids| == |locs| && Distinct(locs)
      requires f0 == Flight(ids[..i], locs[..i], origs0) && id2loc == Moved(m, ids[..i], locs[..i]) && AllocatedAll(layout, g, locs)
      modifies this`id2loc, this`flights
      ensures FlightsOk(layout, g, settled, id2loc, flights) && flights == {f}
      ensures f == Flight(ids[..i + 1], locs[..i + 1], origs) && id2loc == Moved(m, ids[..i + 1], locs[..i + 1])
    {
      assert ids[..i + 1] == ids[..i] + [ids[i]] && locs[..i + 1] == locs[..i] + [locs[i]];
      MovedSnoc(m, ids[..i], locs[..i], ids[i], locs[i]);
      assert locs[i] in locs && flights - {f0} == {};
      var orig;
      orig, f := PointOne(ids[i], locs[i], f0);
      origs := origs0 + orig;
    }

    /** erase_and_set_loc, first half. */
    method SetAll(ids: seq<nat>, locs: seq<nat>)
      requires Sound(g) && |ids| == |locs| && Distinct(locs) && RowsOk(layout, g.npp, g.page(curLoc), missing) && QueueOk(emptyPages, layout)
      requires AllocatedAll(layout, g, locs)
      modifies this`layout
      ensures AllSet(old(layout), layout, g, ids, locs)
      ensures RowsOk(layout, g.npp, g.page(curLoc), missing) && QueueOk(emptyPages, layout)
    {
      ghost var y0 := layout;
      var i := 0;
      while i < |locs|
        invariant 0 <= i <= |locs|
        invariant AllSet(y0, layout, g, ids[..i], locs[..i]) && AllocatedAll(layout, g, locs[i..])
        invariant RowsOk(layout, g.npp, g.page(curLoc), missing) && QueueOk(emptyPages, layout)
      {
        var l := locs[i];
        assert l == locs[i..][0];
        SetStep(y0, layout, g, ids, locs, i);
        QueueWithout(emptyPages, layout, g.page(l), g.off(l), Live(ids[i]));
        SetLoc2Id(l, Live(ids[i]));
        i := i + 1;
      }
      assert ids[..i] == ids && locs[..i] == locs;
    }

    /** Both halves of erase_and_set_loc. */
    method MoveSlots(ghost f: Flight, ids: seq<nat>, locs: seq<nat>, origs: seq<nat>)
      requires Guarded() && f == Flight(ids, locs, origs) && f in flights
      modifies this`layout, this`emptyPages, this`missing
      ensures LayoutOk() && |ids| == |locs| && Guards(layout, Moved(settled, ids, locs), g, missing, []) && missing <= old(missing)
      ensures old(missing) == {} && MapsOk(old(layout), settled, g) ==> MapsOk(layout, Moved(settled, ids, locs), g)
      ensures forall l :: LookUp(layout, g, l).Allocated? <==> LookUp(old(layout), g, l).Allocated? && l !in locs
      ensures Emptied(old(layout), layout, emptyPages)
    {
      ghost var y0, gap := layout, missing;
      assert FlightOk(layout, g, settled, id2loc, f);
      SetAll(ids, locs);
      SetGuards(y0, layout, g, g.page(curLoc), gap, settled, ids, locs);
      ghost var y1 := layout;
      EraseAll(origs, Moved(settled, ids, locs));
      SetAndErased(y0, y1, layout, g, settled, ids, locs, g.page(curLoc), emptyPages, gap, missing);
    }

    /** erase_and_set_loc for a commit in progress, whatever sections of other threads ran since its
        ids were pointed: the new locations become live, the old ones free, and pages left empty
        are queued. */
    method EraseAndSet(ids: seq<nat>, locs: seq<nat>, origs: seq<nat>)
      requires Guarded() && Flight(ids, locs, origs) in flights
      modifies this`layout, this`emptyPages, this`settled, this`flights, this`missing
      ensures Guarded() && (old(Valid()) ==> Valid()) && |ids| == |locs|
      ensures settled == Moved(old(settled), ids, locs) && flights == old(flights) - {Flight(ids, locs, origs)}
      ensures forall l :: LookUp(layout, g, l).Allocated? <==> LookUp(old(layout), g, l).Allocated? && l !in locs
      ensures Emptied(old(layout), layout, emptyPages)
    {
      ghost var y0, f := layout, Flight(ids, locs, origs);
      MoveSlots(f, ids, locs, origs);
      FlightEnds(y0, layout, g, settled, id2loc, flights, f);
      settled, flights := Moved(settled, ids, locs), flights - {f};
    }

    /** erase_and_set_loc, second half. */
    method EraseAll(origs: seq<nat>, ghost m: map<nat, nat>)
      requires Sound(g) && RowsOk(layout, g.npp, g.page(curLoc), missing) && QueueOk(emptyPages, layout) && Guards(layout, m, g, missing, origs)
      modifies this`layout, this`emptyPages, this`missing
      ensures RowsOk(layout, g.npp, g.page(curLoc), missing) && QueueOk(emptyPages, layout) && Guards(layout, m, g, missing, [])
      ensures missing <= old(missing)
      ensures old(missing) == {} && MapsExcept(old(layout), m, g, origs) ==> MapsExcept(layout, m, g, [])
      ensures SameAllocated(old(layout), layout, g) && Emptied(old(layout), layout, emptyPages)
    {
      ghost var y1, gap := layout, missing;
      ghost var exact := gap == {} && MapsExcept(layout, m, g, origs);
      var k := 0;
      while k < |origs|
        invariant 0 <= k <= |origs| && Guards(layout, m, g, missing, origs[k..]) && missing <= gap
        invariant RowsOk(layout, g.npp, g.page(curLoc), missing) && QueueOk(emptyPages, layout)
        invariant exact ==> missing == {} && MapsExcept(layout, m, g, origs[k..])
        invariant SameAllocated(y1, layout, g) && Emptied(y1, layout, emptyPages)
      {
        EraseOne(origs, k, m, y1, exact);
        k := k + 1;
      }
    }

    method EraseOne(origs: seq<nat>, k: nat, ghost m: map<nat, nat>, ghost y1: Layout, ghost exact: bool)
      requires Sound(g) && RowsOk(layout, g.npp, g.page(curLoc), missing) && QueueOk(emptyPages, layout) && k < |origs|
      requires Guards(layout, m, g, missing, origs[k..]) && (exact ==> missing == {} && MapsExcept(layout, m, g, origs[k..]))
      requires SameAllocated(y1, layout, g) && Emptied(y1, layout, emptyPages)
      modifies this`layout, this`emptyPages, this`missing
      ensures RowsOk(layout, g.npp, g.page(curLoc), missing) && QueueOk(emptyPages, layout) && missing <= old(missing)
      ensures Guards(layout, m, g, missing, origs[k + 1..]) && (exact ==> missing == {} && MapsExcept(layout, m, g, origs[k + 1..]))
      ensures SameAllocated(y1, layout, g) && Emptied(y1, layout, emptyPages)
    {
      var l := origs[k];
      assert l == origs[k..][0] && origs[k..][1..] == origs[k + 1..];
      EraseGuards(layout, g, g.page(curLoc), missing, m, origs[k..]);
      if exact {
        assert LookUp(layout, g, l).Live?;
        EraseStale(layout, m, g, origs[k..]);
      }
      EraseAllocated(y1, layout, g, g.page(curLoc), missing, l);
      ghost var y, q := layout, emptyPages;
      EraseLoc2Id(l);
      EmptiedMore(y1, y, q, layout, emptyPages, g.page(l));
    }

    /** A commit without other threads: the ids move to the new locations, which become live; the
        locations they leave become free.  Ids may repeat. */
    method CommitMoves(ids: seq<nat>, locs: seq<nat>)
      requires Guarded() && flights == {} && |ids| == |locs| && Distinct(locs) && AllocatedAll(layout, g, locs)
      modifies this`layout, this`emptyPages, this`id2loc, this`settled, this`flights, this`missing
      ensures Guarded() && (old(Valid()) ==> Valid()) && flights == {} && id2loc == Moved(old(id2loc), ids, locs)
      ensures forall l :: LookUp(layout, g, l).Allocated? <==> LookUp(old(layout), g, l).Allocated? && l !in locs
      ensures Emptied(old(layout), layout, emptyPages)
    {
      var origs := PointAt(ids, locs);
      EraseAndSet(ids, locs, origs);
      assert flights == {};
    }
  }

  /** Nothing is left on a page. */
  method IsEmpty(row: seq<Slot>) returns (empty: bool)
    ensures empty <==> AllFree(row)
  {
    empty := true;
    var i := 0;
    while i < |row|
      invariant 0 <= i <= |row|
      invariant empty <==> forall k :: 0 <= k < i ==> row[k].Free?
    {
      if !row[i].Free? {
        return false;
      }
      i := i + 1;
    }
  }

  function EqualRow(npp: nat, n: nat, p: nat): seq<Slot>
    requires p > 0
  {
    seq(npp, o requires 0 <= o < npp => if LocOf(p, o, npp) < n then Live(LocOf(p, o, npp)) else Free)
  }

  method Identity(n: nat) returns (m: map<nat, nat>)
    ensures IsIdentity(m, n)
  {
    m := map[];
    for i := 0 to n
      invariant IsIdentity(m, i)
    {
      m := m[i := i];
    }
  }

  method EqualLayout(npp: nat, n: nat, cur: nat) returns (y: Layout)
    requires npp > 0 && n <= cur && cur % npp == 0
    ensures RowsOk(y, npp, PageOf(cur, npp), {}) && forall l: nat :: EqualAt(y, Sectors(npp), n, l)
  {
    SectorsSound(npp);
    assert LocAt(Sectors(npp), cur);
    y := map[];
    var f := PageOf(cur, npp);
    for p := 1 to f
      invariant EqualPages(y, npp, n, p)
    {
      y := y[p := EqualRow(npp, n, p)];
    }
    forall l: nat ensures EqualAt(y, Sectors(npp), n, l) { EqualSlot(y, npp, n, cur, l); }
  }

  ghost predicate EqualPages(y: Layout, npp: nat, n: nat, f: nat) {
    && (forall p :: p in y <==> 1 <= p < f)
    && (forall p :: p in y ==> y[p] == EqualRow(npp, n, p))
  }

  ghost predicate EqualAt(y: Layout, g: Geometry, n: nat, l: nat) {
    LookUp(y, g, l) == if l < n then Live(l) else Free
  }

  lemma EqualSlot(y: Layout, npp: nat, n: nat, cur: nat, l: nat)
    requires npp > 0 && Sound(Sectors(npp)) && n <= cur && cur % npp == 0 && EqualPages(y, npp, n, PageOf(cur, npp))
    ensures EqualAt(y, Sectors(npp), n, l)
  {
    var g := Sectors(npp);
    assert LocAt(g, l) && g.loc(g.page(l), g.off(l)) == LocOf(g.page(l), g.off(l), npp);
    assert g.page(cur) == PageOf(cur, npp) && g.off(cur) == cur % npp;
    if l < n { PageMono(g, l, cur); }
    if g.page(l) in y { assert y[g.page(l)][g.off(l)] == if l < n then Live(l) else Free; }
  }

  lemma EqualMaps(y: Layout, m: map<nat, nat>, g: Geometry, n: nat)
    requires Sound(g) && (forall l: nat :: EqualAt(y, g, n, l)) && IsIdentity(m, n)
    ensures MapsExcept(y, m, g, [])
  {
    forall l: nat | LookUp(y, g, l).Live? ensures LookUp(y, g, l).id in m && m[LookUp(y, g, l).id] == l {
      assert EqualAt(y, g, n, l);
    }
    forall id | id in m ensures LookUp(y, g, m[id]) == Live(id) { assert EqualAt(y, g, n, id); }
  }

  ghost predicate IsIdentity(m: map<nat, nat>, n: nat) {
    (forall i :: i in m <==> 0 <= i < n) && forall i :: i in m ==> m[i] == i
  }

  lemma Frontier(npp: nat, x: nat)
    requires npp > 0 && Sound(Sectors(npp))
    ensures var c := x + 1;
            var cur := if c % npp != 0 then c + (npp - c % npp) else c;
            Sectors(npp).off(cur) == 0 && Sectors(npp).page(cur) == PageOf(x, npp) + 1
  {
    NextLoc(Sectors(npp), x);
    if (x + 1) % npp != 0 { AlignedUp(Sectors(npp), x + 1); }
  }

  lemma OnPages(npp: nat, m: map<nat, nat>, x: nat)
    requires npp > 0 && Sound(Sectors(npp)) && LargestLoc(m, x)
    ensures forall id :: id in m ==> PageOf(m[id], npp) <= PageOf(x, npp)
  {
    forall id | id in m ensures PageOf(m[id], npp) <= PageOf(x, npp) {
      if m[id] < x { PageMono(Sectors(npp), m[id], x); }
      assert Sectors(npp).page(m[id]) == PageOf(m[id], npp);
    }
  }

  /** The pages that are not rebuilt. */
  ghost function Unbuilt(n: nat, last: nat): (pages: set<nat>)
    ensures forall p :: p in pages <==> n < p <= last
  {
    if last <= n then {} else Unbuilt(n, last - 1) + {last}
  }

  lemma RestoredGuarded(a: PageAllocator, npp: nat, loc2id: map<nat, nat>, n: nat, x: nat)
    requires 1 <= a.threshold <= npp && a.g == Sectors(npp) && a.emptyPages == []
    requires a.settled == a.id2loc && FlightsOk(a.layout, a.g, a.settled, a.id2loc, a.flights)
    requires a.missing == Unbuilt(n, PageOf(x, npp)) && n == PagesFor(|a.id2loc|, npp)
    requires RestoredPages(a.layout, npp, loc2id, n) && Inverts(a.id2loc, loc2id) && LargestLoc(a.id2loc, x)
    requires a.curLoc == var c := x + 1; if c % npp != 0 then c + (npp - c % npp) else c
    ensures a.Guarded() <==> Injective(a.id2loc)
  {
    SectorsSound(npp);
    Frontier(npp, x);
    if Injective(a.id2loc) {
      PagesEnough(npp, a.id2loc, x);
      UnbuiltRows(a.layout, npp, loc2id, n, PageOf(x, npp));
      OnPages(npp, a.id2loc, x);
      RestoredTaken(a.layout, npp, a.id2loc, loc2id, n, PageOf(x, npp));
    }
  }

  lemma UnbuiltRows(y: Layout, npp: nat, loc2id: map<nat, nat>, n: nat, last: nat)
    requires RestoredPages(y, npp, loc2id, n) && n <= last
    ensures RowsOk(y, npp, last + 1, Unbuilt(n, last))
  {
  }

  lemma RestoredTaken(y: Layout, npp: nat, m: map<nat, nat>, loc2id: map<nat, nat>, n: nat, last: nat)
    requires npp > 0 && Sound(Sectors(npp)) && RestoredPages(y, npp, loc2id, n) && Inverts(m, loc2id) && Injective(m)
    requires forall id :: id in m ==> PageOf(m[id], npp) <= last
    ensures Guards(y, m, Sectors(npp), Unbuilt(n, last), [])
  {
    forall id | id in m ensures Taken(y, Sectors(npp), Unbuilt(n, last), m[id]) {
      RestoredSlot(y, npp, loc2id, n, m[id]);
    }
  }

  lemma RestoredValid(a: PageAllocator, npp: nat, loc2id: map<nat, nat>, n: nat, x: nat)
    requires 1 <= a.threshold <= npp && a.g == Sectors(npp) && a.emptyPages == []
    requires a.settled == a.id2loc && FlightsOk(a.layout, a.g, a.settled, a.id2loc, a.flights)
    requires a.missing == Unbuilt(n, PageOf(x, npp)) && (a.Guarded() <==> Injective(a.id2loc))
    requires RestoredPages(a.layout, npp, loc2id, n) && Inverts(a.id2loc, loc2id) && LargestLoc(a.id2loc, x)
    requires a.curLoc == var c := x + 1; if c % npp != 0 then c + (npp - c % npp) else c
    ensures a.Valid() <==> Injective(a.id2loc) && n == PageOf(x, npp)
  {
    SectorsSound(npp);
    Frontier(npp, x);
    var f := a.g.page(a.curLoc);
    if n == PageOf(x, npp) {
      OnPages(npp, a.id2loc, x);
      RestoredMaps(a.layout, npp, a.id2loc, loc2id, n);
      MapsByLoc(a.layout, a.id2loc, a.g, f, {});
    }
    RestoredRows(a.layout, npp, loc2id, n, f);
  }

  lemma NoneAllocated(y: Layout, npp: nat, loc2id: map<nat, nat>, n: nat)
    requires npp > 0 && RestoredPages(y, npp, loc2id, n)
    ensures forall l :: !LookUp(y, Sectors(npp), l).Allocated?
  {
    SectorsSound(npp);
    forall l: nat ensures !LookUp(y, Sectors(npp), l).Allocated? {
      RestoredSlot(y, npp, loc2id, n, l);
    }
  }

  /** Pages that became wholly free are queued. */
  ghost predicate Emptied(y0: Layout, y: Layout, q: seq<nat>) {
    forall p :: p in y0 && p in y && AllFree(y[p]) && !AllFree(y0[p]) ==> p in q
  }

  /** Taking slots empties no page. */
  lemma EmptiedTook(y0: Layout, y1: Layout, y: Layout, taken: seq<Pos>, q: seq<nat>)
    requires Took(y0, y1, taken) && Emptied(y1, y, q)
    ensures Emptied(y0, y, q)
  {
    forall p | p in y0 && p in y && AllFree(y[p]) && !AllFree(y0[p]) ensures p in q {
      var o: nat :| o < |y0[p]| && !y0[p][o].Free?;
      assert At(y1, p, o) == if Pos(p, o) in taken then Allocated else At(y0, p, o);
    }
  }

  lemma EmptiedMore(y1: Layout, y: Layout, q: seq<nat>, y': Layout, q': seq<nat>, p: nat)
    requires Emptied(y1, y, q) && p in y' && (forall x :: x in y' && x != p ==> x in y && y'[x] == y[x])
    requires q' == q + if AllFree(y'[p]) then [p] else []
    ensures Emptied(y1, y', q')
  {
    forall x | x in y1 && x in y' && AllFree(y'[x]) && !AllFree(y1[x]) ensures x in q' {
      if x == p { assert q'[|q'| - 1] == p; } else { assert x in q; }
    }
  }

  /** Setting the reserved slots empties no page. */
  lemma EmptiedSince(y0: Layout, y1: Layout, y: Layout, g: Geometry, ids: seq<nat>, locs: seq<nat>, f: nat, q: seq<nat>, gap: set<nat>)
    requires Sound(g) && |ids| == |locs| && AllSet(y0, y1, g, ids, locs) && RowsOk(y0, g.npp, f, gap) && RowsOk(y1, g.npp, f, gap)
    requires Emptied(y1, y, q)
    ensures Emptied(y0, y, q)
  {
    forall p | p in y0 && p in y && AllFree(y[p]) && !AllFree(y0[p]) ensures p in q {
      assert p in y1;
      var o: nat :| o < |y0[p]| && !y0[p][o].Free?;
      assert PairAt(g, p, o);
      var l := g.loc(p, o);
      assert LookUp(y0, g, l) == y0[p][o] && LookUp(y1, g, l) == y1[p][o];
      if l in locs {
        var j :| 0 <= j < |locs| && locs[j] == l;
        assert LookUp(y1, g, locs[j]) == Live(ids[j]);
      }
      assert !y1[p][o].Free?;
    }
  }

  /** A request for no slots, with a page queued, moves the frontier back over live pages. */
  method ZeroAllocationBreaks() returns (a: PageAllocator)
    ensures fresh(a) && !a.LayoutOk()
  {
    a := OnePageQueued();
    ghost var i :| 0 <= i < |a.emptyPages| && a.emptyPages[i] >= a.firstUsable;
    QueuedSurplus(a.layout, a.emptyPages, [], a.firstUsable, a.threshold, false, 1, i);
    var locs, toRead, taken := a.AllocLoc(0, [], false);
  }

  /** One id, one slot a page: moving the id leaves its old page queued. */
  method OnePageQueued() returns (a: PageAllocator)
    ensures fresh(a) && a.Valid() && a.g == Sectors(1) && a.firstUsable == 0 && HasUsable(a.emptyPages, a.firstUsable)
    ensures 0 in a.id2loc && a.id2loc[0] != 0 && forall p :: p in a.emptyPages ==> p == 1
  {
    var l;
    a, l := OneReserved();
    ghost var y := a.layout;
    MovedOne(a.id2loc, l);
    a.CommitMoves([0], [l]);
    OneQueued(y, a.layout, a.settled, a.id2loc, a.curLoc, a.emptyPages);
  }

  /** The slot that an id left behind is the first one of the next request. */
  method OldSlotReturned() returns (a: PageAllocator, locs: seq<nat>)
    ensures fresh(a) && a.Valid() && 0 in a.id2loc && a.id2loc[0] != 0 && |locs| == 2 && locs[0] == 0
  {
    a := OnePageQueued();
    var toRead;
    ghost var taken;
    assert a.emptyPages[0] in a.emptyPages;
    HeadOfQueue(a.g, a.layout, a.emptyPages, [], 0, a.threshold, false, a.curLoc, 2);
    locs, toRead, taken := a.AllocLoc(2, [], false);
  }

  lemma OneQueued(y: Layout, y': Layout, settled: map<nat, nat>, m: map<nat, nat>, cur: nat, q: seq<nat>)
    requires RowsOk(y, 1, PageOf(cur, 1), {}) && RowsOk(y', 1, PageOf(cur, 1), {}) && QueueOk(q, y') && cur <= 2
    requires MapsOk(y', settled, Sectors(1)) && FlightsOk(y', Sectors(1), settled, m, {})
    requires Emptied(y, y', q) && LookUp(y, Sectors(1), 0) == Live(0) && !LookUp(y', Sectors(1), 0).Allocated?
    requires 0 in m && m[0] != 0 && m.Keys == {0}
    ensures HasUsable(q, 0) && forall p :: p in q ==> p == 1
  {
    SectorsSound(1);
    OldPageQueued(y, y', Sectors(1), settled, m, PageOf(cur, 1), q);
    OnlyOldPage(y', settled, m, cur, q);
  }

  lemma OnlyOldPage(y: Layout, settled: map<nat, nat>, m: map<nat, nat>, cur: nat, q: seq<nat>)
    requires RowsOk(y, 1, PageOf(cur, 1), {}) && cur <= 2 && QueueOk(q, y) && MapsOk(y, settled, Sectors(1))
    requires FlightsOk(y, Sectors(1), settled, m, {}) && 0 in m && m[0] != 0
    ensures forall p :: p in q ==> p == 1
  {
    NoFlights(y, Sectors(1), settled, m);
    NextPageLive(y, m[0], cur);
    FirstPageOnly(y, q, PageOf(cur, 1));
  }

  lemma FirstPageOnly(y: Layout, q: seq<nat>, f: nat)
    requires QueueOk(q, y) && RowsOk(y, 1, f, {}) && 2 in y && !AllFree(y[2]) && f <= 3
    ensures forall p :: p in q ==> p == 1
  {
    forall p | p in q ensures p == 1 {
      var i :| 0 <= i < |q| && q[i] == p;
      assert q[i] in y && AllFree(y[q[i]]);
    }
  }

  lemma NextPageLive(y: Layout, l: nat, cur: nat)
    requires RowsOk(y, 1, PageOf(cur, 1), {}) && cur <= 2 && l != 0 && IsAt(y, Sectors(1), l, Live(0))
    ensures 2 in y && !AllFree(y[2]) && PageOf(cur, 1) <= 3
  {
    PageOfOne(l);
    PageOfOne(cur);
    var g := Sectors(1);
    assert g.page(l) == PageOf(l, 1);
    assert l == 1 && y[2][g.off(l)] == Live(0);
  }

  lemma PageOfOne(l: nat)
    ensures PageOf(l, 1) == l + 1
  {
  }


  method OneReserved() returns (a: PageAllocator, l: nat)
    ensures fresh(a) && a.Valid() && a.g == Sectors(1) && a.firstUsable == 0 && a.flights == {} && IsIdentity(a.id2loc, 1) && a.curLoc <= 2
    ensures AllocatedAll(a.layout, a.g, [l]) && LookUp(a.layout, a.g, 0) == Live(0)
  {
    a := new PageAllocator.Equal(1, 1, 0, 1);
    assert EqualAt(a.layout, a.g, 1, 0);
    l := ReserveOne(a);
  }

  /** An allocation that returns as many locations as were asked for: they are reserved, and nobody's. */
  method Reserve(a: PageAllocator, n: nat, hints: seq<nat>, compact: bool) returns (locs: seq<nat>, ghost taken: seq<Pos>)
    requires a.Guarded() && a.flights == {}
    modifies a`layout, a`emptyPages, a`curLoc
    ensures |locs| == n <==> n > 0 || old(a.Surplus(hints, compact)) == 0
    ensures |locs| == n ==> a.Guarded() && (old(a.Valid()) ==> a.Valid()) && locs == old(a.Answer(n, hints, compact))
    ensures |locs| == n ==> Distinct(locs) && AllocatedAll(a.layout, a.g, locs) && Avoids(a.id2loc, locs)
    ensures |locs| == n ==> Took(old(a.layout), a.layout, taken) && LocsAre(a.g, locs, taken)
    ensures |locs| == n ==> old(a.curLoc) <= a.curLoc < old(a.curLoc) + n + a.g.npp
  {
    ghost var y, cur := a.layout, a.curLoc;
    NoFlights(a.layout, a.g, a.settled, a.id2loc);
    var toRead;
    locs, toRead, taken := a.AllocLoc(n, hints, compact);
    if |locs| == n {
      Reserved(y, a.layout, a.g, a.id2loc, locs, taken, a.g.page(a.curLoc), a.missing);
      assert LocAt(a.g, cur) && LocAt(a.g, a.curLoc);
    }
  }

  method ReserveOne(a: PageAllocator) returns (l: nat)
    requires a.Valid() && a.flights == {} && LookUp(a.layout, a.g, 0) == Live(0)
    modifies a
    ensures a.Valid() && a.flights == {} && a.id2loc == old(a.id2loc) && a.curLoc < old(a.curLoc) + 1 + a.g.npp
    ensures AllocatedAll(a.layout, a.g, [l]) && LookUp(a.layout, a.g, 0) == Live(0)
  {
    ghost var y := a.layout;
    var locs, taken := Reserve(a, 1, [], false);
    StillLive(y, a.layout, a.g, taken);
    l := locs[0];
    assert locs == [l];
  }

  lemma StillLive(y: Layout, y': Layout, g: Geometry, taken: seq<Pos>)
    requires Took(y, y', taken) && LookUp(y, g, 0) == Live(0)
    ensures LookUp(y', g, 0) == Live(0)
  {
    var x := Pos(g.page(0), g.off(0));
    assert At(y', x.page, x.off) == if Pos(x.page, x.off) in taken then Allocated else At(y, x.page, x.off);
  }

  lemma MovedOne(m: map<nat, nat>, l: nat)
    requires IsIdentity(m, 1)
    ensures Moved(m, [0], [l]) == map[0 := l]
  {
    assert [0][..0] == [] && [l][..0] == [];
  }

  lemma OldPageQueued(y: Layout, y': Layout, g: Geometry, settled: map<nat, nat>, m: map<nat, nat>, f: nat, q: seq<nat>)
    requires g.npp == 1 && Sound(g) && RowsOk(y, 1, f, {}) && RowsOk(y', 1, f, {}) && MapsOk(y', settled, g) && FlightsOk(y', g, settled, m, {})
    requires Emptied(y, y', q) && LookUp(y, g, 0) == Live(0) && !LookUp(y', g, 0).Allocated?
    requires 0 in m && m[0] != 0 && m.Keys == {0}
    ensures HasUsable(q, 0)
  {
    NoFlights(y', g, settled, m);
    MapsByLoc(y', settled, g, f, {});
    assert LocAt(g, 0);
    assert LookUp(y', g, 0).Free?;
    var i :| 0 <= i < |q| && q[i] == g.page(0);
  }

  /** Freshly allocated locations are reserved, and nobody's. */
  lemma Reserved(y: Layout, y': Layout, g: Geometry, m: map<nat, nat>, locs: seq<nat>, taken: seq<Pos>, f: nat, gap: set<nat>)
    requires Sound(g) && Took(y, y', taken) && LocsAre(g, locs, taken) && RowsOk(y', g.npp, f, gap) && Guards(y', m, g, gap, [])
    ensures AllocatedAll(y', g, locs) && Avoids(m, locs)
  {
    forall l | l in locs ensures LookUp(y', g, l).Allocated? {
      var i :| 0 <= i < |locs| && locs[i] == l;
      var x := taken[i];
      assert PairAt(g, x.page, x.off) && x == Pos(x.page, x.off);
      assert At(y', x.page, x.off) == if Pos(x.page, x.off) in taken then Allocated else At(y, x.page, x.off);
    }
    GuardsAvoid(y', m, g, f, gap, locs);
  }

  ghost predicate SameAllocated(y: Layout, y': Layout, g: Geometry) {
    forall l :: LookUp(y', g, l).Allocated? <==> LookUp(y, g, l).Allocated?
  }

  /** Slots that are reserved and then set are reserved no longer. */
  lemma AllocatedAgain(y0: Layout, y1: Layout, y: Layout, g: Geometry, locs: seq<nat>, taken: seq<Pos>)
    requires Sound(g) && Took(y0, y1, taken) && LocsAre(g, locs, taken)
    requires forall i :: 0 <= i < |taken| ==> taken[i].page > 0 && taken[i].off < g.npp
    requires forall l :: LookUp(y, g, l).Allocated? <==> LookUp(y1, g, l).Allocated? && l !in locs
    ensures SameAllocated(y0, y, g)
  {
    forall l: nat ensures LookUp(y, g, l).Allocated? <==> LookUp(y0, g, l).Allocated? {
      var x := Pos(g.page(l), g.off(l));
      assert LocAt(g, l) && At(y1, x.page, x.off) == if x in taken then Allocated else At(y0, x.page, x.off);
      if x in taken {
        var i :| 0 <= i < |taken| && taken[i] == x;
        assert locs[i] == l;
      } else if l in locs {
        var i :| 0 <= i < |locs| && locs[i] == l;
        assert PairAt(g, taken[i].page, taken[i].off);
      }
    }
  }

  lemma QueueWithout(q: seq<nat>, y: Layout, p: nat, o: nat, s: Slot)
    requires QueueOk(q, y) && p in y && o < |y[p]| && !y[p][o].Free?
    ensures p !in q && QueueOk(q, y[p := y[p][o := s]])
  {
    forall i | 0 <= i < |q| ensures q[i] != p { assert AllFree(y[q[i]]); }
  }

  lemma SetStep(y0: Layout, y: Layout, g: Geometry, ids: seq<nat>, locs: seq<nat>, i: nat)
    requires Sound(g) && i < |ids| == |locs| && Distinct(locs) && LookUp(y, g, locs[i]).Allocated?
    requires AllSet(y0, y, g, ids[..i], locs[..i]) && AllocatedAll(y, g, locs[i..])
    ensures Exists(y, g, locs[i])
    ensures var y' := Put(y, g.page(locs[i]), g.off(locs[i]), Live(ids[i]));
            AllSet(y0, y', g, ids[..i + 1], locs[..i + 1]) && AllocatedAll(y', g, locs[i + 1..])
  {
    var y' := Put(y, g.page(locs[i]), g.off(locs[i]), Live(ids[i]));
    forall l: nat ensures LookUp(y', g, l) == if l == locs[i] then Live(ids[i]) else LookUp(y, g, l) {
      PutLookUp(y, g, locs[i], Live(ids[i]), l);
    }
    forall l | l in locs[i + 1..] ensures LookUp(y', g, l).Allocated? { assert l in locs[i..]; }
    var ids1, locs1 := ids[..i + 1], locs[..i + 1];
    forall j | 0 <= j < i + 1 ensures LookUp(y', g, locs1[j]) == Live(ids1[j]) {
      if j < i { assert locs[..i][j] == locs[j] && ids[..i][j] == ids[j]; }
    }
    forall l | l !in locs[..i + 1] ensures LookUp(y', g, l) == LookUp(y0, g, l) {
      assert locs[..i + 1] == locs[..i] + [locs[i]];
    }
  }

  lemma EraseAllocated(y1: Layout, y: Layout, g: Geometry, f: nat, gap: set<nat>, l: nat)
    requires Sound(g) && RowsOk(y, g.npp, f, gap) && SameAllocated(y1, y, g) && Taken(y, g, gap, l)
    ensures SameAllocated(y1, Erased(y, g, l), g)
  {
    forall x: nat ensures LookUp(Erased(y, g, l), g, x).Allocated? <==> LookUp(y, g, x).Allocated? {
      ErasedLookUp(y, g, f, gap, l, x);
    }
  }

  lemma CommitAllocated(y0: Layout, y1: Layout, y: Layout, g: Geometry, ids: seq<nat>, locs: seq<nat>)
    requires |ids| == |locs| && AllSet(y0, y1, g, ids, locs) && SameAllocated(y1, y, g)
    ensures forall l :: LookUp(y, g, l).Allocated? <==> LookUp(y0, g, l).Allocated? && l !in locs
  {
    forall l: nat | l in locs ensures LookUp(y1, g, l).Live? {
      var j :| 0 <= j < |locs| && locs[j] == l;
      assert LookUp(y1, g, locs[j]) == Live(ids[j]);
    }
  }

  /** The two halves of a commit together. */
  lemma SetAndErased(y0: Layout, y1: Layout, y: Layout, g: Geometry, m: map<nat, nat>, ids: seq<nat>, locs: seq<nat>, f: nat, q: seq<nat>,
                     gap: set<nat>, gap': set<nat>)
    requires Sound(g) && RowsOk(y0, g.npp, f, gap) && RowsOk(y1, g.npp, f, gap) && RowsOk(y, g.npp, f, gap')
    requires |ids| == |locs| && Distinct(locs) && AllocatedAll(y0, g, locs)
    requires AllSet(y0, y1, g, ids, locs) && SameAllocated(y1, y, g) && Emptied(y1, y, q)
    requires gap == {} && MapsExcept(y1, Moved(m, ids, locs), g, Stale(m, ids, locs)) ==> MapsExcept(y, Moved(m, ids, locs), g, [])
    ensures gap == {} && MapsOk(y0, m, g) ==> MapsOk(y, Moved(m, ids, locs), g)
    ensures Emptied(y0, y, q)
    ensures forall l :: LookUp(y, g, l).Allocated? <==> LookUp(y0, g, l).Allocated? && l !in locs
  {
    if gap == {} && MapsOk(y0, m, g) {
      MapsByLoc(y0, m, g, f, gap);
      SetPhase(y0, y1, g, m, ids, locs);
      MapsByLoc(y, Moved(m, ids, locs), g, f, gap');
    }
    CommitAllocated(y0, y1, y, g, ids, locs);
    EmptiedSince(y0, y1, y, g, ids, locs, f, q, gap);
  }

  lemma RowsKept(y: Layout, y': Layout, taken: seq<Pos>, npp: nat, f: nat, gap: set<nat>)
    requires Took(y, y', taken) && y'.Keys == y.Keys && RowsOk(y, npp, f, gap)
    ensures RowsOk(y', npp, f, gap) && forall p :: p in y' ==> p > 0 && |y'[p]| == npp
  {
  }

  lemma AllocKeeps(y: Layout, y': Layout, taken: seq<Pos>, g: Geometry, f: nat, locs: seq<nat>, settled: map<nat, nat>, m: map<nat, nat>, fs: set<Flight>,
                   gap: set<nat>)
    requires Sound(g) && Took(y, y', taken) && RowsOk(y', g.npp, f, gap) && LocsAre(g, locs, taken)
    ensures Distinct(locs)
    ensures MapsOk(y, settled, g) && (forall p :: p in y ==> p > 0) ==> MapsOk(y', settled, g)
    ensures Guards(y, settled, g, gap, []) ==> Guards(y', settled, g, gap, [])
    ensures FlightsOk(y, g, settled, m, fs) ==> FlightsOk(y', g, settled, m, fs)
  {
    forall i | 0 <= i < |taken| ensures taken[i].page > 0 && taken[i].off < g.npp { assert taken[i].page in y'; }
    LocsDistinct(g, locs, taken);
    if MapsOk(y, settled, g) && forall p :: p in y ==> p > 0 { TookMaps(y, y', taken, settled, g); }
    if Guards(y, settled, g, gap, []) { TookGuards(y, y', taken, settled, g, gap); }
    if FlightsOk(y, g, settled, m, fs) { FlightsAlloc(y, y', taken, g, settled, m, fs); }
  }

  lemma TookGuards(y: Layout, y': Layout, taken: seq<Pos>, m: map<nat, nat>, g: Geometry, gap: set<nat>)
    requires Took(y, y', taken) && Guards(y, m, g, gap, [])
    ensures Guards(y', m, g, gap, [])
  {
    forall id | id in m ensures Taken(y', g, gap, m[id]) {
      var x := Pos(g.page(m[id]), g.off(m[id]));
      assert Taken(y, g, gap, m[id]) && At(y', x.page, x.off) == if x in taken then Allocated else At(y, x.page, x.off);
    }
  }

  /** The old locations, followed by k new ones from the frontier on. */
  ghost predicate Extends(locs: seq<nat>, locs0: seq<nat>, cur: nat, k: nat) {
    && |locs| == |locs0| + k && locs[..|locs0|] == locs0
    && forall j :: |locs0| <= j < |locs| ==> locs[j] == cur + (j - |locs0|)
  }

  lemma ExtendsMore(locs: seq<nat>, locs0: seq<nat>, cur: nat, k: nat)
    requires Extends(locs, locs0, cur, k)
    ensures Extends(locs + [cur + k], locs0, cur, k + 1)
  {
    assert (locs + [cur + k])[..|locs0|] == locs[..|locs0|];
  }

  /** The first hint that is not left alone can be used. */
  ghost predicate FirstGives(y: Layout, hints: seq<nat>, first: nat, threshold: nat, compact: bool) {
    hints != [] && if hints[0] >= first then Gives(y, hints[0], threshold, compact) else FirstGives(y, hints[1..], first, threshold, compact)
  }

  ghost function Giving(y: Layout, hints: seq<nat>, first: nat, threshold: nat, compact: bool): set<nat> {
    set p | p in hints && p >= first && Gives(y, p, threshold, compact)
  }

  /** The pages whose holes a request for no slots reserves: all usable queued ones and, if there is
      one or the first hint gives something, all hinted ones that do. */
  ghost function Reach(y: Layout, q: seq<nat>, hints: seq<nat>, first: nat, threshold: nat, compact: bool): set<nat> {
    Usable(q, first) +
    if Usable(q, first) != {} || FirstGives(y, hints, first, threshold, compact) then Giving(y, hints, first, threshold, compact) else {}
  }

  function RowHoles(y: Layout, p: nat): nat { if p in y then Holes(y[p]) else 0 }

  ghost function SumHoles(y: Layout, pages: set<nat>): nat
    decreases |pages|
  {
    if pages == {} then 0 else var p :| p in pages; RowHoles(y, p) + SumHoles(y, pages - {p})
  }

  lemma PagesMore(taken: seq<Pos>, t: seq<Pos>, p: nat)
    requires t != [] && forall i :: 0 <= i < |t| ==> t[i].page == p
    ensures PagesOf(taken + t) == PagesOf(taken) + {p}
  {
    var u := taken + t;
    forall q ensures q in PagesOf(u) <==> q in PagesOf(taken) + {p} {
      if q in PagesOf(taken) {
        var i :| 0 <= i < |taken| && taken[i].page == q;
        assert u[i].page == q;
      }
      if q == p { assert u[|taken|].page == p; }
    }
  }

  /** Rules 1 and 2 together take the old slots, as many as are asked for. */
  lemma OldTaken(y: Layout, q: seq<nat>, hints: seq<nat>, first: nat, threshold: nat, compact: bool, queued: seq<Pos>, taken: seq<Pos>, n: nat)
    requires queued == Cut(QueueSlots(y, q, first), n) && (|queued| < n ==> PagesOf(queued) == Usable(q, first))
    requires taken == if |queued| < n then Cut(queued + HintSlots(y, hints, first, threshold, compact, PagesOf(queued)), n) else queued
    ensures taken == Cut(OldSlots(y, q, hints, first, threshold, compact), n)
  {
    var a, b := QueueSlots(y, q, first), HintSlots(y, hints, first, threshold, compact, Usable(q, first));
    if |queued| == n {
      assert Cut(a + b, n) == a[..n];
    }
  }

  lemma AnswerIs(g: Geometry, slots: seq<Pos>, locs1: seq<nat>, taken: seq<Pos>, locs: seq<nat>, cur: nat, n: nat)
    requires taken == Cut(slots, n) && LocsAre(g, locs1, taken)
    requires if |locs1| < n then Extends(locs, locs1, cur, n - |locs1|) else locs == locs1
    ensures locs == FirstOf(g, slots, cur, n)
  {
    if |locs1| < n {
      FirstAre(g, locs, locs1, slots, cur, n);
    }
  }

  ghost predicate FullSet(y: Layout, pages: set<nat>) { forall p :: p in pages ==> p in y && NoneFree(y[p]) }

  lemma FullMeans(y: Layout, taken: seq<Pos>)
    requires FullPages(y, taken)
    ensures FullSet(y, PagesOf(taken)) && (PagesOf(taken) == {} <==> taken == [])
  {
    if taken != [] { assert taken[0].page in PagesOf(taken); }
  }

  /** The pages that the hint loop has used in the end, for a request of no slots: it stops at a
      hint after which there are still none. */
  ghost function Scan(y: Layout, hints: seq<nat>, first: nat, threshold: nat, compact: bool, pages: set<nat>): set<nat>
    decreases |hints|
  {
    if hints == [] then pages
    else if hints[0] < first then Scan(y, hints[1..], first, threshold, compact, pages)
    else
      var more := if Gives(y, hints[0], threshold, compact) then pages + {hints[0]} else pages;
      if more == {} then {} else Scan(y, hints[1..], first, threshold, compact, more)
  }

  /** In closed form. */
  lemma {:induction false} ScanIs(y: Layout, hints: seq<nat>, first: nat, threshold: nat, compact: bool, pages: set<nat>)
    ensures Scan(y, hints, first, threshold, compact, pages) ==
            pages + if pages != {} || FirstGives(y, hints, first, threshold, compact) then Giving(y, hints, first, threshold, compact) else {}
    decreases |hints|
  {
    if hints != [] {
      var p, rest := hints[0], hints[1..];
      assert hints == [p] + rest;
      var more := if p >= first && Gives(y, p, threshold, compact) then pages + {p} else pages;
      ScanIs(y, rest, first, threshold, compact, more);
      assert more + Giving(y, rest, first, threshold, compact) == pages + Giving(y, hints, first, threshold, compact);
    }
  }

  /** Up to hint i, pages is what was used. */
  ghost predicate Scanned(y1: Layout, y: Layout, hints: seq<nat>, first: nat, threshold: nat, compact: bool, pages: set<nat>,
                          i: nat, stop: bool, scan: set<nat>) {
    && i <= |hints| && y.Keys == y1.Keys && FullSet(y, pages) && (forall q :: q in y && q !in pages ==> y[q] == y1[q])
    && scan == if stop then pages else Scan(y1, hints[i..], first, threshold, compact, pages)
  }

  lemma ScanStep(y1: Layout, y: Layout, y': Layout, hints: seq<nat>, first: nat, threshold: nat, compact: bool,
                 pages: set<nat>, pages': set<nat>, i: nat, stop: bool, scan: set<nat>)
    requires Scanned(y1, y, hints, first, threshold, compact, pages, i, false, scan) && i < |hints| && threshold >= 1
    requires y'.Keys == y.Keys && FullSet(y', pages') && (forall q :: q in y' && q != hints[i] ==> y'[q] == y[q])
    requires if hints[i] >= first && Gives(y, hints[i], threshold, compact) then pages' == pages + {hints[i]} else pages' == pages && y' == y
    requires if hints[i] >= first then stop <==> pages' == {} else !stop
    ensures Scanned(y1, y', hints, first, threshold, compact, pages', i + 1, stop, scan)
  {
    var p := hints[i];
    assert hints[i..][0] == p && hints[i..][1..] == hints[i + 1..];
    if p in pages {
      HolesMean(y[p]);
      assert pages + {p} == pages;
    }
  }

  lemma {:induction false} SumHolesOf(y: Layout, pages: set<nat>, p: nat)
    requires p in pages
    ensures SumHoles(y, pages) == RowHoles(y, p) + SumHoles(y, pages - {p})
    decreases |pages|
  {
    var q :| q in pages && SumHoles(y, pages) == RowHoles(y, q) + SumHoles(y, pages - {q});
    if q != p {
      SumHolesOf(y, pages - {q}, p);
      SumHolesOf(y, pages - {p}, q);
      assert pages - {q} - {p} == pages - {p} - {q};
    }
  }

  ghost function FreeOn(p: nat, row: seq<Slot>): set<Pos> { set o: nat | o < |row| && row[o].Free? :: Pos(p, o) }

  lemma {:induction false} FreeOnCount(p: nat, row: seq<Slot>)
    ensures |FreeOn(p, row)| == Holes(row)
    decreases |row|
  {
    if row != [] {
      var n := |row| - 1;
      FreeOnCount(p, row[..n]);
      var more := if row[n].Free? then {Pos(p, n)} else {};
      assert FreeOn(p, row) == FreeOn(p, row[..n]) + more;
    }
  }

  ghost function FreeIn(y: Layout, pages: set<nat>): set<Pos> {
    set p, o: nat | p in pages && p in y && o < |y[p]| && y[p][o].Free? :: Pos(p, o)
  }

  lemma {:induction false} FreeInCount(y: Layout, pages: set<nat>)
    ensures |FreeIn(y, pages)| == SumHoles(y, pages)
    decreases |pages|
  {
    if pages == {} {
      assert FreeIn(y, pages) == {};
    } else {
      var p :| p in pages;
      FreeInCount(y, pages - {p});
      SumHolesOf(y, pages, p);
      var here := if p in y then FreeOn(p, y[p]) else {};
      if p in y { FreeOnCount(p, y[p]); }
      assert FreeIn(y, pages) == here + FreeIn(y, pages - {p});
    }
  }

  /** If every page that slots were taken from is full now, the slots are its former holes. */
  lemma TakenCount(y0: Layout, y: Layout, taken: seq<Pos>)
    requires Took(y0, y, taken) && y.Keys == y0.Keys && FullPages(y, taken)
    ensures |taken| == SumHoles(y0, PagesOf(taken))
  {
    var v := FreeIn(y0, PagesOf(taken));
    forall x ensures x in v <==> x in taken {
      if x in v {
        var i :| 0 <= i < |taken| && taken[i].page == x.page;
        assert At(y, x.page, x.off) == if Pos(x.page, x.off) in taken then Allocated else At(y0, x.page, x.off);
      }
      if x in taken {
        var i :| 0 <= i < |taken| && taken[i] == x;
        assert At(y0, taken[i].page, taken[i].off).Free?;
      }
    }
    DistinctCount(taken, v);
    FreeInCount(y0, PagesOf(taken));
  }

  /** What rules 1 and 2 reserve for a request of no slots, in terms of the state before. */
  lemma SurplusIs(y0: Layout, y1: Layout, y: Layout, taken1: seq<Pos>, taken: seq<Pos>, q: seq<nat>, hints: seq<nat>,
                  first: nat, threshold: nat, compact: bool)
    requires Took(y0, y1, taken1) && y1.Keys == y0.Keys && PagesOf(taken1) == Usable(q, first)
    requires Took(y0, y, taken) && y.Keys == y0.Keys && FullPages(y, taken)
    requires PagesOf(taken) == Scan(y1, hints, first, threshold, compact, PagesOf(taken1))
    ensures |taken| == SumHoles(y0, Reach(y0, q, hints, first, threshold, compact))
  {
    TakenCount(y0, y, taken);
    ScanIs(y1, hints, first, threshold, compact, PagesOf(taken1));
    forall p | p in y0 && p !in PagesOf(taken1) ensures y1[p] == y0[p] {
      assert !OnPage(taken1, p);
      TookRow(y0, y1, taken1, p);
    }
    if PagesOf(taken1) == {} {
      assert y1 == y0;
    } else {
      assert Usable(q, first) + Giving(y1, hints, first, threshold, compact) == PagesOf(taken);
      UsedAnyway(y0, y1, Usable(q, first), hints, first, threshold, compact);
    }
  }

  lemma UsedAnyway(y0: Layout, y1: Layout, used: set<nat>, hints: seq<nat>, first: nat, threshold: nat, compact: bool)
    requires y1.Keys == y0.Keys && forall p :: p in y0 && p !in used ==> y1[p] == y0[p]
    ensures used + Giving(y1, hints, first, threshold, compact) == used + Giving(y0, hints, first, threshold, compact)
  {
  }

  /** A usable queued page makes a page's worth. */
  lemma QueuedSurplus(y: Layout, q: seq<nat>, hints: seq<nat>, first: nat, threshold: nat, compact: bool, npp: nat, i: nat)
    requires QueueOk(q, y) && i < |q| && q[i] >= first && |y[q[i]]| == npp
    ensures SumHoles(y, Reach(y, q, hints, first, threshold, compact)) >= npp
  {
    HolesMean(y[q[i]]);
    SumHolesOf(y, Reach(y, q, hints, first, threshold, compact), q[i]);
  }

  /** What holds between two hints. */
  ghost predicate Hinted(y0: Layout, y: Layout, g: Geometry, locs: seq<nat>, taken: seq<Pos>, toRead: set<nat>, compact: bool, bound: nat) {
    && Progress(y0, y, g, locs, taken) && |locs| <= bound && (|locs| < bound ==> FullPages(y, taken))
    && if compact then toRead >= Occupied(y0, taken) else toRead == Occupied(y0, taken)
  }

  ghost predicate HasUsable(q: seq<nat>, first: nat) { exists i :: 0 <= i < |q| && q[i] >= first }

  /** The whole pages among k slots. */
  ghost function WholePages(k: nat, npp: nat): nat
    requires npp > 0
  {
    if k < npp then 0 else 1 + WholePages(k - npp, npp)
  }

  /** Distinct slots on existing pages are no more than the locations before the frontier. */
  lemma FoundBound(y0: Layout, y: Layout, g: Geometry, cur: nat, locs: seq<nat>, taken: seq<Pos>, gap: set<nat>)
    requires Sound(g) && g.off(cur) == 0 && Progress(y0, y, g, locs, taken) && RowsOk(y0, g.npp, g.page(cur), gap)
    ensures |locs| <= cur
  {
    RowsKept(y0, y, taken, g.npp, g.page(cur), gap);
    AllocKeeps(y0, y, taken, g, g.page(cur), locs, map[], map[], {}, gap);
    forall l | l in locs ensures l < cur {
      var i :| 0 <= i < |locs| && locs[i] == l;
      var x := taken[i];
      assert x.page in y && PairAt(g, x.page, x.off);
      if l > cur { PageMono(g, cur, l); }
    }
    DistinctBound(locs, cur);
  }

  /** Going back k locations from a page boundary and up to the next one. */
  lemma {:induction false} StepBack(g: Geometry, cur: nat, k: nat)
    requires Sound(g) && g.off(cur) == 0 && k <= cur
    ensures var l := cur - k;
            var l' := if g.off(l) != 0 then l + (g.npp - g.off(l)) else l;
            g.off(l) < g.npp && g.off(l') == 0 && g.page(l') + WholePages(k, g.npp) == g.page(cur)
    decreases k
  {
    assert LocAt(g, cur) && LocAt(g, cur - k) && PairAt(g, g.page(cur), 0);
    if k > 0 {
      var p: nat := g.page(cur) - 1;
      FirstPage(g, cur);
      var o := if k < g.npp then g.npp - k else 0;
      assert PairAt(g, p, o) && PairAt(g, p, 0);
      if k >= g.npp { StepBack(g, cur - g.npp, k - g.npp); }
    }
  }

  lemma FirstPage(g: Geometry, cur: nat)
    requires Sound(g) && g.off(cur) == 0
    ensures cur > 0 ==> g.page(cur) > 1
  {
    assert LocAt(g, 0);
    if cur > 0 { PageMono(g, 0, cur); }
  }

  lemma RowsMoved(y: Layout, npp: nat, f: nat, f': nat, gap: set<nat>)
    requires RowsOk(y, npp, f, gap) && 0 < f' <= f
    ensures RowsOk(y, npp, f', gap) <==> f' == f
  {
    if f' < f { assert f' in y || f' in gap; }
  }

  /** Everything before location l exists; from l on, the rest of its page is free. */
  ghost predicate NextFree(y: Layout, g: Geometry, l: nat, gap: set<nat>) {
    && RowsOk(y, g.npp, if g.off(l) == 0 then g.page(l) else g.page(l) + 1, gap) && g.page(l) !in gap
    && (g.off(l) > 0 ==> forall o :: g.off(l) <= o < g.npp ==> At(y, g.page(l), o).Free?)
  }

  lemma RoundUp(y: Layout, g: Geometry, l: nat, gap: set<nat>)
    requires Sound(g) && NextFree(y, g, l, gap)
    ensures g.off(l) < g.npp
    ensures var l' := if g.off(l) != 0 then l + (g.npp - g.off(l)) else l; g.off(l') == 0 && RowsOk(y, g.npp, g.page(l'), gap)
  {
    assert LocAt(g, l);
    if g.off(l) != 0 { AlignedUp(g, l); }
  }

  /** The layout with the page of l present. */
  function Opened(y: Layout, g: Geometry, l: nat): Layout {
    if g.page(l) in y then y else y[g.page(l) := seq(g.npp, _ => Free)]
  }

  lemma AlignedUp(g: Geometry, l: nat)
    requires Sound(g)
    ensures g.off(l) < g.npp
    ensures var l' := l + (g.npp - g.off(l)); g.off(l') == 0 && g.page(l') == g.page(l) + 1
  {
    assert LocAt(g, l) && PairAt(g, g.page(l), g.off(l)) && PairAt(g, g.page(l) + 1, 0);
  }

  lemma NextPut(y: Layout, g: Geometry, l: nat, gap: set<nat>)
    requires Sound(g) && NextFree(y, g, l, gap)
    ensures g.page(l) in y ==> |y[g.page(l)]| == g.npp
    ensures var y' := Put(Opened(y, g, l), g.page(l), g.off(l), Allocated);
      Took(y, y', [Pos(g.page(l), g.off(l))]) && NextFree(y', g, l + 1, gap)
  {
    var p, o := g.page(l), g.off(l);
    assert LocAt(g, l);
    NextLoc(g, l);
    var y1 := Opened(y, g, l);
    var y' := Put(y1, p, o, Allocated);
    assert At(y, p, o).Free?;
    if p !in y { TookPage(y, y1, p, g.npp); } else { TookNothing(y); }
    TookOne(y1, y', p, o);
    TookMore(y, y1, y', [], [Pos(p, o)]);
    assert [] + [Pos(p, o)] == [Pos(p, o)];
    if g.off(l + 1) > 0 {
      forall x | g.off(l + 1) <= x < g.npp ensures At(y', p, x).Free? {
        assert At(y', p, x) == At(y, p, x);
      }
    }
  }

  /** Locations were taken up to l, beyond the pages of y0 as well. */
  ghost predicate Fresh(y0: Layout, y: Layout, g: Geometry, l: nat, locs: seq<nat>, taken: seq<Pos>, gap: set<nat>) {
    NextFree(y, g, l, gap) && Took(y0, y, taken) && LocsAre(g, locs, taken) && forall p :: p in y0 ==> p < g.page(l)
  }

  lemma NextTaken(y0: Layout, y: Layout, g: Geometry, l: nat, locs: seq<nat>, taken: seq<Pos>, gap: set<nat>)
    requires Sound(g) && Fresh(y0, y, g, l, locs, taken, gap)
    ensures g.page(l) in y ==> |y[g.page(l)]| == g.npp
    ensures var y', taken' := Put(Opened(y, g, l), g.page(l), g.off(l), Allocated), taken + [Pos(g.page(l), g.off(l))];
      Fresh(y0, y', g, l + 1, locs + [l], taken', gap) && Occupied(y0, taken') == Occupied(y0, taken)
  {
    var x := Pos(g.page(l), g.off(l));
    NextPut(y, g, l, gap);
    NextLoc(g, l);
    assert LocAt(g, l);
    TookMore(y0, y, Put(Opened(y, g, l), x.page, x.off, Allocated), taken, [x]);
    OccupiedMore(y0, taken, [x], x.page);
  }

  lemma TookPage(y: Layout, y': Layout, p: nat, npp: nat)
    requires p !in y && y' == y[p := seq(npp, _ => Free)]
    ensures Took(y, y', [])
  {
    forall q: nat, x: nat ensures At(y', q, x) == At(y, q, x) { }
  }

  /** Since y0 the given locations, and only they, were taken, all on existing pages. */
  ghost predicate Progress(y0: Layout, y: Layout, g: Geometry, locs: seq<nat>, taken: seq<Pos>) {
    y.Keys == y0.Keys && Took(y0, y, taken) && LocsAre(g, locs, taken)
  }

  lemma QueueRest(q: seq<nat>, y: Layout, y': Layout, p: nat)
    requires QueueOk(q, y) && p !in q && y'.Keys == y.Keys
    requires forall r :: r in y' && r != p ==> y'[r] == y[r]
    ensures QueueOk(q, y')
  {
  }

  /** Pages of the queue q taken in order, up to `rest`. */
  ghost predicate Queued(y0: Layout, y: Layout, g: Geometry, q: seq<nat>, rest: seq<nat>, first: nat, n: nat, locs: seq<nat>, taken: seq<Pos>) {
    && QueueOk(rest, y) && |locs| <= n && Progress(y0, y, g, locs, taken) && Occupied(y0, taken) == {}
    && (|locs| < n ==> FullPages(y, taken))
    && PagesOf(taken) + Usable(rest, first) == Usable(q, first)
    && Cut(taken + QueueSlots(y0, rest, first), n) == Cut(QueueSlots(y0, q, first), n)
  }

  lemma QueuedSkip(y0: Layout, y: Layout, g: Geometry, q: seq<nat>, rest: seq<nat>, first: nat, n: nat, locs: seq<nat>, taken: seq<Pos>)
    requires Queued(y0, y, g, q, rest, first, n, locs, taken) && rest != [] && rest[0] < first
    ensures Queued(y0, y, g, q, rest[1..], first, n, locs, taken)
  {
    UsableRest(rest, first);
    QueueSkip(y0, rest, first);
  }

  lemma QueuedTook(y0: Layout, y: Layout, y': Layout, g: Geometry, q: seq<nat>, rest: seq<nat>, first: nat, n: nat,
                   locs: seq<nat>, taken: seq<Pos>, locs': seq<nat>, taken': seq<Pos>)
    requires Queued(y0, y, g, q, rest, first, n, locs, taken) && rest != [] && rest[0] >= first && |locs| < n
    requires QueueOk(rest[1..], y') && Progress(y0, y', g, locs', taken') && |locs'| <= n && Occupied(y0, taken') == {}
    requires |locs'| < n ==> FullPages(y', taken')
    requires PagesOf(taken') == PagesOf(taken) + {rest[0]}
    requires rest[0] in y0 && taken' == taken + Cut(FreeSlots(rest[0], y0[rest[0]]), n - |taken|)
    ensures Queued(y0, y', g, q, rest[1..], first, n, locs', taken')
  {
    UsableRest(rest, first);
    QueueStep(y0, rest, first, taken, n);
    assert PagesOf(taken') + Usable(rest[1..], first) == PagesOf(taken) + Usable(rest, first);
  }

  lemma LocsMore(g: Geometry, locs: seq<nat>, taken: seq<Pos>, more: seq<nat>, t: seq<Pos>)
    requires LocsAre(g, locs, taken) && LocsAre(g, more, t)
    ensures LocsAre(g, locs + more, taken + t)
  {
    forall i | 0 <= i < |locs + more|
      ensures var x := (taken + t)[i]; g.loc.requires(x.page, x.off) && (locs + more)[i] == g.loc(x.page, x.off)
    {
      if i >= |locs| { assert (taken + t)[i] == t[i - |locs|]; }
    }
  }

  /** Slots of one more page. */
  lemma PageTaken(y0: Layout, y: Layout, y': Layout, g: Geometry, p: nat, n: nat, locs0: seq<nat>, taken0: seq<Pos>, more: seq<nat>, t: seq<Pos>)
    requires p in y && !NoneFree(y[p]) && Progress(y0, y, g, locs0, taken0) && FullPages(y, taken0) && |locs0| < n
    requires y'.Keys == y.Keys && Took(y, y', t) && LocsAre(g, more, t) && t == Cut(FreeSlots(p, y[p]), n - |locs0|)
    requires y0.Keys == y.Keys
    requires (forall i :: 0 <= i < |t| ==> t[i].page == p) && (|locs0| + |t| < n ==> NoneFree(y'[p])) && t != []
    ensures Progress(y0, y', g, locs0 + more, taken0 + t) && (|locs0| + |t| < n ==> FullPages(y', taken0 + t))
    ensures PagesOf(taken0 + t) == PagesOf(taken0) + {p} && p in y0 && t == Cut(FreeSlots(p, y0[p]), n - |taken0|)
    ensures forall q :: q in y' && q != p ==> y'[q] == y[q]
    ensures Occupied(y0, taken0 + t) == Occupied(y0, taken0) + if AllFree(y[p]) then {} else {p}
  {
    NotFull(y, taken0, p);
    TookRow(y0, y, taken0, p);
    TookMore(y0, y, y', taken0, t);
    LocsMore(g, locs0, taken0, more, t);
    TakenFull(y, y', taken0, t, p, |locs0| + |t| < n);
    OccupiedMore(y0, taken0, t, p);
    forall q | q in y' && q != p ensures y'[q] == y[q] { TookRow(y, y', t, q); }
    PagesMore(taken0, t, p);
  }

  lemma NotFull(y: Layout, taken: seq<Pos>, p: nat)
    requires FullPages(y, taken) && p in y && !NoneFree(y[p])
    ensures !OnPage(taken, p)
  {
  }

  lemma TakenFull(y: Layout, y': Layout, taken: seq<Pos>, t: seq<Pos>, p: nat, full: bool)
    requires Took(y, y', t) && FullPages(y, taken) && (forall i :: 0 <= i < |t| ==> t[i].page == p) && !OnPage(taken, p)
    requires full ==> p in y' && NoneFree(y'[p])
    ensures full ==> FullPages(y', taken + t)
  {
    if full {
      forall i | 0 <= i < |taken + t| ensures (taken + t)[i].page in y' && NoneFree(y'[(taken + t)[i].page]) {
        if i < |taken| {
          assert taken[i].page != p;
          TookRow(y, y', t, taken[i].page);
        }
      }
    }
  }

  /** A page joins the read set when slots of it are taken and it had an occupant. */
  lemma OccupiedMore(y: Layout, taken: seq<Pos>, t: seq<Pos>, p: nat)
    requires forall i :: 0 <= i < |t| ==> t[i].page == p
    ensures Occupied(y, taken + t) == Occupied(y, taken) + if t != [] && p in y && !AllFree(y[p]) then {p} else {}
  {
    var both := taken + t;
    forall q | q in Occupied(y, taken) ensures q in Occupied(y, both) {
      var i :| 0 <= i < |taken| && taken[i].page in y && !AllFree(y[taken[i].page]) && taken[i].page == q;
      assert both[i] == taken[i];
    }
    if t != [] && p in y && !AllFree(y[p]) {
      assert both[|taken|].page == p;
    }
  }

  lemma TookOne(y: Layout, y': Layout, p: nat, o: nat)
    requires p in y && o < |y[p]| && y[p][o].Free? && y' == y[p := y[p][o := Allocated]]
    ensures Took(y, y', [Pos(p, o)])
  {
    forall q: nat, x: nat ensures At(y', q, x) == if Pos(q, x) in [Pos(p, o)] then Allocated else At(y, q, x) { }
  }
}
