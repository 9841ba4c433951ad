/**
  The order in which an allocation (`alloc_loc`, `alloc_loc_compact` in include/ssd_index.h) gives
  out slots, as a function of the state it starts from: the free slots of the usable queued pages,
  in the order of the queue, then those of the hinted pages that have enough holes and were not
  used yet, then the locations from the frontier on.
 */
module SlotOrder {
  import opened Basics
  import opened PageLayout

  function Holes(row: seq<Slot>): nat {
    if row == [] then 0 else Holes(row[..|row| - 1]) + if row[|row| - 1].Free? then 1 else 0
  }

  lemma {:induction false} HolesMean(row: seq<Slot>)
    ensures Holes(row) <= |row| && (Holes(row) == |row| <==> AllFree(row)) && (Holes(row) == 0 <==> NoneFree(row))
    decreases |row|
  {
    if row != [] {
      var n := |row| - 1;
      HolesMean(row[..n]);
      assert row == row[..n] + [row[n]];
    }
  }

  /** A hinted page exists and has enough holes to be used. */
  predicate Gives(y: Layout, p: nat, threshold: nat, compact: bool) {
    p in y && if compact then Holes(y[p]) > 0 else Holes(y[p]) >= threshold
  }

  ghost function PagesOf(taken: seq<Pos>): set<nat> { set i | 0 <= i < |taken| :: taken[i].page }

  ghost function Usable(q: seq<nat>, first: nat): set<nat> { set p | p in q && p >= first }

  lemma UsableRest(q: seq<nat>, first: nat)
    requires q != []
    ensures Usable(q, first) == Usable(q[1..], first) + if q[0] >= first then {q[0]} else {}
  {
    assert q == [q[0]] + q[1..];
  }

  /** All pages with a taken slot are used up. */
  ghost predicate FullPages(y: Layout, taken: seq<Pos>) {
    forall i :: 0 <= i < |taken| ==> taken[i].page in y && NoneFree(y[taken[i].page])
  }

  // ---------------------------------------------------------------- one page

  /** The free slots of a page, in order. */
  function FreeSlots(p: nat, row: seq<Slot>): seq<Pos> {
    if row == [] then [] else FreeSlots(p, row[..|row| - 1]) + if row[|row| - 1].Free? then [Pos(p, |row| - 1)] else []
  }

  /** As many as are asked for. */
  function Cut(s: seq<Pos>, n: nat): seq<Pos> { if |s| <= n then s else s[..n] }

  /** They are exactly the free slots, each once and in ascending order. */
  lemma {:induction false} FreeSlotsAre(p: nat, row: seq<Slot>)
    ensures |FreeSlots(p, row)| == Holes(row) && Distinct(FreeSlots(p, row))
    ensures forall i, j :: 0 <= i < j < |FreeSlots(p, row)| ==> FreeSlots(p, row)[i].off < FreeSlots(p, row)[j].off
    ensures forall x :: x in FreeSlots(p, row) <==> x.page == p && x.off < |row| && row[x.off].Free?
    decreases |row|
  {
    if row != [] {
      var n := |row| - 1;
      FreeSlotsAre(p, row[..n]);
      assert row == row[..n] + [row[n]];
      var rest := FreeSlots(p, row[..n]);
      forall i | 0 <= i < |rest| ensures rest[i].off < n { assert rest[i] in rest; }
    }
  }

  lemma {:induction false} FreeSlotsPrefix(p: nat, row: seq<Slot>, o: nat)
    requires o <= |row|
    ensures FreeSlots(p, row[..o]) <= FreeSlots(p, row)
    decreases |row| - o
  {
    if o < |row| {
      assert row[..o + 1][..o] == row[..o];
      FreeSlotsPrefix(p, row, o + 1);
    } else {
      assert row[..o] == row;
    }
  }

  /** A row with some of its slots allocated. */
  ghost predicate Filled(p: nat, row0: seq<Slot>, row: seq<Slot>, taken: seq<Pos>) {
    |row| == |row0| && forall o :: 0 <= o < |row| ==> row[o] == if Pos(p, o) in taken then Allocated else row0[o]
  }

  /** Allocates the free slots of one page in order, until `max` are found. */
  method FillRow(g: Geometry, p: nat, row0: seq<Slot>, max: nat) returns (row: seq<Slot>, locs: seq<nat>, ghost taken: seq<Pos>)
    requires Sound(g) && p > 0 && |row0| == g.npp
    ensures taken == Cut(FreeSlots(p, row0), max) && LocsAre(g, locs, taken) && Filled(p, row0, row, taken)
  {
    row, locs, taken := row0, [], [];
    var o := 0;
    assert row0[..0] == [];
    while o < g.npp && |locs| < max
      invariant 0 <= o <= g.npp && |taken| <= max && LocsAre(g, locs, taken)
      invariant taken == FreeSlots(p, row0[..o]) && Filled(p, row0, row, taken)
      invariant forall i :: 0 <= i < |taken| ==> taken[i].off < o
    {
      assert row0[..o + 1][..o] == row0[..o];
      if row[o].Free? {
        assert PairAt(g, p, o);
        row, locs, taken := row[o := Allocated], locs + [g.loc(p, o)], taken + [Pos(p, o)];
      }
      o := o + 1;
    }
    FreeSlotsPrefix(p, row0, o);
    assert o == g.npp ==> row0[..o] == row0;
  }

  /** What a filled page means for the layout. */
  lemma FilledTook(y: Layout, y': Layout, p: nat, row: seq<Slot>, max: nat)
    requires p in y && y' == y[p := row] && Filled(p, y[p], row, Cut(FreeSlots(p, y[p]), max))
    ensures var taken := Cut(FreeSlots(p, y[p]), max);
            && Took(y, y', taken) && |taken| <= max && (forall i :: 0 <= i < |taken| ==> taken[i].page == p)
            && (|taken| < max ==> NoneFree(y'[p])) && (max > 0 && taken == [] ==> NoneFree(y[p]))
  {
    var all, taken := FreeSlots(p, y[p]), Cut(FreeSlots(p, y[p]), max);
    FreeSlotsAre(p, y[p]);
    CutOf(all, max);
    forall i | 0 <= i < |taken|
      ensures taken[i].page == p && At(y, p, taken[i].off).Free? && taken[i].off < |y'[p]|
    {
      assert taken[i] in all;
    }
    forall q: nat, o: nat ensures At(y', q, o) == if Pos(q, o) in taken then Allocated else At(y, q, o) { }
  }

  lemma CutOf(s: seq<Pos>, n: nat)
    requires Distinct(s)
    ensures Distinct(Cut(s, n)) && (forall x :: x in Cut(s, n) ==> x in s) && (|Cut(s, n)| < n ==> Cut(s, n) == s)
  {
  }

  // ---------------------------------------------------------------- all pages

  /** Rule 1. */
  function QueueSlots(y: Layout, q: seq<nat>, first: nat): seq<Pos>
    decreases |q|
  {
    if q == [] then [] else (if q[0] >= first && q[0] in y then FreeSlots(q[0], y[q[0]]) else []) + QueueSlots(y, q[1..], first)
  }

  /** Rule 2.  A page is used once: it is full afterwards. */
  function HintSlots(y: Layout, hints: seq<nat>, first: nat, threshold: nat, compact: bool, used: set<nat>): seq<Pos>
    decreases |hints|
  {
    if hints == [] then []
    else if hints[0] >= first && hints[0] !in used && Gives(y, hints[0], threshold, compact) then
      FreeSlots(hints[0], y[hints[0]]) + HintSlots(y, hints[1..], first, threshold, compact, used + {hints[0]})
    else HintSlots(y, hints[1..], first, threshold, compact, used)
  }

  ghost function OldSlots(y: Layout, q: seq<nat>, hints: seq<nat>, first: nat, threshold: nat, compact: bool): seq<Pos> {
    QueueSlots(y, q, first) + HintSlots(y, hints, first, threshold, compact, Usable(q, first))
  }

  ghost function LocOfPos(g: Geometry, x: Pos): nat { if g.loc.requires(x.page, x.off) then g.loc(x.page, x.off) else 0 }

  /** The locations of the first n slots: old ones, then those from the frontier on. */
  ghost function FirstOf(g: Geometry, slots: seq<Pos>, cur: nat, n: nat): seq<nat> {
    seq(n, i requires 0 <= i < n => if i < |slots| then LocOfPos(g, slots[i]) else cur + (i - |slots|))
  }

  /** Cutting early loses nothing. */
  lemma CutTwice(a: seq<Pos>, b: seq<Pos>, c: seq<Pos>, n: nat)
    requires |a| <= n
    ensures Cut(a + Cut(b, n - |a|) + c, n) == Cut(a + (b + c), n)
  {
    if |b| <= n - |a| {
      assert a + b + c == a + (b + c);
    } else {
      assert (a + b[..n - |a|] + c)[..n] == a + b[..n - |a|] == (a + (b + c))[..n];
    }
  }

  lemma CutDone(a: seq<Pos>, b: seq<Pos>, n: nat)
    requires |a| == n || (|a| <= n && b == [])
    ensures Cut(a + b, n) == a
  {
    assert b == [] ==> a + b == a;
  }

  /** One queued page: below the first usable page it gives nothing. */
  lemma QueueSkip(y: Layout, q: seq<nat>, first: nat)
    requires q != [] && q[0] < first
    ensures QueueSlots(y, q[1..], first) == QueueSlots(y, q, first)
  {
    assert [] + QueueSlots(y, q[1..], first) == QueueSlots(y, q, first);
  }

  lemma QueueStep(y: Layout, q: seq<nat>, first: nat, taken: seq<Pos>, n: nat)
    requires q != [] && q[0] in y && q[0] >= first && |taken| <= n
    ensures Cut(taken + Cut(FreeSlots(q[0], y[q[0]]), n - |taken|) + QueueSlots(y, q[1..], first), n) == Cut(taken + QueueSlots(y, q, first), n)
  {
    CutTwice(taken, FreeSlots(q[0], y[q[0]]), QueueSlots(y, q[1..], first), n);
  }

  /** One hinted page. */
  lemma HintStep(y0: Layout, y: Layout, hints: seq<nat>, first: nat, threshold: nat, compact: bool, taken: seq<Pos>, n: nat)
    requires Took(y0, y, taken) && y.Keys == y0.Keys && FullPages(y, taken) && 1 <= threshold && |taken| <= n && hints != []
    ensures var p, used := hints[0], PagesOf(taken);
            var all := Cut(taken + HintSlots(y0, hints, first, threshold, compact, used), n);
            if p >= first && Gives(y, p, threshold, compact) then
              p in y0 && Cut(taken + Cut(FreeSlots(p, y0[p]), n - |taken|)
                + HintSlots(y0, hints[1..], first, threshold, compact, used + {p}), n) == all
            else Cut(taken + HintSlots(y0, hints[1..], first, threshold, compact, used), n) == all
  {
    var p, used := hints[0], PagesOf(taken);
    GivesSame(y0, y, taken, p, threshold, compact);
    if p >= first && Gives(y, p, threshold, compact) {
      CutTwice(taken, FreeSlots(p, y0[p]), HintSlots(y0, hints[1..], first, threshold, compact, used + {p}), n);
    }
  }

  /** Whether a hinted page gives slots can be seen in the layout before anything was taken. */
  lemma GivesSame(y0: Layout, y: Layout, taken: seq<Pos>, p: nat, threshold: nat, compact: bool)
    requires Took(y0, y, taken) && y.Keys == y0.Keys && FullPages(y, taken) && 1 <= threshold
    ensures Gives(y, p, threshold, compact) <==> p !in PagesOf(taken) && Gives(y0, p, threshold, compact)
  {
    if p in PagesOf(taken) {
      var i :| 0 <= i < |taken| && taken[i].page == p;
      HolesMean(y[p]);
    } else if p in y {
      TookRow(y0, y, taken, p);
    }
  }

  /** The slots are given by their locations. */
  lemma FirstAre(g: Geometry, locs: seq<nat>, locs0: seq<nat>, taken0: seq<Pos>, cur: nat, n: nat)
    requires LocsAre(g, locs0, taken0) && |locs0| <= n == |locs| && locs[..|locs0|] == locs0
    requires forall j :: |locs0| <= j < n ==> locs[j] == cur + (j - |locs0|)
    ensures locs == FirstOf(g, taken0, cur, n)
  {
    forall i | 0 <= i < n ensures locs[i] == FirstOf(g, taken0, cur, n)[i] {
      if i < |locs0| { assert locs0[i] == locs[..|locs0|][i]; }
    }
  }

  /** The first slot of the first queued page comes first. */
  lemma HeadOfQueue(g: Geometry, y: Layout, q: seq<nat>, hints: seq<nat>, first: nat, threshold: nat, compact: bool, cur: nat, n: nat)
    requires n > 0 && q != [] && q[0] >= first && q[0] in y && y[q[0]] != [] && AllFree(y[q[0]])
    ensures FirstOf(g, OldSlots(y, q, hints, first, threshold, compact), cur, n)[0] == LocOfPos(g, Pos(q[0], 0))
  {
    var row := y[q[0]];
    FreeSlotsPrefix(q[0], row, 1);
    assert row[..1][..0] == [];
    assert FreeSlots(q[0], row[..1]) == [Pos(q[0], 0)];
  }

  // ---------------------------------------------------------------- which slots these are

  ghost predicate FreeAt(y: Layout, x: Pos) { x.page in y && x.off < |y[x.page]| && y[x.page][x.off].Free? }

  /** Page by page in the order of the queue, and within a page in ascending order. */
  ghost predicate InOrder(slots: seq<Pos>, q: seq<nat>) {
    forall i, j, k, l :: 0 <= i < j < |slots| && 0 <= k < |q| && 0 <= l < |q| && slots[i].page == q[k] && slots[j].page == q[l] ==>
      k < l || (k == l && slots[i].off < slots[j].off)
  }

  /** Rule 1 gives exactly the free slots of the usable queued pages, in this order. */
  lemma {:induction false} QueueSlotsAre(y: Layout, q: seq<nat>, first: nat)
    requires Distinct(q)
    ensures forall x :: x in QueueSlots(y, q, first) <==> x.page in q && x.page >= first && FreeAt(y, x)
    ensures InOrder(QueueSlots(y, q, first), q)
    decreases |q|
  {
    if q != [] {
      QueueSlotsAre(y, q[1..], first);
      var head := if q[0] >= first && q[0] in y then FreeSlots(q[0], y[q[0]]) else [];
      if q[0] in y { FreeSlotsAre(q[0], y[q[0]]); }
      QueueJoin(y, q, first, head, QueueSlots(y, q[1..], first));
    }
  }

  lemma QueueJoin(y: Layout, q: seq<nat>, first: nat, head: seq<Pos>, rest: seq<Pos>)
    requires q != [] && Distinct(q)
    requires forall x :: x in head <==> x.page == q[0] && x.page >= first && FreeAt(y, x)
    requires forall i, j :: 0 <= i < j < |head| ==> head[i].off < head[j].off
    requires forall x :: x in rest <==> x.page in q[1..] && x.page >= first && FreeAt(y, x)
    requires InOrder(rest, q[1..])
    ensures forall x :: x in head + rest <==> x.page in q && x.page >= first && FreeAt(y, x)
    ensures InOrder(head + rest, q)
  {
    var all, n := head + rest, |head|;
    forall i, j, k, l | 0 <= i < j < |all| && 0 <= k < |q| && 0 <= l < |q| && all[i].page == q[k] && all[j].page == q[l]
      ensures k < l || (k == l && all[i].off < all[j].off)
    {
      if i < n { assert head[i] in head && k == 0; } else { assert rest[i - n] in rest && q[k] in q[1..] && k > 0; }
      if j < n { assert head[j] in head && l == 0; } else { assert rest[j - n] in rest && q[l] in q[1..] && l > 0; }
      if i >= n { assert rest[i - n].page == q[1..][k - 1] && rest[j - n].page == q[1..][l - 1]; }
    }
  }

  /** Rule 2 gives exactly the free slots of the hinted pages that give any and are not used yet. */
  lemma {:induction false} HintSlotsAre(y: Layout, hints: seq<nat>, first: nat, threshold: nat, compact: bool, used: set<nat>)
    ensures forall x :: x in HintSlots(y, hints, first, threshold, compact, used) <==>
      x.page in hints && x.page >= first && x.page !in used && FreeAt(y, x) && (compact || Holes(y[x.page]) >= threshold)
    decreases |hints|
  {
    if hints != [] {
      var p := hints[0];
      HintSlotsAre(y, hints[1..], first, threshold, compact, used + {p});
      HintSlotsAre(y, hints[1..], first, threshold, compact, used);
      if p in y {
        FreeSlotsAre(p, y[p]);
        HolesMean(y[p]);
      }
      assert forall z :: z in hints <==> z == p || z in hints[1..];
    }
  }

  // ---------------------------------------------------------------- what the answer avoids

  /** A free slot of a page that may be used. */
  ghost predicate UsableAt(y: Layout, first: nat, x: Pos) {
    x.page >= first && x.page in y && x.off < |y[x.page]| && y[x.page][x.off].Free?
  }

  lemma FreeSlotsUsable(y: Layout, p: nat, first: nat)
    requires p in y && p >= first
    ensures forall i :: 0 <= i < |FreeSlots(p, y[p])| ==> UsableAt(y, first, FreeSlots(p, y[p])[i])
  {
    FreeSlotsAre(p, y[p]);
    forall i | 0 <= i < |FreeSlots(p, y[p])| ensures UsableAt(y, first, FreeSlots(p, y[p])[i]) {
      assert FreeSlots(p, y[p])[i] in FreeSlots(p, y[p]);
    }
  }

  lemma {:induction false} QueueSlotsUsable(y: Layout, q: seq<nat>, first: nat)
    ensures forall i :: 0 <= i < |QueueSlots(y, q, first)| ==> UsableAt(y, first, QueueSlots(y, q, first)[i])
    decreases |q|
  {
    if q != [] {
      QueueSlotsUsable(y, q[1..], first);
      if q[0] in y && q[0] >= first { FreeSlotsUsable(y, q[0], first); }
    }
  }

  lemma {:induction false} HintSlotsUsable(y: Layout, hints: seq<nat>, first: nat, threshold: nat, compact: bool, used: set<nat>)
    ensures forall i :: 0 <= i < |HintSlots(y, hints, first, threshold, compact, used)| ==>
              UsableAt(y, first, HintSlots(y, hints, first, threshold, compact, used)[i])
    decreases |hints|
  {
    if hints != [] {
      HintSlotsUsable(y, hints[1..], first, threshold, compact, used + {hints[0]});
      HintSlotsUsable(y, hints[1..], first, threshold, compact, used);
      if hints[0] in y && hints[0] >= first { FreeSlotsUsable(y, hints[0], first); }
    }
  }

  /** Locations on pages that may be used, or from the page `front` on. */
  ghost predicate Above(g: Geometry, first: nat, front: nat, locs: seq<nat>) {
    forall i :: 0 <= i < |locs| ==> g.page(locs[i]) >= first || g.page(locs[i]) >= front
  }

  lemma AnswerAbove(g: Geometry, y: Layout, q: seq<nat>, hints: seq<nat>, first: nat, threshold: nat, compact: bool, cur: nat, n: nat,
                    gap: set<nat>)
    requires Sound(g) && RowsOk(y, g.npp, g.page(cur), gap)
    ensures Above(g, first, g.page(cur), FirstOf(g, OldSlots(y, q, hints, first, threshold, compact), cur, n))
  {
    var slots := OldSlots(y, q, hints, first, threshold, compact);
    QueueSlotsUsable(y, q, first);
    HintSlotsUsable(y, hints, first, threshold, compact, Usable(q, first));
    forall i | 0 <= i < n ensures g.page(FirstOf(g, slots, cur, n)[i]) >= (if i < |slots| then first else g.page(cur)) {
      if i < |slots| {
        assert UsableAt(y, first, slots[i]) && PairAt(g, slots[i].page, slots[i].off);
      } else if i > |slots| {
        PageMono(g, cur, cur + (i - |slots|));
      }
    }
  }

  lemma {:induction false} PageMono(g: Geometry, l: nat, l': nat)
    requires Sound(g) && l < l'
    ensures g.page(l) <= g.page(l') && (g.off(l') == 0 ==> g.page(l) < g.page(l'))
  {
    NextLoc(g, l' - 1);
    if l < l' - 1 { PageMono(g, l, l' - 1); }
  }

  lemma NextLoc(g: Geometry, l: nat)
    requires Sound(g)
    ensures if g.off(l) + 1 < g.npp then g.page(l + 1) == g.page(l) && g.off(l + 1) == g.off(l) + 1
            else g.page(l + 1) == g.page(l) + 1 && g.off(l + 1) == 0
  {
    var p, o := g.page(l), g.off(l);
    assert LocAt(g, l) && PairAt(g, p, o);
    if o + 1 < g.npp {
      assert PairAt(g, p, o + 1);
    } else {
      assert PairAt(g, p + 1, 0);
    }
  }
}
