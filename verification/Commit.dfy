/**
  Moving ids to freshly allocated slots, on values: how the id map, the slots that become
  stale, and the slot table change over the three phases of a commit
  (src/ssd_index.cpp and src/update/direct_insert.cpp, then `erase_and_set_loc`).
 */
module Commit {
  import opened Basics
  import opened PageLayout

  /** The id map after ids[0], ids[1], ... were pointed at locs[0], locs[1], ... in turn. */
  function Moved(m: map<nat, nat>, ids: seq<nat>, locs: seq<nat>): map<nat, nat>
    requires |ids| == |locs|
  {
    if ids == [] then m
    else
      var n := |ids| - 1;
      Moved(m, ids[..n], locs[..n])[ids[n] := locs[n]]
  }

  /** The locations that were replaced on the way. */
  function Stale(m: map<nat, nat>, ids: seq<nat>, locs: seq<nat>): seq<nat>
    requires |ids| == |locs|
  {
    if ids == [] then []
    else
      var n := |ids| - 1;
      var m' := Moved(m, ids[..n], locs[..n]);
      Replaced(m', ids[n], Stale(m, ids[..n], locs[..n]))
  }

  function Replaced(m: map<nat, nat>, id: nat, stale: seq<nat>): seq<nat> {
    if id in m then stale + [m[id]] else stale
  }

  ghost predicate Injective(m: map<nat, nat>) {
    forall a, b :: a in m && b in m && a != b ==> m[a] != m[b]
  }

  ghost predicate Avoids(m: map<nat, nat>, locs: seq<nat>) { forall id :: id in m ==> m[id] !in locs }

  ghost predicate Moves(ids: seq<nat>, locs: seq<nat>, id: nat, l: nat)
    requires |ids| == |locs|
  {
    exists j :: 0 <= j < |ids| && ids[j] == id && locs[j] == l
  }

  /** Every location that a map knows is current or stale in the later map. */
  ghost predicate Covered(m: map<nat, nat>, m': map<nat, nat>, stale: seq<nat>) {
    forall id :: id in m ==> id in m' && (m'[id] == m[id] || m[id] in stale)
  }

  ghost predicate NewCovered(ids: seq<nat>, locs: seq<nat>, m': map<nat, nat>, stale: seq<nat>)
    requires |ids| == |locs|
  {
    forall j :: 0 <= j < |ids| ==> ids[j] in m' && (m'[ids[j]] == locs[j] || locs[j] in stale)
  }

  ghost predicate Origin(m: map<nat, nat>, ids: seq<nat>, locs: seq<nat>, id: nat, l: nat)
    requires |ids| == |locs|
  {
    (id in m && m[id] == l) || Moves(ids, locs, id, l)
  }

  /** Where every old and new location ends up: current for one id, or stale. */
  ghost predicate Accounted(m: map<nat, nat>, ids: seq<nat>, locs: seq<nat>, m': map<nat, nat>, stale: seq<nat>)
    requires |ids| == |locs|
  {
    && Covered(m, m', stale) && NewCovered(ids, locs, m', stale)
    && (forall id :: id in m' ==> Origin(m, ids, locs, id, m'[id]))
    && (forall l :: l in stale ==> exists id :: Origin(m, ids, locs, id, l))
    && Avoids(m', stale) && Distinct(stale) && Injective(m')
  }

  lemma OriginStep(m: map<nat, nat>, ids: seq<nat>, locs: seq<nat>, n: nat, id: nat, l: nat)
    requires |ids| == |locs| == n + 1
    ensures Origin(m, ids[..n], locs[..n], id, l) ==> Origin(m, ids, locs, id, l)
    ensures Origin(m, ids, locs, ids[n], locs[n])
    ensures Distinct(locs) && Avoids(m, locs) && Origin(m, ids[..n], locs[..n], id, l) ==> l != locs[n]
  {
    assert ids[n] == ids[n] && locs[n] == locs[n];
    if Moves(ids[..n], locs[..n], id, l) {
      var j :| 0 <= j < n && ids[..n][j] == id && locs[..n][j] == l;
      assert ids[j] == id && locs[j] == l;
    }
  }

  lemma NewCoveredStep(ids: seq<nat>, locs: seq<nat>, n: nat, m': map<nat, nat>, stale: seq<nat>)
    requires |ids| == |locs| == n + 1 && NewCovered(ids[..n], locs[..n], m', stale)
    ensures NewCovered(ids, locs, m'[ids[n] := locs[n]], Replaced(m', ids[n], stale))
  {
    var m2, stale2 := m'[ids[n] := locs[n]], Replaced(m', ids[n], stale);
    forall j | 0 <= j < |ids| ensures ids[j] in m2 && (m2[ids[j]] == locs[j] || locs[j] in stale2) {
      if j < n { assert ids[..n][j] == ids[j] && locs[..n][j] == locs[j]; }
    }
  }

  /** Pointing one more id elsewhere keeps the map injective and its values not stale. */
  lemma OneMove(m: map<nat, nat>, id: nat, l: nat, stale: seq<nat>)
    requires Injective(m) && Avoids(m, stale) && Distinct(stale) && l !in stale && (forall a :: a in m ==> m[a] != l)
    ensures Injective(m[id := l]) && Avoids(m[id := l], Replaced(m, id, stale)) && Distinct(Replaced(m, id, stale))
  {
  }

  lemma CoveredStep(m: map<nat, nat>, m': map<nat, nat>, id: nat, l: nat, stale: seq<nat>)
    requires Covered(m, m', stale)
    ensures Covered(m, m'[id := l], Replaced(m', id, stale))
  {
  }

  lemma AccountedStep(m: map<nat, nat>, ids: seq<nat>, locs: seq<nat>, n: nat, m': map<nat, nat>, stale: seq<nat>)
    requires |ids| == |locs| == n + 1 && Distinct(locs) && Avoids(m, locs)
    requires Accounted(m, ids[..n], locs[..n], m', stale)
    ensures Accounted(m, ids, locs, m'[ids[n] := locs[n]], Replaced(m', ids[n], stale))
  {
    var id, l := ids[n], locs[n];
    var stale2 := Replaced(m', id, stale);
    forall a, x ensures Origin(m, ids[..n], locs[..n], a, x) ==> Origin(m, ids, locs, a, x) && x != l {
      OriginStep(m, ids, locs, n, a, x);
    }
    OriginStep(m, ids, locs, n, id, l);
    forall x | x in stale2 ensures exists a :: Origin(m, ids, locs, a, x) {
      if x in stale {
        var a :| Origin(m, ids[..n], locs[..n], a, x);
        assert Origin(m, ids, locs, a, x);
      } else {
        assert Origin(m, ids, locs, id, x);
      }
    }
    NewCoveredStep(ids, locs, n, m', stale);
    CoveredStep(m, m', id, l, stale);
    OneMove(m', id, l, stale);
  }

  lemma {:induction false} CommitAccounted(m: map<nat, nat>, ids: seq<nat>, locs: seq<nat>)
    requires |ids| == |locs| && Distinct(locs) && Avoids(m, locs) && Injective(m)
    ensures Accounted(m, ids, locs, Moved(m, ids, locs), Stale(m, ids, locs))
    decreases |ids|
  {
    if ids != [] {
      var n := |ids| - 1;
      CommitAccounted(m, ids[..n], locs[..n]);
      AccountedStep(m, ids, locs, n, Moved(m, ids[..n], locs[..n]), Stale(m, ids[..n], locs[..n]));
    }
  }

  /** The slot is somebody's, or on a page that is not in the table. */
  ghost predicate Taken(y: Layout, g: Geometry, gap: set<nat>, l: nat) { g.page(l) in gap || LookUp(y, g, l).Live? }

  /** What keeps records from being overwritten: every id has a location of its own, whose slot is
      not free.  The slots in `stale` are not free either, and nobody's. */
  ghost predicate Guards(y: Layout, m: map<nat, nat>, g: Geometry, gap: set<nat>, stale: seq<nat>) {
    && Injective(m) && Distinct(stale) && Avoids(m, stale)
    && (forall id :: id in m ==> Taken(y, g, gap, m[id]))
    && (forall l :: l in stale ==> Taken(y, g, gap, l))
  }

  lemma MapsGuard(y: Layout, m: map<nat, nat>, g: Geometry, stale: seq<nat>)
    requires MapsExcept(y, m, g, stale)
    ensures Guards(y, m, g, {}, stale)
  {
    forall a, b | a in m && b in m && a != b ensures m[a] != m[b] {
      assert LookUp(y, g, m[a]) == Live(a) && LookUp(y, g, m[b]) == Live(b);
    }
  }

  /** Reserved slots are nobody's. */
  lemma GuardsAvoid(y: Layout, m: map<nat, nat>, g: Geometry, f: nat, gap: set<nat>, locs: seq<nat>)
    requires RowsOk(y, g.npp, f, gap) && Guards(y, m, g, gap, []) && forall l :: l in locs ==> LookUp(y, g, l).Allocated?
    ensures Avoids(m, locs)
  {
    forall id | id in m ensures m[id] !in locs { assert Taken(y, g, gap, m[id]); }
  }

  lemma OriginTaken(y0: Layout, y: Layout, g: Geometry, gap: set<nat>, m: map<nat, nat>, ids: seq<nat>, locs: seq<nat>, id: nat, l: nat)
    requires |ids| == |locs| && Avoids(m, locs) && Guards(y0, m, g, gap, []) && AllSet(y0, y, g, ids, locs)
    requires Origin(m, ids, locs, id, l)
    ensures Taken(y, g, gap, l)
  {
    if Moves(ids, locs, id, l) {
      var j :| 0 <= j < |ids| && ids[j] == id && locs[j] == l;
      assert LookUp(y, g, locs[j]) == Live(ids[j]);
    } else {
      assert Taken(y0, g, gap, m[id]);
    }
  }

  /** After the set phase. */
  lemma SetGuards(y0: Layout, y: Layout, g: Geometry, f: nat, gap: set<nat>, m: map<nat, nat>, ids: seq<nat>, locs: seq<nat>)
    requires |ids| == |locs| && Distinct(locs) && RowsOk(y0, g.npp, f, gap) && Guards(y0, m, g, gap, []) && AllSet(y0, y, g, ids, locs)
    requires forall l :: l in locs ==> LookUp(y0, g, l).Allocated?
    ensures Guards(y, Moved(m, ids, locs), g, gap, Stale(m, ids, locs))
  {
    var m', stale := Moved(m, ids, locs), Stale(m, ids, locs);
    GuardsAvoid(y0, m, g, f, gap, locs);
    CommitAccounted(m, ids, locs);
    forall id | id in m' ensures Taken(y, g, gap, m'[id]) { OriginTaken(y0, y, g, gap, m, ids, locs, id, m'[id]); }
    forall l | l in stale ensures Taken(y, g, gap, l) {
      var id :| Origin(m, ids, locs, id, l);
      OriginTaken(y0, y, g, gap, m, ids, locs, id, l);
    }
  }

  /** The layout once a slot is looked up by upsert: a page that is not there appears with zeros. */
  function Shown(y: Layout, g: Geometry, l: nat): Layout {
    if g.page(l) in y then y else y[g.page(l) := seq(g.npp, _ => Live(0))]
  }

  function Erased(y: Layout, g: Geometry, l: nat): Layout { Put(Shown(y, g, l), g.page(l), g.off(l), Free) }

  lemma ErasedLookUp(y: Layout, g: Geometry, f: nat, gap: set<nat>, l: nat, x: nat)
    requires Sound(g) && RowsOk(y, g.npp, f, gap) && Taken(y, g, gap, l)
    ensures LookUp(Erased(y, g, l), g, x) == if x == l then Free else LookUp(Shown(y, g, l), g, x)
    ensures g.page(x) != g.page(l) || g.page(l) in y ==> LookUp(Shown(y, g, l), g, x) == LookUp(y, g, x)
    ensures g.page(x) == g.page(l) && g.page(l) !in y ==> LookUp(Shown(y, g, l), g, x) == Live(0) && LookUp(y, g, x) == Free
  {
    assert LocAt(g, l) && LocAt(g, x);
    PutLookUp(Shown(y, g, l), g, l, Free, x);
  }

  /** Erasing one stale slot, whose page may not be there. */
  lemma EraseGuards(y: Layout, g: Geometry, f: nat, gap: set<nat>, m: map<nat, nat>, stale: seq<nat>)
    requires Sound(g) && RowsOk(y, g.npp, f, gap) && stale != [] && Guards(y, m, g, gap, stale)
    ensures RowsOk(Erased(y, g, stale[0]), g.npp, f, gap - {g.page(stale[0])})
    ensures Guards(Erased(y, g, stale[0]), m, g, gap - {g.page(stale[0])}, stale[1..])
  {
    var l := stale[0];
    var y', gap' := Erased(y, g, l), gap - {g.page(l)};
    assert LocAt(g, l) && l !in stale[1..] && Taken(y, g, gap, l);
    forall x: nat | x != l && Taken(y, g, gap, x) ensures Taken(y', g, gap', x) { ErasedLookUp(y, g, f, gap, l, x); }
    forall x | x in stale[1..] ensures Taken(y', g, gap', x) { assert x in stale; }
  }

  /** The slot table after all new slots were set and before any stale one is erased. */
  ghost predicate AllSet(y0: Layout, y: Layout, g: Geometry, ids: seq<nat>, locs: seq<nat>)
    requires |ids| == |locs|
  {
    && (forall j :: 0 <= j < |ids| ==> LookUp(y, g, locs[j]) == Live(ids[j]))
    && (forall l :: l !in locs ==> LookUp(y, g, l) == LookUp(y0, g, l))
  }

  lemma MapsInjective(y: Layout, m: map<nat, nat>, g: Geometry, locs: seq<nat>)
    requires MapsExcept(y, m, g, []) && forall l :: l in locs ==> LookUp(y, g, l).Allocated?
    ensures Injective(m) && Avoids(m, locs)
  {
    forall a, b | a in m && b in m && a != b ensures m[a] != m[b] {
      assert LookUp(y, g, m[a]) == Live(a) && LookUp(y, g, m[b]) == Live(b);
    }
  }

  lemma SetOrigin(y0: Layout, y: Layout, g: Geometry, m: map<nat, nat>, ids: seq<nat>, locs: seq<nat>, id: nat, l: nat)
    requires |ids| == |locs| && Avoids(m, locs) && MapsExcept(y0, m, g, []) && AllSet(y0, y, g, ids, locs)
    requires Origin(m, ids, locs, id, l)
    ensures LookUp(y, g, l) == Live(id)
  {
    if Moves(ids, locs, id, l) {
      var j :| 0 <= j < |ids| && ids[j] == id && locs[j] == l;
      assert LookUp(y, g, locs[j]) == Live(ids[j]);
    } else {
      assert LookUp(y0, g, m[id]) == Live(id);
    }
  }

  /** After the set phase, the maps agree up to the stale slots. */
  lemma SetPhase(y0: Layout, y: Layout, g: Geometry, m: map<nat, nat>, ids: seq<nat>, locs: seq<nat>)
    requires |ids| == |locs| && Distinct(locs) && MapsExcept(y0, m, g, []) && AllSet(y0, y, g, ids, locs)
    requires forall l :: l in locs ==> LookUp(y0, g, l).Allocated?
    ensures MapsExcept(y, Moved(m, ids, locs), g, Stale(m, ids, locs))
  {
    var m', stale := Moved(m, ids, locs), Stale(m, ids, locs);
    MapsInjective(y0, m, g, locs);
    CommitAccounted(m, ids, locs);
    forall l | LookUp(y, g, l).Live? && l !in stale
      ensures LookUp(y, g, l).id in m' && m'[LookUp(y, g, l).id] == l
    {
      if l in locs {
        var j :| 0 <= j < |locs| && locs[j] == l;
        assert LookUp(y, g, locs[j]) == Live(ids[j]);
      }
    }
    forall id | id in m' ensures LookUp(y, g, m'[id]) == Live(id) && m'[id] !in stale {
      SetOrigin(y0, y, g, m, ids, locs, id, m'[id]);
    }
    forall l | l in stale ensures LookUp(y, g, l).Live? {
      var id :| Origin(m, ids, locs, id, l);
      SetOrigin(y0, y, g, m, ids, locs, id, l);
    }
  }

  /** Erasing one stale slot. */
  lemma EraseStale(y: Layout, m: map<nat, nat>, g: Geometry, stale: seq<nat>)
    requires Sound(g) && MapsExcept(y, m, g, stale) && stale != [] && Exists(y, g, stale[0])
    ensures MapsExcept(Put(y, g.page(stale[0]), g.off(stale[0]), Free), m, g, stale[1..])
  {
    var l0 := stale[0];
    var y' := Put(y, g.page(l0), g.off(l0), Free);
    assert l0 !in stale[1..];
    forall l: nat ensures LookUp(y', g, l) == if l == l0 then Free else LookUp(y, g, l) { PutLookUp(y, g, l0, Free, l); }
    forall id | id in m ensures LookUp(y', g, m[id]) == Live(id) && m[id] !in stale[1..] {
      assert LookUp(y, g, m[id]) == Live(id) && m[id] !in stale;
    }
    forall l | l in stale[1..] ensures LookUp(y', g, l).Live? { assert l in stale; }
  }

  // ---------------------------------------------------------------- commits in progress

  /** A commit whose ids already point at the new locations, while the slot table is still to be
      changed. */
  datatype Flight = Flight(ids: seq<nat>, locs: seq<nat>, origs: seq<nat>)

  ghost predicate AllocatedAll(y: Layout, g: Geometry, locs: seq<nat>) {
    forall l :: l in locs ==> LookUp(y, g, l).Allocated?
  }

  /** The flight's new locations are reserved, its ids point there, and its old locations are those
      of the settled id map. */
  ghost predicate FlightOk(y: Layout, g: Geometry, settled: map<nat, nat>, m: map<nat, nat>, f: Flight) {
    && |f.ids| == |f.locs| && Distinct(f.locs) && AllocatedAll(y, g, f.locs)
    && f.origs == Stale(settled, f.ids, f.locs)
    && Agree(m, Moved(settled, f.ids, f.locs), f.ids)
  }

  ghost predicate Agree(m: map<nat, nat>, m': map<nat, nat>, ids: seq<nat>) {
    forall id :: id in ids ==> (id in m <==> id in m') && (id in m && id in m' ==> m[id] == m'[id])
  }

  ghost predicate Apart(f: Flight, f': Flight) {
    (forall id :: id in f.ids ==> id !in f'.ids) && (forall l :: l in f.locs ==> l !in f'.locs)
  }

  ghost predicate Flying(fs: set<Flight>, id: nat) { exists f :: f in fs && id in f.ids }

  /** The id map is the settled one, except for the ids of commits in progress. */
  ghost predicate FlightsOk(y: Layout, g: Geometry, settled: map<nat, nat>, m: map<nat, nat>, fs: set<Flight>) {
    && (forall f :: f in fs ==> FlightOk(y, g, settled, m, f))
    && (forall f, f' :: f in fs && f' in fs && f != f' ==> Apart(f, f'))
    && (forall id: nat :: Flying(fs, id) || SameAt(m, settled, id))
  }

  lemma NoFlights(y: Layout, g: Geometry, settled: map<nat, nat>, m: map<nat, nat>)
    requires FlightsOk(y, g, settled, m, {})
    ensures m == settled
  {
    forall id: nat ensures (id in m <==> id in settled) && (id in m && id in settled ==> m[id] == settled[id]) {
      assert !Flying({}, id) && SameAt(m, settled, id);
    }
  }

  lemma NoFlightsOk(y: Layout, g: Geometry, m: map<nat, nat>)
    ensures FlightsOk(y, g, m, m, {})
  {
  }

  /** Moves only look at the ids they move. */
  lemma {:induction false} MovesAgree(m: map<nat, nat>, m': map<nat, nat>, ids: seq<nat>, locs: seq<nat>)
    requires |ids| == |locs| && Agree(m, m', ids)
    ensures Stale(m, ids, locs) == Stale(m', ids, locs) && Agree(Moved(m, ids, locs), Moved(m', ids, locs), ids)
    decreases |ids|
  {
    if ids != [] {
      var n := |ids| - 1;
      assert Agree(m, m', ids[..n]);
      MovesAgree(m, m', ids[..n], locs[..n]);
      MovedElsewhere(m, ids[..n], locs[..n], ids[n]);
      MovedElsewhere(m', ids[..n], locs[..n], ids[n]);
      forall id | id in ids && id != ids[n] ensures id in ids[..n] { }
    }
  }

  lemma {:induction false} MovedElsewhere(m: map<nat, nat>, ids: seq<nat>, locs: seq<nat>, id: nat)
    requires |ids| == |locs|
    ensures id in ids ==> id in Moved(m, ids, locs)
    ensures id !in ids ==> (id in Moved(m, ids, locs) <==> id in m) && (id in m ==> Moved(m, ids, locs)[id] == m[id])
    decreases |ids|
  {
    if ids != [] {
      var n := |ids| - 1;
      MovedElsewhere(m, ids[..n], locs[..n], id);
      assert ids == ids[..n] + [ids[n]];
    }
  }

  /** A flight stays in order while reserved slots stay reserved and other ids settle. */
  lemma FlightKept(y: Layout, y': Layout, g: Geometry, settled: map<nat, nat>, settled': map<nat, nat>, m: map<nat, nat>, m': map<nat, nat>, f: Flight)
    requires FlightOk(y, g, settled, m, f) && AllocatedAll(y', g, f.locs) && Agree(settled, settled', f.ids) && Agree(m, m', f.ids)
    ensures FlightOk(y', g, settled', m', f)
  {
    MovesAgree(settled, settled', f.ids, f.locs);
  }

  /** Allocation does not touch commits in progress. */
  lemma FlightsAlloc(y: Layout, y': Layout, taken: seq<Pos>, g: Geometry, settled: map<nat, nat>, m: map<nat, nat>, fs: set<Flight>)
    requires FlightsOk(y, g, settled, m, fs) && Took(y, y', taken)
    ensures FlightsOk(y', g, settled, m, fs)
  {
    forall f | f in fs ensures FlightOk(y', g, settled, m, f) {
      forall l | l in f.locs ensures LookUp(y', g, l).Allocated? {
        assert LookUp(y, g, l).Allocated?;
        assert At(y', g.page(l), g.off(l)) == if Pos(g.page(l), g.off(l)) in taken then Allocated else At(y, g.page(l), g.off(l));
      }
      FlightKept(y, y', g, settled, settled, m, m, f);
    }
  }

  function Grown(f: Flight, m: map<nat, nat>, id: nat, l: nat): Flight {
    Flight(f.ids + [id], f.locs + [l], f.origs + if id in m then [m[id]] else [])
  }

  const EMPTY := Flight([], [], [])

  lemma EmptyFlight(y: Layout, g: Geometry, settled: map<nat, nat>, m: map<nat, nat>, fs: set<Flight>)
    requires FlightsOk(y, g, settled, m, fs)
    ensures FlightsOk(y, g, settled, m, fs + {EMPTY})
  {
    forall id: nat | !Flying(fs + {EMPTY}, id) ensures !Flying(fs, id) { NotFlying(fs, EMPTY, id); }
  }

  /** A flight gets one more id, which no other flight is moving, and points it at a reserved location
      that no flight has. */
  lemma FlightGrows(y: Layout, g: Geometry, settled: map<nat, nat>, m: map<nat, nat>, fs: set<Flight>, f: Flight, id: nat, l: nat)
    requires FlightsOk(y, g, settled, m, fs) && f in fs && LookUp(y, g, l).Allocated?
    requires !Flying(fs - {f}, id) && forall e :: e in fs ==> l !in e.locs
    ensures FlightsOk(y, g, settled, m[id := l], fs - {f} + {Grown(f, m, id, l)})
  {
    var f', m', others := Grown(f, m, id, l), m[id := l], fs - {f};
    GrownOk(y, g, settled, m, fs, f, id, l);
    forall e | e in others ensures Beside(y, g, settled, m', e, f') {
      assert Apart(e, f) && Apart(f, e) && FlightOk(y, g, settled, m, e);
      BesideGrown(y, g, settled, m, others, f, id, l, e);
    }
    forall x: nat ensures Flying(others + {f'}, x) || SameAt(m', settled, x) { GrownView(y, g, settled, m, fs, f, id, l, x); }
    FlightsJoin(y, g, settled, m', others, f');
  }

  ghost predicate SameAt(m: map<nat, nat>, m': map<nat, nat>, x: nat) { (x in m <==> x in m') && (x in m && x in m' ==> m[x] == m'[x]) }

  ghost predicate Beside(y: Layout, g: Geometry, settled: map<nat, nat>, m: map<nat, nat>, e: Flight, f: Flight) {
    FlightOk(y, g, settled, m, e) && Apart(e, f) && Apart(f, e)
  }

  lemma FlightsJoin(y: Layout, g: Geometry, settled: map<nat, nat>, m: map<nat, nat>, others: set<Flight>, f: Flight)
    requires FlightOk(y, g, settled, m, f) && (forall e :: e in others ==> Beside(y, g, settled, m, e, f))
    requires forall e, e' :: e in others && e' in others && e != e' ==> Apart(e, e')
    requires forall x: nat :: Flying(others + {f}, x) || SameAt(m, settled, x)
    ensures FlightsOk(y, g, settled, m, others + {f})
  {
    forall e | e in others + {f} ensures FlightOk(y, g, settled, m, e) { assert e in others ==> Beside(y, g, settled, m, e, f); }
    forall e, e' | e in others + {f} && e' in others + {f} && e != e' ensures Apart(e, e') {
      if e in others && e' !in others { assert Beside(y, g, settled, m, e, f); }
      if e' in others && e !in others { assert Beside(y, g, settled, m, e', f); }
    }
  }

  lemma GrownView(y: Layout, g: Geometry, settled: map<nat, nat>, m: map<nat, nat>, fs: set<Flight>, f: Flight, id: nat, l: nat, x: nat)
    requires FlightsOk(y, g, settled, m, fs) && f in fs
    ensures Flying(fs - {f} + {Grown(f, m, id, l)}, x) || SameAt(m[id := l], settled, x)
  {
    GrownFlying(fs, f, Grown(f, m, id, l), x);
    assert Flying(fs, x) || SameAt(m, settled, x);
  }

  lemma BesideGrown(y: Layout, g: Geometry, settled: map<nat, nat>, m: map<nat, nat>, others: set<Flight>, f: Flight, id: nat, l: nat, e: Flight)
    requires e in others && FlightOk(y, g, settled, m, e) && Apart(e, f) && Apart(f, e) && !Flying(others, id) && l !in e.locs
    ensures Beside(y, g, settled, m[id := l], e, Grown(f, m, id, l))
  {
    assert id !in e.ids;
    FlightKept(y, y, g, settled, settled, m, m[id := l], e);
  }

  lemma GrownFlying(fs: set<Flight>, f: Flight, f': Flight, x: nat)
    requires f.ids <= f'.ids
    ensures Flying(fs, x) || x in f'.ids ==> Flying(fs - {f} + {f'}, x)
  {
    var fs' := fs - {f} + {f'};
    assert f' in fs';
    if e :| e in fs && x in e.ids && e != f { assert e in fs'; }
    if x in f.ids {
      var i :| 0 <= i < |f.ids| && f.ids[i] == x;
      assert f'.ids[i] == x;
    }
  }

  /** The id map at an id that no other flight is moving. */
  lemma OwnView(y: Layout, g: Geometry, settled: map<nat, nat>, m: map<nat, nat>, fs: set<Flight>, f: Flight, id: nat)
    requires FlightsOk(y, g, settled, m, fs) && f in fs && !Flying(fs - {f}, id)
    ensures var done := Moved(settled, f.ids, f.locs); (id in m <==> id in done) && (id in m ==> m[id] == done[id])
  {
    assert FlightOk(y, g, settled, m, f);
    MovedElsewhere(settled, f.ids, f.locs, id);
    if id !in f.ids { StillFlying(fs, f, id); }
  }

  lemma MovedSnoc(m: map<nat, nat>, ids: seq<nat>, locs: seq<nat>, id: nat, l: nat)
    requires |ids| == |locs|
    ensures Moved(m, ids + [id], locs + [l]) == Moved(m, ids, locs)[id := l]
    ensures Stale(m, ids + [id], locs + [l]) == Replaced(Moved(m, ids, locs), id, Stale(m, ids, locs))
  {
    assert (ids + [id])[..|ids|] == ids && (locs + [l])[..|locs|] == locs;
  }

  lemma GrownOk(y: Layout, g: Geometry, settled: map<nat, nat>, m: map<nat, nat>, fs: set<Flight>, f: Flight, id: nat, l: nat)
    requires FlightsOk(y, g, settled, m, fs) && f in fs && LookUp(y, g, l).Allocated?
    requires !Flying(fs - {f}, id) && l !in f.locs
    ensures FlightOk(y, g, settled, m[id := l], Grown(f, m, id, l))
  {
    assert FlightOk(y, g, settled, m, f);
    OwnView(y, g, settled, m, fs, f, id);
    MovedSnoc(settled, f.ids, f.locs, id, l);
    AgreeMore(m, Moved(settled, f.ids, f.locs), f.ids, id, l);
  }

  lemma AgreeMore(m: map<nat, nat>, m': map<nat, nat>, ids: seq<nat>, id: nat, l: nat)
    requires Agree(m, m', ids)
    ensures Agree(m[id := l], m'[id := l], ids + [id])
  {
  }

  lemma NotFlying(fs: set<Flight>, f: Flight, id: nat)
    ensures !Flying(fs + {f}, id) ==> !Flying(fs, id)
  {
    if Flying(fs, id) {
      var e :| e in fs && id in e.ids;
      assert e in fs + {f};
    }
  }

  /** A finished commit: its ids have settled, and its locations are no longer reserved. */
  lemma FlightEnds(y: Layout, y': Layout, g: Geometry, settled: map<nat, nat>, m: map<nat, nat>, fs: set<Flight>, f: Flight)
    requires FlightsOk(y, g, settled, m, fs) && f in fs
    requires forall l :: LookUp(y', g, l).Allocated? <==> LookUp(y, g, l).Allocated? && l !in f.locs
    ensures FlightsOk(y', g, Moved(settled, f.ids, f.locs), m, fs - {f})
  {
    var s' := Moved(settled, f.ids, f.locs);
    assert FlightOk(y, g, settled, m, f);
    forall id: nat ensures id !in f.ids ==> (id in s' <==> id in settled) && (id in settled ==> s'[id] == settled[id]) {
      MovedElsewhere(settled, f.ids, f.locs, id);
    }
    forall e | e in fs - {f} ensures FlightOk(y', g, s', m, e) {
      assert Apart(e, f) && FlightOk(y, g, settled, m, e);
      FlightKept(y, y', g, settled, s', m, m, e);
    }
    forall id: nat | !Flying(fs - {f}, id) ensures SameAt(m, s', id) {
      if id !in f.ids {
        StillFlying(fs, f, id);
        assert SameAt(m, settled, id);
      }
    }
  }

  lemma StillFlying(fs: set<Flight>, f: Flight, id: nat)
    requires id !in f.ids
    ensures Flying(fs, id) ==> Flying(fs - {f}, id)
  {
    if Flying(fs, id) {
      var e :| e in fs && id in e.ids;
      assert e in fs - {f};
    }
  }
}
