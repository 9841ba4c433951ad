/**
  A crash in the middle of inserts, followed by recovery: what the allocator rebuilt from the
  location array (src/ssd_index.cpp) knows after a run of Soft Insert
  (src/update/direct_insert.cpp), and the repair of the loaded ids.
 */
module CrashRecovery {
  import opened Allocator
  import opened Basics
  import opened Commit
  import opened PageLayout
  import opened Recovery
  import opened Relocation
  import opened SlotOrder
  import SoftInsert

  /** In a consistent image no two ids share a location, since a record has one owner, and no id from
      the checkpoint to the largest one is missing. */
  lemma ImageLoaded(file: seq<nat>, records: map<nat, SoftInsert.Content>, published: set<nat>, ckpt: nat)
    requires SoftInsert.Consistent(file, records, published, ckpt) && 0 in published
    ensures Injective(Loaded(file)) && (forall id :: id in published ==> id in Loaded(file))
    ensures forall id :: id in Loaded(file) ==> SoftInsert.Sound(Loaded(file), records, id, Loaded(file)[id])
    ensures forall id: nat :: ckpt <= id <= LastId(file) ==> id in Loaded(file)
  {
    var m := Loaded(file);
    forall a, b | a in m && b in m && a != b ensures m[a] != m[b] {
      assert SoftInsert.Sound(m, records, a, m[a]) && SoftInsert.Sound(m, records, b, m[b]);
    }
    LastIdIs(file);
    assert LastId(file) in Loaded(file) && SoftInsert.LoadedFrom(file, ckpt, LastId(file));
  }

  /** An image that a crash may leave of the state that a guarded run ends in. */
  ghost predicate LeftBy(file: seq<nat>, records: map<nat, SoftInsert.Content>, s: SoftInsert.State, steps: SoftInsert.Steps) {
    && SoftInsert.Inv(s) && SoftInsert.Safe(s) && SoftInsert.IsRun(s, steps) && SoftInsert.AllGuarded(s, steps)
    && SoftInsert.IsImage(SoftInsert.Final(s, steps), file, records)
  }

  lemma LeftConsistent(file: seq<nat>, records: map<nat, SoftInsert.Content>, s: SoftInsert.State, steps: SoftInsert.Steps)
    requires LeftBy(file, records, s, steps)
    ensures var e := SoftInsert.Final(s, steps); SoftInsert.Consistent(file, records, e.published, e.ckpt) && 0 in e.published
  {
    SoftInsert.SurvivesCrashes(s, steps);
  }

  /** From any crash image of any guarded run, recovery finds every finished insert and every id from
      the checkpoint to the largest one, and rebuilds an allocator that overwrites no record; its
      full invariant holds exactly if the pages for the number of ids reach the largest location. */
  method Recover(npp: nat, threshold: nat, firstUsable: nat, file: seq<nat>, ghost s: SoftInsert.State, ghost steps: SoftInsert.Steps,
                 ghost records: map<nat, SoftInsert.Content>)
    returns (a: PageAllocator)
    requires 1 <= threshold <= npp && LeftBy(file, records, s, steps)
    ensures fresh(a) && a.id2loc == Loaded(file) && a.flights == {} && a.g == Sectors(npp) && a.firstUsable == firstUsable
    ensures forall id :: id in SoftInsert.Final(s, steps).published ==> id in a.id2loc
    ensures forall id :: id in a.id2loc ==> SoftInsert.Sound(a.id2loc, records, id, a.id2loc[id])
    ensures forall id: nat :: SoftInsert.Final(s, steps).ckpt <= id <= LastId(file) ==> id in a.id2loc
    ensures a.Guarded() && (a.Valid() <==> PagesFor(|a.id2loc|, npp) == PageOf(MaxLoc(file), npp))
  {
    LeftConsistent(file, records, s, steps);
    ImageLoaded(file, records, SoftInsert.Final(s, steps).published, SoftInsert.Final(s, steps).ckpt);
    a := new PageAllocator.Recovered(npp, threshold, firstUsable, file);
  }

  /** The graph file holds the records of an image that its array leads to. */
  ghost predicate OnDisk(d: Disk, f: Format, file: seq<nat>, records: map<nat, SoftInsert.Content>) {
    forall id :: id in Loaded(file) && Loaded(file)[id] in records && records[Loaded(file)[id]].Whole? ==>
      var l := Loaded(file)[id];
      Degree(d, f, l) <= f.maxDegree && ReadNode(d, f, l).nbrs == records[l].node.nbrs
  }

  lemma ImageComplete(d: Disk, f: Format, file: seq<nat>, records: map<nat, SoftInsert.Content>, published: set<nat>, ckpt: nat)
    requires SoftInsert.Consistent(file, records, published, ckpt) && 0 in published && OnDisk(d, f, file, records)
    ensures Repairable(d, f, file, ckpt)
  {
    var m, c := Loaded(file), ContentsOf(d, f, Loaded(file));
    forall id | id in m ensures Degree(d, f, m[id]) <= f.maxDegree && Complete(c, id) {
      assert SoftInsert.Sound(m, records, id, m[id]);
    }
    ImageLoaded(file, records, published, ckpt);
  }

  /** What the repair loop needs of a loaded image: whole records, and no id missing. */
  ghost predicate Repairable(d: Disk, f: Format, file: seq<nat>, ckpt: nat) {
    && file != [] && DegreesOk(d, f, Loaded(file)) && AllComplete(ContentsOf(d, f, Loaded(file)))
    && NoneMissing(ContentsOf(d, f, Loaded(file)), ckpt, LastId(file) + 1)
  }

  /** Recovery as a whole, from any crash image of any guarded run: if every record has a neighbour
      and pruning keeps some, the repair loop from the checkpoint to the largest id completes, even
      where pages were not rebuilt.  It then leaves an allocator that overwrites no record, the same
      ids with the same vectors, and records that name only ids that exist.  The location array is
      as it was; if it leads only to pages that are left alone, the records that it leads to are as
      they were too, and inserts can start from there: every guarded run of them survives crashes. */
  method Restart(npp: nat, threshold: nat, firstUsable: nat, file: seq<nat>, ckpt: nat, d0: Disk, f: Format, hints: nat -> seq<nat>,
                 range: nat, prune: Prune, ghost s: SoftInsert.State, ghost steps: SoftInsert.Steps, ghost records: map<nat, SoftInsert.Content>)
    returns (ok: bool, a: PageAllocator, d: Disk)
    requires 1 <= threshold <= npp && LeftBy(file, records, s, steps) && ckpt == SoftInsert.Final(s, steps).ckpt && |file| <= 0x1_0000_0000
    requires f.npp == npp && ParamsOk(f, range, prune) && PruneSelects(prune) && OnDisk(d0, f, file, records)
    ensures AllLinked(ContentsOf(d0, f, Loaded(file))) && PruneKeeps(prune) ==> ok
    ensures ok ==> Ready(a, d, f) && Follows(ContentsOf(d0, f, Loaded(file)), ContentsOf(d, f, a.id2loc), prune)
    ensures ok && PagesFor(|Loaded(file)|, npp) == PageOf(MaxLoc(file), npp) ==> a.Valid()
    ensures ok && LeftAlone(file, npp, firstUsable) ==>
      var r := Resumed(file, records, a.id2loc, SoftInsert.Final(s, steps));
      OnDisk(d, f, file, records) && SoftInsert.Inv(r) && SoftInsert.Safe(r)
  {
    LeftRepairable(d0, f, file, records, s, steps);
    a := Recover(npp, threshold, firstUsable, file, s, steps, records);
    ok, d := Repair(a, file, ckpt, d0, f, hints, range, prune, records);
    LeftConsistent(file, records, s, steps);
    ResumeSafe(file, records, a.id2loc, SoftInsert.Final(s, steps));
  }

  /** The state in which inserts go on after recovery from an image: the entries and records are those
      of the image, and the map in DRAM is any. */
  ghost function Resumed(file: seq<nat>, records: map<nat, SoftInsert.Content>, current: map<nat, nat>, e: SoftInsert.State): SoftInsert.State {
    e.(slots := map l | l in records && records[l].Whole? :: SoftInsert.SlotMem(records[l].node, SoftInsert.Clean),
       cells := map id | id in Loaded(file) :: SoftInsert.Cell(Some(Loaded(file)[id]), []),
       published := Loaded(file).Keys, queue := [], threads := seq(|e.threads|, _ => SoftInsert.Idle), current := current)
  }

  /** It is a safe starting point exactly if the image is consistent. */
  lemma ResumeExactly(file: seq<nat>, records: map<nat, SoftInsert.Content>, current: map<nat, nat>, e: SoftInsert.State)
    requires file != []
    ensures var r := Resumed(file, records, current, e);
            SoftInsert.Inv(r) && (SoftInsert.Safe(r) <==> SoftInsert.Consistent(file, records, Loaded(file).Keys, e.ckpt))
  {
    var r := Resumed(file, records, current, e);
    if SoftInsert.Safe(r) { SoftInsert.SafeImages(r, file, records); }
    if SoftInsert.Consistent(file, records, Loaded(file).Keys, e.ckpt) {
      forall id | id in r.cells ensures SoftInsert.Good(r, id, r.cells[id].start.value) {
        assert SoftInsert.Sound(Loaded(file), records, id, Loaded(file)[id]);
      }
      forall id, y: nat | id in r.cells && e.ckpt <= y < id ensures y in r.cells { assert SoftInsert.LoadedFrom(file, e.ckpt, id); }
      SoftInsert.InitInv(r);
    }
  }

  lemma ResumeSafe(file: seq<nat>, records: map<nat, SoftInsert.Content>, current: map<nat, nat>, e: SoftInsert.State)
    requires SoftInsert.Consistent(file, records, e.published, e.ckpt) && 0 in e.published
    ensures var r := Resumed(file, records, current, e); SoftInsert.Inv(r) && SoftInsert.Safe(r)
  {
    ResumeExactly(file, records, current, e);
  }

  /** All records that the array leads to are on pages below the first usable one. */
  ghost predicate LeftAlone(file: seq<nat>, npp: nat, firstUsable: nat)
    requires npp > 0
  {
    forall id :: id in Loaded(file) ==> PageOf(Loaded(file)[id], npp) < firstUsable
  }

  lemma StillOnDisk(d0: Disk, d: Disk, f: Format, file: seq<nat>, records: map<nat, SoftInsert.Content>, written: seq<nat>)
    requires OnDisk(d0, f, file, records) && Untouched(d0, d, f, written) && Avoids(Loaded(file), written)
    ensures OnDisk(d, f, file, records)
  {
  }

  lemma LeftRepairable(d: Disk, f: Format, file: seq<nat>, records: map<nat, SoftInsert.Content>, s: SoftInsert.State, steps: SoftInsert.Steps)
    requires LeftBy(file, records, s, steps) && OnDisk(d, f, file, records)
    ensures Repairable(d, f, file, SoftInsert.Final(s, steps).ckpt)
  {
    LeftConsistent(file, records, s, steps);
    ImageComplete(d, f, file, records, SoftInsert.Final(s, steps).published, SoftInsert.Final(s, steps).ckpt);
  }

  /** The repair of what was loaded. */
  method Repair(a: PageAllocator, file: seq<nat>, ckpt: nat, d0: Disk, f: Format, hints: nat -> seq<nat>, range: nat, prune: Prune,
                ghost records: map<nat, SoftInsert.Content>)
    returns (ok: bool, d: Disk)
    requires a.Guarded() && a.flights == {} && f.npp > 0 && a.g == Sectors(f.npp) && a.id2loc == Loaded(file) && |file| <= 0x1_0000_0000
    requires ParamsOk(f, range, prune) && PruneSelects(prune) && Repairable(d0, f, file, ckpt) && OnDisk(d0, f, file, records)
    modifies a
    ensures AllLinked(ContentsOf(d0, f, Loaded(file))) && PruneKeeps(prune) ==> ok
    ensures ok ==> Ready(a, d, f) && Follows(ContentsOf(d0, f, Loaded(file)), ContentsOf(d, f, a.id2loc), prune)
    ensures ok && old(a.Valid()) ==> a.Valid()
    ensures ok && LeftAlone(file, f.npp, a.firstUsable) ==> OnDisk(d, f, file, records)
  {
    LastIdIs(file);
    var at;
    ghost var hist, written;
    ok, d, at, hist, written := RepairAll(a, d0, f, ckpt, LastId(file) + 1, hints, range, prune);
    if ok && LeftAlone(file, f.npp, a.firstUsable) { StillOnDisk(d0, d, f, file, records, written); }
  }

  /** Recovery from an array in which id x is missing between the checkpoint and the largest id: the
      repair loop does not get past x. */
  method MissingIdStops(npp: nat, threshold: nat, firstUsable: nat, file: seq<nat>, ckpt: nat, ghost x: nat, d0: Disk, f: Format,
                        hints: nat -> seq<nat>, range: nat, prune: Prune)
    returns (ok: bool, a: PageAllocator, d: Disk, at: nat)
    requires 1 <= threshold <= npp == f.npp && ParamsOk(f, range, prune) && PruneSelects(prune) && file != [] && |file| <= 0x1_0000_0000
    requires Injective(Loaded(file)) && ckpt <= x <= LastId(file) && x !in Loaded(file)
    requires DegreesOk(d0, f, Loaded(file)) && AllComplete(ContentsOf(d0, f, Loaded(file)))
    ensures !ok && at <= x
  {
    LastIdIs(file);
    a := new PageAllocator.Recovered(npp, threshold, firstUsable, file);
    ghost var hist, written;
    ok, d, at, hist, written := RepairAll(a, d0, f, ckpt, LastId(file) + 1, hints, range, prune);
    assert x !in ContentsOf(d0, f, Loaded(file));
  }

  /** The crash image of a run in which id 2 is inserted before id 1 is such an array. */
  lemma SkippedIdMissing()
    ensures Injective(Loaded([0, 0, 2])) && LastId([0, 0, 2]) == 2 && 1 !in Loaded([0, 0, 2])
  {
  }

  // ---------------------------------------------------------------- a second crash

  /** What the location array leads to after one repair, in any state of the allocator.  It is what it
      was before exactly if every copy that goes to a location of the array is what is there already;
      above all, if the answer has no location of the array. */
  method RepairSeen(a: PageAllocator, file: seq<nat>, d0: Disk, f: Format, id: nat, hints: seq<nat>, range: nat, prune: Prune)
    returns (ok: bool, d: Disk, ghost written: seq<nat>)
    requires Ready(a, d0, f) && ParamsOk(f, range, prune) && id < 0x1_0000_0000 && DegreesOk(d0, f, Loaded(file))
    modifies a
    ensures ok ==> id in old(a.id2loc) && written == old(a.Answer(|ReadNode(d0, f, a.id2loc[id]).nbrs|, hints, true))
    ensures ok ==> Written(ContentsOf(d0, f, old(a.id2loc)), d, f, id, written, range, prune)
    ensures ok ==> (ContentsOf(d, f, Loaded(file)) == ContentsOf(d0, f, Loaded(file))
                    <==> NothingNew(ContentsOf(d0, f, old(a.id2loc)), d0, f, id, written, range, prune, Loaded(file)))
    ensures ok && Avoids(Loaded(file), written) ==> ContentsOf(d, f, Loaded(file)) == ContentsOf(d0, f, Loaded(file))
  {
    ghost var m := a.id2loc;
    ok, d, written := RelocateNeighbours(a, d0, f, id, hints, range, prune);
    if ok { SeenExactly(ContentsOf(d0, f, m), d0, d, f, id, written, range, prune, Loaded(file)); }
  }

  /** Where the answer meets the id map, the copy is what is there already. */
  ghost predicate NothingNew(c: Contents, d: Disk, f: Format, id: nat, locs: seq<nat>, range: nat, prune: Prune, m: map<nat, nat>) {
    forall j, k :: j in m && id in c && 0 <= k < |locs| == |c[id].nbrs| && locs[k] == m[j] && c[id].nbrs[k] in c ==>
      Linked(c[c[id].nbrs[k]], ReadNode(d, f, m[j]), c[id].nbrs[k], id, range, prune)
  }

  lemma SeenExactly(c: Contents, d0: Disk, d: Disk, f: Format, id: nat, locs: seq<nat>, range: nat, prune: Prune, m: map<nat, nat>)
    requires Written(c, d, f, id, locs, range, prune) && Untouched(d0, d, f, locs) && DegreesOk(d0, f, m)
    ensures ContentsOf(d, f, m) == ContentsOf(d0, f, m) <==> NothingNew(c, d0, f, id, locs, range, prune, m)
    ensures Avoids(m, locs) ==> NothingNew(c, d0, f, id, locs, range, prune, m)
  {
    if ContentsOf(d, f, m) == ContentsOf(d0, f, m) {
      forall j, k | j in m && 0 <= k < |locs| && locs[k] == m[j]
        ensures Linked(c[c[id].nbrs[k]], ReadNode(d0, f, m[j]), c[id].nbrs[k], id, range, prune)
      {
        assert ContentsOf(d, f, m)[j] == ContentsOf(d0, f, m)[j];
      }
    }
    if NothingNew(c, d0, f, id, locs, range, prune, m) {
      forall j | j in m ensures ReadNode(d, f, m[j]) == ReadNode(d0, f, m[j]) {
        if m[j] in locs {
          var k :| 0 <= k < |locs| && locs[k] == m[j];
          assert c[id].nbrs[k] in c;
        }
      }
    }
  }

  /** Two ids that name each other and differ. */
  ghost predicate Mutual(c: Contents) {
    c.Keys == {0, 1} && c[0].nbrs == [1] && c[1].nbrs == [0] && c[0].coords != c[1].coords
  }

  /** Such ids, one node a page, as the array leads to them.  After the repairs of both, in order, the
      array leads id 1 to the vector of id 0, for any hints. */
  method TwoRepairs(d0: Disk, f: Format, hints: nat -> seq<nat>, range: nat, prune: Prune)
    returns (ok: bool, a: PageAllocator, d: Disk)
    requires f.npp == 1 && ParamsOk(f, range, prune) && range > 0
    requires DegreesOk(d0, f, Loaded([0, 1])) && Mutual(ContentsOf(d0, f, Loaded([0, 1])))
    ensures ok && Ready(a, d, f)
    ensures ReadNode(d, f, Loaded([0, 1])[1]).coords == ReadNode(d0, f, Loaded([0, 1])[0]).coords
    ensures ReadNode(d, f, Loaded([0, 1])[1]).coords != ReadNode(d0, f, Loaded([0, 1])[1]).coords
  {
    a := BothLoaded();
    var d1 := FirstRepair(a, d0, f, hints(0), range, prune);
    ok, d := SecondRepair(a, d1, f, hints(1), range, prune);
  }

  /** An input of this kind. */
  method SecondCrashMisreads() returns (f: Format, ok: bool, a: PageAllocator, d0: Disk, d: Disk)
    ensures Mutual(ContentsOf(d0, f, Loaded([0, 1]))) && ok && Ready(a, d, f)
    ensures ReadNode(d, f, Loaded([0, 1])[1]).coords == ReadNode(d0, f, Loaded([0, 1])[0]).coords
    ensures ReadNode(d, f, Loaded([0, 1])[1]).coords != ReadNode(d0, f, Loaded([0, 1])[1]).coords
  {
    f := Format(1, 1, 1);
    d0 := MutualDisk(f);
    MutualRead(d0, f);
    var none: Prune := (n: nat, s: seq<nat>) => [];
    ok, a, d := TwoRepairs(d0, f, (n: nat) => [], 1, none);
  }

  method MutualDisk(f: Format) returns (d: Disk)
    requires f == Format(1, 1, 1)
    ensures ReadNode(d, f, 0) == Node([0], [1]) && ReadNode(d, f, 1) == Node([1], [0])
  {
    var d1 := WriteNode(map[], f, 0, Node([0], [1]));
    ReadFits(d1, f, 0);
    d := WriteNode(d1, f, 1, Node([1], [0]));
    WriteElsewhere(d1, d, f, 1, 0);
  }

  lemma MutualRead(d: Disk, f: Format)
    requires f.maxDegree == 1 && ReadNode(d, f, 0) == Node([0], [1]) && ReadNode(d, f, 1) == Node([1], [0])
    ensures DegreesOk(d, f, Loaded([0, 1])) && Mutual(ContentsOf(d, f, Loaded([0, 1])))
  {
    TwoEntries();
    ReadFits(d, f, 0);
    ReadFits(d, f, 1);
  }

  method BothLoaded() returns (a: PageAllocator)
    ensures fresh(a) && a.Valid() && a.flights == {} && a.g == Sectors(1) && a.firstUsable == 0 && a.threshold == 1
    ensures a.id2loc == Loaded([0, 1]) == map[0 := 0, 1 := 1] && a.curLoc == 2
    ensures forall l :: !LookUp(a.layout, a.g, l).Allocated?
  {
    TwoEntries();
    a := new PageAllocator.Recovered(1, 1, 0, [0, 1]);
  }

  lemma TwoEntries()
    ensures Loaded([0, 1]) == map[0 := 0, 1 := 1] && MaxLoc([0, 1]) == 1 && Injective(Loaded([0, 1])) && |Loaded([0, 1])| == 2
    ensures PagesFor(2, 1) == PageOf(1, 1)
  {
    assert [0, 1][..1] == [0] && MaxLoc([0]) == 0;
    assert Loaded([0, 1]) == map[0 := 0, 1 := 1];
    assert Loaded([0, 1]).Keys == {0, 1};
  }

  /** Id 1 moves away from location 1. */
  method FirstRepair(a: PageAllocator, d0: Disk, f: Format, hints: seq<nat>, range: nat, prune: Prune) returns (d: Disk)
    requires Ready(a, d0, f) && a.Valid() && ParamsOk(f, range, prune) && a.g == Sectors(1) && range > 0
    requires a.id2loc == map[0 := 0, 1 := 1] && a.curLoc == 2 && (forall l :: !LookUp(a.layout, a.g, l).Allocated?)
    requires Mutual(ContentsOf(d0, f, a.id2loc))
    modifies a
    ensures Ready(a, d, f) && a.Valid() && ContentsOf(d, f, a.id2loc) == ContentsOf(d0, f, old(a.id2loc))
    ensures a.emptyPages != [] && a.emptyPages[0] == 2
  {
    ghost var y, m, cur := a.layout, a.id2loc, a.curLoc;
    NoFlights(a.layout, a.g, a.settled, m);
    var ok;
    ghost var w;
    ok, d, w := RelocateNeighbours(a, d0, f, 0, hints, range, prune);
    NoFlights(a.layout, a.g, a.settled, a.id2loc);
    OneMoved(m, a.id2loc, w);
    OldPageFirst(y, a.layout, a.emptyPages, m, a.id2loc, a.curLoc, w[0]);
    SameContents(ContentsOf(d0, f, m), ContentsOf(d, f, a.id2loc), range, prune);
  }

  lemma SameContents(c: Contents, c': Contents, range: nat, prune: Prune)
    requires Mutual(c) && Repaired(c, c', 0, range, prune) && range > 0
    ensures c' == c
  {
    forall j | j in c ensures c'[j] == c[j] { }
  }

  /** The copy of id 0 goes where id 1 was. */
  method SecondRepair(a: PageAllocator, d0: Disk, f: Format, hints: seq<nat>, range: nat, prune: Prune) returns (ok: bool, d: Disk)
    requires Ready(a, d0, f) && a.Valid() && ParamsOk(f, range, prune) && a.g == Sectors(1) && a.firstUsable == 0
    requires a.emptyPages != [] && a.emptyPages[0] == 2 && Mutual(ContentsOf(d0, f, a.id2loc))
    modifies a
    ensures ok && Ready(a, d, f) && ReadNode(d, f, 1).coords == ContentsOf(d0, f, old(a.id2loc))[0].coords
  {
    ghost var c := ContentsOf(d0, f, a.id2loc);
    FirstIsOne(a.layout, a.emptyPages, hints, a.threshold, a.curLoc);
    ghost var w;
    ok, d, w := RelocateNeighbours(a, d0, f, 1, hints, range, prune);
    FirstCopy(c, d, f, w, range, prune);
  }

  lemma FirstIsOne(y: Layout, q: seq<nat>, hints: seq<nat>, threshold: nat, cur: nat)
    requires RowsOk(y, 1, PageOf(cur, 1), {}) && QueueOk(q, y) && q != [] && q[0] == 2
    ensures FirstOf(Sectors(1), OldSlots(y, q, hints, 0, threshold, true), cur, 1) == [1]
  {
    HeadOfQueue(Sectors(1), y, q, hints, 0, threshold, true, cur, 1);
  }

  lemma FirstCopy(c: Contents, d: Disk, f: Format, w: seq<nat>, range: nat, prune: Prune)
    requires Mutual(c) && Written(c, d, f, 1, w, range, prune) && w == [1]
    ensures ReadNode(d, f, 1).coords == c[0].coords
  {
    assert c[1].nbrs[0] == 0 && Linked(c[0], ReadNode(d, f, w[0]), 0, 1, range, prune);
  }

  /** Once id 1 has left location 1, its page is the only one in the queue. */
  lemma OldPageFirst(y: Layout, y': Layout, q: seq<nat>, m: map<nat, nat>, m': map<nat, nat>, cur: nat, w: nat)
    requires MapsOk(y, m, Sectors(1)) && m == map[0 := 0, 1 := 1] && (forall l :: !LookUp(y, Sectors(1), l).Allocated?)
    requires RowsOk(y', 1, PageOf(cur, 1), {}) && QueueOk(q, y') && MapsOk(y', m', Sectors(1))
    requires m' == map[0 := 0, 1 := w] && w > 1 && SameAllocated(y, y', Sectors(1)) && Emptied(y, y', q) && 2 <= cur < 4
    ensures q != [] && q[0] == 2
  {
    LeftPageFree(y, y', m, m', cur);
    assert 2 in q;
    OthersLive(y', m', cur, w, q[0]);
  }

  lemma OneMoved(m: map<nat, nat>, m': map<nat, nat>, w: seq<nat>)
    requires m == map[0 := 0, 1 := 1] && |w| == 1 && m' == Moved(m, [1], w) && Avoids(m, w)
    ensures m' == map[0 := 0, 1 := w[0]] && w[0] > 1
  {
    assert [1][..0] == [] && w[..0] == [];
    assert m' == m[1 := w[0]];
    assert m[0] !in w && m[1] !in w;
  }

  lemma LeftPageFree(y: Layout, y': Layout, m: map<nat, nat>, m': map<nat, nat>, cur: nat)
    requires MapsOk(y, m, Sectors(1)) && 1 in m && m[1] == 1 && (forall l :: !LookUp(y, Sectors(1), l).Allocated?)
    requires RowsOk(y', 1, PageOf(cur, 1), {}) && 2 <= cur && MapsOk(y', m', Sectors(1)) && SameAllocated(y, y', Sectors(1))
    requires forall id :: id in m' ==> m'[id] != 1
    ensures 2 in y && !AllFree(y[2]) && 2 in y' && AllFree(y'[2])
  {
    var g := Sectors(1);
    assert IsAt(y, g, 1, Live(1)) && g.page(1) == 2 && g.off(1) == 0;
    assert LookUp(y', g, 1) == y'[2][0] && !LookUp(y, g, 1).Allocated?;
  }

  lemma OthersLive(y: Layout, m: map<nat, nat>, cur: nat, w: nat, p: nat)
    requires RowsOk(y, 1, PageOf(cur, 1), {}) && MapsOk(y, m, Sectors(1)) && cur < 4 && p in y && AllFree(y[p])
    requires 0 in m && m[0] == 0 && 1 in m && m[1] == w && w > 1
    ensures p == 2
  {
    var g := Sectors(1);
    assert IsAt(y, g, 0, Live(0)) && g.page(0) == 1;
    assert IsAt(y, g, w, Live(1)) && g.page(w) == w + 1 && w == 2;
    assert !y[1][g.off(0)].Free? && !y[3][g.off(2)].Free?;
  }
}
