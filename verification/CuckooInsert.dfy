/**
  Insertion with displacement in the concurrent cuckoo hash map
  (include/libcuckoo/cuckoohash_map.hh, `cuckoo_insert`, `run_cuckoo`, `cuckoopath_search`,
  `cuckoopath_move`).

  Locks are released between the sections of an insertion: each section below works in whatever
  state the other threads have left the table, and what it keeps for the next one depends on
  the table size only.
 */
module CuckooInsert {
  import opened Bits
  import opened CuckooBuckets
  import opened CuckooMap
  import CuckooPath
  import opened CuckooTable

  /** One entry of a displacement path: a slot, and the hash of the key seen there. */
  datatype Record = Record(bucket: nat, slot: nat, hv: nat)

  datatype Outcome = Ok | Duplicate | UnderExpansion | TableFull

  /** Where an insertion is between two sections.  Read: the next slot to look at is in bucket b.
      Move: the entries of the path from `depth` on have been moved. */
  datatype Pc = Start | Search(hp: nat) | Read(hp: nat, slots: seq<nat>, path: seq<Record>, b: nat)
              | Move(hp: nat, path: seq<Record>, depth: nat) | Ended(st: Outcome)

  ghost predicate LinkOk<K>(s: Scheme<K>, hp: nat, a: Record, b: Record) { b.bucket == s.other(hp, s.partial(a.hv), a.bucket) }

  /** The path starts in one of the key's buckets, and each bucket is the other bucket of the key
      that was seen in the one before. */
  ghost predicate PathOk<K>(s: Scheme<K>, hp: nat, spb: nat, n: nat, path: seq<Record>, key: K) {
    && path != [] && Mine(s, hp, key, path[0].bucket)
    && (forall k :: 0 <= k < |path| ==> path[k].bucket < n && path[k].slot < spb)
    && forall k :: 0 < k < |path| ==> LinkOk(s, hp, path[k - 1], path[k])
  }

  /** Both buckets of the key are locked and migrated. */
  ghost predicate BothLocked<K>(s: Scheme<K>, migrated: seq<bool>, i1: nat, i2: nat) {
    Done(migrated, s.lock(i1)) && Done(migrated, s.lock(i2))
  }

  /** One move along the path; the last one is made with the key's own buckets locked, too.  It is made
      exactly if the path is still valid in the table t found after locking. */
  method MoveOne<K(==, !new), V(!new)>(c: CuckooHash<K, V>, from: Record, to: Record, last: bool, i1: nat, i2: nat)
    returns (moved: bool, ghost t: Table<K, V>)
    requires c.Valid() && LinkOk(c.s, c.hp, from, to) && i1 < |c.buckets| && i2 < |c.buckets|
    requires from.bucket < |c.buckets| && from.slot < c.spb && to.bucket < |c.buckets| && to.slot < c.spb
    modifies c`buckets, c`prior, c`migrated, c`lazyLeft
    ensures c.Valid() && Same(old(c.T()), c.T(), c.s) && |c.buckets| == |old(c.buckets)|
    ensures last ==> BothLocked(c.s, c.migrated, i1, i2)
    ensures AllDone(old(c.migrated)) ==> t == old(c.T()) && AllDone(c.migrated)
    ensures moved <==> CanDisplace(t, c.s, from.bucket, from.slot, from.hv, to.bucket, to.slot)
    ensures if moved then Displaced(t, c.T(), from.bucket, from.slot, to.bucket, to.slot) else c.T() == t
  {
    ghost var t0 := c.T();
    if last { c.LockTwo(i1, i2); }
    ghost var t1 := c.T();
    moved, t := c.Displace(from.bucket, from.slot, from.hv, to.bucket, to.slot);
    SameTrans(t0, t1, c.T(), c.s);
  }

  /** Looks at one slot of a locked bucket: the hash of its key, and that key's other bucket. */
  method ReadRecord<K(==, !new), V(!new)>(c: CuckooHash<K, V>, b: nat, slot: nat) returns (r: Record, free: bool, next: nat)
    requires c.Valid() && b < |c.buckets| && slot < c.spb
    modifies c`buckets, c`prior, c`migrated, c`lazyLeft
    ensures c.Valid() && Same(old(c.T()), c.T(), c.s) && |c.buckets| == |old(c.buckets)|
    ensures r.bucket == b && r.slot == slot && free == c.buckets[b][slot].Free? && (free ==> r.hv == 0)
    ensures !free ==> r.hv == c.s.hash(c.buckets[b][slot].key)
    ensures next < |c.buckets| && (!free ==> next == c.s.other(c.hp, c.s.partial(r.hv), b))
    ensures AllDone(old(c.migrated)) ==> c.T() == old(c.T())
  {
    c.LockTwo(b, b);
    var x := c.buckets[b][slot];
    if x.Free? { return Record(b, slot, 0), true, b; }
    NextBucket(c.T(), c.s, c.spb, b, slot);
    var hv := c.s.hash(x.key);
    return Record(b, slot, hv), false, c.s.other(c.hp, c.s.partial(hv), b);
  }

  /** The path so far may go on in bucket b. */
  ghost predicate LeadsTo<K>(s: Scheme<K>, hp: nat, spb: nat, n: nat, path: seq<Record>, key: K, b: nat) {
    if path == [] then Mine(s, hp, key, b)
    else PathOk(s, hp, spb, n, path, key) && b == s.other(hp, s.partial(path[|path| - 1].hv), path[|path| - 1].bucket)
  }

  lemma PathMore<K>(s: Scheme<K>, hp: nat, spb: nat, n: nat, path: seq<Record>, key: K, r: Record, next: nat)
    requires r.bucket < n && r.slot < spb && LeadsTo(s, hp, spb, n, path, key, r.bucket)
    ensures PathOk(s, hp, spb, n, path + [r], key)
    ensures next == s.other(hp, s.partial(r.hv), r.bucket) ==> LeadsTo(s, hp, spb, n, path + [r], key, next)
  {
    var p := path + [r];
    forall k | 0 < k < |p| ensures LinkOk(s, hp, p[k - 1], p[k]) {
      if k < |path| { assert LinkOk(s, hp, path[k - 1], path[k]); }
    }
  }

  /** The other bucket of a stored key exists. */
  lemma NextBucket<K(!new), V(!new)>(t: Table<K, V>, s: Scheme<K>, spb: nat, b: nat, j: nat)
    requires Sound(s) && Shape(t, s, spb) && b < |t.buckets| && j < spb && t.buckets[b][j].Used?
    ensures s.other(t.hp, s.partial(s.hash(t.buckets[b][j].key)), b) < |t.buckets|
  {
    assert RowOk(t.buckets[b], s, t.hp, b);
    assert SoundAt(s, t.hp, s.hash(t.buckets[b][j].key));
  }

  /** What an insertion relies on between two sections, whatever happens to the table. */
  ghost predicate PcOk<K>(s: Scheme<K>, spb: nat, pc: Pc, key: K) {
    match pc
    case Read(hp, slots, path, b) =>
      |path| < |slots| && CuckooPath.SlotsOk(spb, slots) && b < Pow2(hp) && LeadsTo(s, hp, spb, Pow2(hp), path, key, b)
    case Move(hp, path, depth) => PathOk(s, hp, spb, Pow2(hp), path, key) && depth < |path|
    case _ => true
  }

  /** What a section did to the contents: the one that ends with success added the pair of a key that
      was not there, and every other one changed nothing; a duplicate is reported only of a key
      that is there. */
  ghost predicate Section<K(!new), V(!new)>(t: Table<K, V>, t': Table<K, V>, s: Scheme<K>, pc: Pc, key: K, value: V) {
    if pc == Ended(Ok) then Holds(t, s, Key(key)) == 0 && Gains(t, t', s, key, value)
    else Same(t, t', s) && (pc == Ended(Duplicate) ==> Holds(t, s, Key(key)) == 1)
  }

  method StartInsert<K(==, !new), V(!new)>(c: CuckooHash<K, V>, key: K, value: V) returns (pc: Pc)
    requires c.Valid()
    modifies c`buckets, c`prior, c`migrated, c`lazyLeft, c`counters
    ensures c.Valid() && PcOk(c.s, c.spb, pc, key) && Section(old(c.T()), c.T(), c.s, pc, key, value)
    ensures pc in {Ended(Ok), Ended(Duplicate)} || (pc == Search(c.hp) && FullFor(c.buckets, c.s, c.hp, key))
    ensures pc == Ended(Duplicate) <==> old(Holds(c.T(), c.s, Key(key))) == 1
    ensures AllDone(old(c.migrated)) ==> if pc == Ended(Ok) then !FullFor(old(c.buckets), c.s, c.hp, key) else c.T() == old(c.T())
  {
    var st := c.TryInsert(key, value);
    match st
    case Added =>
      AddedAbsent(old(c.T()), c.T(), c.s, key, value);
      pc := Ended(Ok);
    case Duplicated => pc := Ended(Duplicate);
    case BothFull => pc := Search(c.hp);
  }

  /** What a path search sees at each of its steps: whether a slot is occupied, and the other bucket
      of the key in it. */
  datatype Sight = Sight(occupied: (nat, nat, nat) -> bool, alt: (nat, nat, nat) -> nat)

  /** A search from the key's two buckets followed every path of fewer than len slots, and saw every
      bucket on them full. */
  ghost predicate SawFull<K>(s: Scheme<K>, spb: nat, hp: nat, len: nat, key: K, sight: Sight) {
    CuckooPath.NoneFree(spb, len, s.first(hp, s.hash(key)), s.second(hp, s.hash(key)), sight.occupied, sight.alt)
  }

  /** Every path of fewer than len slots from the key's buckets leads to a full bucket. */
  ghost predicate NoWay<K>(s: Scheme<K>, spb: nat, hp: nat, len: nat, key: K, sight: Sight) {
    CuckooPath.AllFull(spb, len, s.first(hp, s.hash(key)), s.second(hp, s.hash(key)), sight.occupied, sight.alt)
  }

  /** The first half of cuckoopath_search, which takes and releases locks bucket by bucket. */
  method SearchPath<K(==, !new)>(s: Scheme<K>, spb: nat, hp: nat, len: nat, key: K, sight: Sight) returns (pc: Pc)
    requires Sound(s) && spb > 0 && len > 0
    ensures PcOk(s, spb, pc, key) && (pc == Ended(TableFull) || (pc.Read? && pc.hp == hp))
    ensures pc == Ended(TableFull) ==> SawFull(s, spb, hp, len, key, sight)
    ensures CuckooPath.Still(sight.occupied, sight.alt) ==> (pc == Ended(TableFull) <==> NoWay(s, spb, hp, len, key, sight))
    ensures pc.Read? && CuckooPath.Still(sight.occupied, sight.alt) && 2 * CuckooPath.Pow(spb, len) <= CuckooPath.U16 ==>
      pc.path == [] && exists bkts :: CuckooPath.Route(sight.occupied, sight.alt, pc.b, pc.slots, bkts)
  {
    var h := s.hash(key);
    assert SoundAt(s, hp, h);
    var i1, i2 := s.first(hp, h), s.second(hp, h);
    var found, start, slots, trail, slot := CuckooPath.SearchAndDecode(spb, len, i1, i2, sight.occupied, sight.alt);
    pc := if found then Read(hp, slots, [], if start == 0 then i1 else i2) else Ended(TableFull);
  }

  /** What reading the next slot of a path does: it is recorded with the hash of its key, and the reading
      goes on in the key's other bucket; it ends with the slots, or at a free one. */
  ghost predicate ReadOn<K, V>(bs: seq<seq<Slot<K, V>>>, s: Scheme<K>, hp: nat, pc: Pc, pc': Pc) {
    && pc.Read? && |pc.path| < |pc.slots| && pc.b < |bs| && pc.slots[|pc.path|] < |bs[pc.b]|
    && var i := |pc.path|;
       var x := bs[pc.b][pc.slots[i]];
       if x.Free? then pc' == Move(pc.hp, pc.path + [Record(pc.b, pc.slots[i], 0)], i)
       else
         var path := pc.path + [Record(pc.b, pc.slots[i], s.hash(x.key))];
         pc' == if i + 1 == |pc.slots| then Move(pc.hp, path, i)
                else Read(pc.hp, pc.slots, path, s.other(hp, s.partial(s.hash(x.key)), pc.b))
  }

  /** One step of the second half of cuckoopath_search: the path ends at a free slot. */
  method ReadNext<K(==, !new), V(!new)>(c: CuckooHash<K, V>, pc0: Pc, key: K, ghost value: V) returns (pc: Pc)
    requires c.Valid() && pc0.Read? && PcOk(c.s, c.spb, pc0, key) && pc0.hp == c.hp
    modifies c`buckets, c`prior, c`migrated, c`lazyLeft
    ensures c.Valid() && PcOk(c.s, c.spb, pc, key) && Section(old(c.T()), c.T(), c.s, pc, key, value)
    ensures AllDone(old(c.migrated)) ==> c.T() == old(c.T())
    ensures ReadOn(c.buckets, c.s, c.hp, pc0, pc)
  {
    var i := |pc0.path|;
    var r, free, next := ReadRecord(c, pc0.b, pc0.slots[i]);
    PathMore(c.s, c.hp, c.spb, |c.buckets|, pc0.path, key, r, next);
    var path := pc0.path + [r];
    pc := if free || i + 1 == |pc0.slots| then Move(pc0.hp, path, i) else Read(pc0.hp, pc0.slots, path, next);
  }

  /** One step of cuckoopath_move before the last: a path that is no longer valid is given up. */
  method MoveNext<K(==, !new), V(!new)>(c: CuckooHash<K, V>, pc0: Pc, key: K, ghost value: V) returns (pc: Pc, ghost t: Table<K, V>)
    requires c.Valid() && pc0.Move? && PcOk(c.s, c.spb, pc0, key) && pc0.hp == c.hp && pc0.depth > 1
    modifies c`buckets, c`prior, c`migrated, c`lazyLeft
    ensures c.Valid() && PcOk(c.s, c.spb, pc, key) && Section(old(c.T()), c.T(), c.s, pc, key, value)
    ensures AllDone(old(c.migrated)) ==> t == old(c.T()) && AllDone(c.migrated)
    ensures MovedOn(t, c.T(), c.s, pc0, pc)
  {
    var d, path := pc0.depth, pc0.path;
    assert LinkOk(c.s, c.hp, path[d - 1], path[d]);
    var moved;
    moved, t := MoveOne(c, path[d - 1], path[d], false, 0, 0);
    pc := if moved then Move(pc0.hp, path, d - 1) else Search(pc0.hp);
  }

  /** The entry before the last moves to it exactly if the path is valid there, and then is the last. */
  ghost predicate MovedOn<K(!new), V(!new)>(t: Table<K, V>, t': Table<K, V>, s: Scheme<K>, pc: Pc, pc': Pc) {
    && pc.Move? && 0 < pc.depth < |pc.path|
    && var from, to := pc.path[pc.depth - 1], pc.path[pc.depth];
       if CanDisplace(t, s, from.bucket, from.slot, from.hv, to.bucket, to.slot)
       then pc' == Move(pc.hp, pc.path, pc.depth - 1) && Displaced(t, t', from.bucket, from.slot, to.bucket, to.slot)
       else pc' == Search(pc.hp) && t' == t
  }

  /** The first slot of the path is free, or can be made so. */
  ghost predicate CanFree<K, V>(t: Table<K, V>, s: Scheme<K>, path: seq<Record>, depth: nat) {
    && depth < |path| && depth <= 1
    && if depth == 0 then InTable(t, path[0].bucket, path[0].slot) && t.buckets[path[0].bucket][path[0].slot].Free?
       else CanDisplace(t, s, path[0].bucket, path[0].slot, path[0].hv, path[1].bucket, path[1].slot)
  }

  /** The first slot of the path is made free, or found free, with both buckets of the key locked. */
  method FreeFirst<K(==, !new), V(!new)>(c: CuckooHash<K, V>, path: seq<Record>, depth: nat, ghost key: K, i1: nat, i2: nat)
    returns (ok: bool, ghost t: Table<K, V>)
    requires c.Valid() && PathOk(c.s, c.hp, c.spb, |c.buckets|, path, key) && depth < |path| && depth <= 1
    requires i1 < |c.buckets| && i2 < |c.buckets|
    modifies c`buckets, c`prior, c`migrated, c`lazyLeft
    ensures c.Valid() && Same(old(c.T()), c.T(), c.s) && |c.buckets| == |old(c.buckets)|
    ensures ok ==> BothLocked(c.s, c.migrated, i1, i2) && c.buckets[path[0].bucket][path[0].slot].Free?
    ensures AllDone(old(c.migrated)) ==> t == old(c.T()) && AllDone(c.migrated)
    ensures ok <==> CanFree(t, c.s, path, depth)
  {
    if depth == 0 {
      c.LockTwo(i1, i2);
      t := c.T();
      ok := c.buckets[path[0].bucket][path[0].slot].Free?;
    } else {
      assert LinkOk(c.s, c.hp, path[0], path[1]);
      ok, t := MoveOne(c, path[0], path[1], true, i1, i2);
    }
  }

  /** The last section: both buckets of the key are locked, the first slot of the path becomes free,
      the key is looked for again, and it is added only if it is not there.  It searches again only if
      the slot cannot be freed in the table t found after locking. */
  method Finish<K(==, !new), V(!new)>(c: CuckooHash<K, V>, pc0: Pc, key: K, value: V) returns (pc: Pc, ghost t: Table<K, V>)
    requires c.Valid() && pc0.Move? && PcOk(c.s, c.spb, pc0, key) && pc0.hp == c.hp && pc0.depth <= 1
    modifies c`buckets, c`prior, c`migrated, c`lazyLeft, c`counters
    ensures c.Valid() && PcOk(c.s, c.spb, pc, key) && Section(old(c.T()), c.T(), c.s, pc, key, value)
    ensures pc in {Search(pc0.hp), Ended(Ok), Ended(Duplicate)}
    ensures AllDone(old(c.migrated)) ==> t == old(c.T())
    ensures pc.Search? <==> !CanFree(t, c.s, pc0.path, pc0.depth)
  {
    ghost var t0 := c.T();
    var h := c.s.hash(key);
    assert SoundAt(c.s, c.hp, h);
    var i1, i2 := c.s.first(c.hp, h), c.s.second(c.hp, h);
    var ok;
    ok, t := FreeFirst(c, pc0.path, pc0.depth, key, i1, i2);
    pc := Search(pc0.hp);
    if !ok { return; }
    ghost var t1 := c.T();
    var found, i, j := c.CuckooFind(key, i1, i2);
    NotPending(t1, c.s, c.spb, key);
    pc := Ended(Duplicate);
    if found {
      FoundOnce(t1, c.s, key, i, j);
      return;
    }
    AbsentKey(t1, c.s, c.spb, key);
    c.AddToBucket(pc0.path[0].bucket, pc0.path[0].slot, key, value);
    GainsTo(t0, t1, c.T(), c.s, key, value);
    pc := Ended(Ok);
  }

  /** The next section of an insertion, in any state of the table. */
  method Step<K(==, !new), V(!new)>(c: CuckooHash<K, V>, pc0: Pc, key: K, value: V, len: nat, sight: Sight) returns (pc: Pc)
    requires c.Valid() && len > 0 && PcOk(c.s, c.spb, pc0, key) && !pc0.Ended?
    modifies c`buckets, c`prior, c`migrated, c`lazyLeft, c`counters
    ensures c.Valid() && PcOk(c.s, c.spb, pc, key) && Section(old(c.T()), c.T(), c.s, pc, key, value)
    ensures pc == Ended(UnderExpansion) <==> (pc0.Read? || pc0.Move?) && pc0.hp != c.hp
    ensures pc == Ended(TableFull) ==> pc0.Search? && SawFull(c.s, c.spb, pc0.hp, len, key, sight)
  {
    match pc0
    case Start => pc := StartInsert(c, key, value);
    case Search(hp) => pc := SearchPath(c.s, c.spb, hp, len, key, sight);
    case Read(hp, _, _, _) => if hp == c.hp { pc := ReadNext(c, pc0, key, value); } else { pc := Ended(UnderExpansion); }
    case Move(hp, _, depth) =>
      if hp != c.hp { pc := Ended(UnderExpansion); }
      else if depth > 1 { ghost var t; pc, t := MoveNext(c, pc0, key, value); }
      else { ghost var t; pc, t := Finish(c, pc0, key, value); }
  }

  // ---------------------------------------------------------------- with other threads

  /** A section of another thread. */
  datatype Op<K, V> = Find(k: K) | Erase(k: K) | Add(k: K, v: V) | Shift(a: Record, b: Record) | Double(hp: nat)

  method Others<K(==, !new), V(!new)>(c: CuckooHash<K, V>, ops: seq<Op<K, V>>)
    requires c.Valid()
    modifies c
    ensures c.Valid()
  {
    for i := 0 to |ops|
      invariant c.Valid()
    {
      match ops[i]
      case Find(k) => var _ := c.Find(k);
      case Erase(k) => var _ := c.Erase(k);
      case Add(k, v) => var _ := c.TryInsert(k, v);
      case Shift(a, b) => if CanShift(c, a, b) { var _, _ := c.Displace(a.bucket, a.slot, a.hv, b.bucket, b.slot); }
      case Double(hp) => var _ := c.FastDouble(hp);
    }
  }

  predicate CanShift<K(==, !new), V(!new)>(c: CuckooHash<K, V>, a: Record, b: Record)
    reads c
  {
    && a.bucket < |c.buckets| && a.slot < c.spb && b.bucket < |c.buckets| && b.slot < c.spb
    && b.bucket == c.s.other(c.hp, c.s.partial(a.hv), a.bucket)
  }

  /** An insertion with any sections of other threads before each of its own.  If it ends, t is the
      table at the start of its last section: success means that the key was not there and that
      exactly its pair was added to t, a duplicate that it was there.  The table is called full only
      after a search that saw every bucket within reach full.  `sights` is what a search sees in
      each section. */
  method Insert<K(==, !new), V(!new)>(c: CuckooHash<K, V>, len: nat, key: K, value: V, others: seq<seq<Op<K, V>>>,
                                      sights: nat -> Sight)
    returns (pc: Pc, ghost t: Table<K, V>)
    requires c.Valid() && len > 0
    modifies c
    ensures c.Valid() && PcOk(c.s, c.spb, pc, key)
    ensures pc.Ended? ==> Section(t, c.T(), c.s, pc, key, value)
    ensures pc == Ended(TableFull) ==> exists hp, i :: SawFull(c.s, c.spb, hp, len, key, sights(i))
  {
    pc, t := Start, c.T();
    var i := 0;
    while i < |others| && !pc.Ended?
      invariant 0 <= i <= |others| && c.Valid() && PcOk(c.s, c.spb, pc, key)
      invariant pc.Ended? ==> Section(t, c.T(), c.s, pc, key, value)
      invariant pc == Ended(TableFull) ==> exists hp, i :: SawFull(c.s, c.spb, hp, len, key, sights(i))
    {
      Others(c, others[i]);
      t := c.T();
      pc := Step(c, pc, key, value, len, sights(i));
      i := i + 1;
    }
  }

  // ---------------------------------------------------------------- alone

  /** The sight of a table that does not change. */
  ghost predicate Sees<K(!new), V(!new)>(sight: Sight, t: Table<K, V>, s: Scheme<K>) {
    && CuckooPath.Still(sight.occupied, sight.alt)
    && (forall b: nat, j: nat :: sight.occupied(0, b, j) <==> InTable(t, b, j) && t.buckets[b][j].Used?)
    && forall b: nat, j: nat :: InTable(t, b, j) && t.buckets[b][j].Used? ==>
         sight.alt(0, b, j) == s.other(t.hp, s.partial(s.hash(t.buckets[b][j].key)), b)
  }

  /** The path up to d can be moved: its entries hold keys of the recorded hashes, the last is free,
      and no bucket occurs twice. */
  ghost predicate Open<K, V>(t: Table<K, V>, s: Scheme<K>, path: seq<Record>, d: nat) {
    && d < |path| && (forall k :: 0 <= k <= d ==> InTable(t, path[k].bucket, path[k].slot))
    && (forall k :: 0 <= k < d ==> t.buckets[path[k].bucket][path[k].slot].Used? && s.hash(t.buckets[path[k].bucket][path[k].slot].key) == path[k].hv)
    && t.buckets[path[d].bucket][path[d].slot].Free?
    && (forall k, l :: 0 <= k < l <= d ==> path[k].bucket != path[l].bucket)
  }

  lemma OpenMoves<K(!new), V(!new)>(t: Table<K, V>, t': Table<K, V>, s: Scheme<K>, path: seq<Record>, d: nat)
    requires Open(t, s, path, d) && d > 0
    requires Displaced(t, t', path[d - 1].bucket, path[d - 1].slot, path[d].bucket, path[d].slot)
    ensures Open(t', s, path, d - 1)
  {
    forall k | 0 <= k < d - 1
      ensures InTable(t', path[k].bucket, path[k].slot)
      ensures t'.buckets[path[k].bucket][path[k].slot] == t.buckets[path[k].bucket][path[k].slot]
    {
      assert InTable(t, path[k].bucket, path[k].slot);
    }
  }

  /** The first n records of a route. */
  ghost predicate Recorded<K, V>(bs: seq<seq<Slot<K, V>>>, s: Scheme<K>, slots: seq<nat>, bkts: seq<nat>, path: seq<Record>, n: nat) {
    && |path| == n <= |slots| == |bkts|
    && (forall k :: 0 <= k < n ==> path[k].bucket == bkts[k] && path[k].slot == slots[k] && bkts[k] < |bs| && slots[k] < |bs[bkts[k]]|)
    && forall k :: 0 <= k < n && bs[bkts[k]][slots[k]].Used? ==> path[k].hv == s.hash(bs[bkts[k]][slots[k]].key)
  }

  lemma RouteOpen<K(!new), V(!new)>(sight: Sight, t: Table<K, V>, s: Scheme<K>, from: nat, slots: seq<nat>, bkts: seq<nat>, path: seq<Record>)
    requires Sees(sight, t, s) && CuckooPath.Route(sight.occupied, sight.alt, from, slots, bkts) && Recorded(t.buckets, s, slots, bkts, path, |slots|)
    ensures Open(t, s, path, |slots| - 1)
  {
    forall k | 0 <= k < |slots| - 1 ensures t.buckets[path[k].bucket][path[k].slot].Used? { assert sight.occupied(0, bkts[k], slots[k]); }
    forall k, l | 0 <= k < l <= |slots| - 1 ensures path[k].bucket != path[l].bucket { assert bkts[k] != bkts[l]; }
  }

  /** Reading a whole route. */
  method ReadAll<K(==, !new), V(!new)>(c: CuckooHash<K, V>, pc0: Pc, key: K, ghost value: V, ghost sight: Sight, ghost bkts: seq<nat>) returns (pc: Pc)
    requires c.Valid() && AllDone(c.migrated) && pc0.Read? && PcOk(c.s, c.spb, pc0, key) && pc0.hp == c.hp && pc0.path == []
    requires Sees(sight, c.T(), c.s) && CuckooPath.Route(sight.occupied, sight.alt, pc0.b, pc0.slots, bkts)
    modifies c`buckets, c`prior, c`migrated, c`lazyLeft
    ensures c.Valid() && c.T() == old(c.T()) && PcOk(c.s, c.spb, pc, key)
    ensures pc.Move? && pc.hp == c.hp && Open(c.T(), c.s, pc.path, pc.depth)
  {
    ghost var t := c.T();
    ghost var slots, from := pc0.slots, pc0.b;
    pc := pc0;
    while pc.Read?
      invariant c.Valid() && c.T() == t && PcOk(c.s, c.spb, pc, key) && (pc.Read? || pc.Move?) && pc.hp == c.hp
      invariant pc.Read? ==> pc.slots == slots && Recorded(t.buckets, c.s, slots, bkts, pc.path, |pc.path|) && pc.b == bkts[|pc.path|]
      invariant pc.Move? ==> pc.depth == |slots| - 1 && Recorded(t.buckets, c.s, slots, bkts, pc.path, |slots|)
      decreases pc.Read?, if pc.Read? then |slots| - |pc.path| else 0
    {
      ghost var pc1 := pc;
      pc := ReadNext(c, pc, key, value);
      RouteRead(sight, t, c.s, from, slots, bkts, pc1, pc);
    }
    RouteOpen(sight, t, c.s, from, slots, bkts, pc.path);
  }

  lemma RouteRead<K(!new), V(!new)>(sight: Sight, t: Table<K, V>, s: Scheme<K>, from: nat, slots: seq<nat>, bkts: seq<nat>, pc: Pc, pc': Pc)
    requires Sees(sight, t, s) && CuckooPath.Route(sight.occupied, sight.alt, from, slots, bkts)
    requires pc.Read? && pc.slots == slots && |pc.path| < |slots| && Recorded(t.buckets, s, slots, bkts, pc.path, |pc.path|) && pc.b == bkts[|pc.path|]
    requires ReadOn(t.buckets, s, t.hp, pc, pc')
    ensures pc'.Read? ==> pc'.slots == slots && Recorded(t.buckets, s, slots, bkts, pc'.path, |pc.path| + 1) && pc'.b == bkts[|pc'.path|]
    ensures pc'.Move? ==> pc'.depth == |slots| - 1 && Recorded(t.buckets, s, slots, bkts, pc'.path, |slots|)
  {
    var i := |pc.path|;
    assert sight.occupied(0, bkts[i], slots[i]) <==> i < |slots| - 1;
    if i < |slots| - 1 { assert bkts[i + 1] == sight.alt(0, bkts[i], slots[i]); }
  }

  /** Moving along an open path up to its first two entries. */
  method MoveAll<K(==, !new), V(!new)>(c: CuckooHash<K, V>, pc0: Pc, key: K, ghost value: V) returns (pc: Pc)
    requires c.Valid() && AllDone(c.migrated) && pc0.Move? && PcOk(c.s, c.spb, pc0, key) && pc0.hp == c.hp && Open(c.T(), c.s, pc0.path, pc0.depth)
    modifies c`buckets, c`prior, c`migrated, c`lazyLeft
    ensures c.Valid() && AllDone(c.migrated) && Same(old(c.T()), c.T(), c.s) && PcOk(c.s, c.spb, pc, key)
    ensures pc.Move? && pc.hp == c.hp && pc.depth <= 1 && Open(c.T(), c.s, pc.path, pc.depth)
  {
    ghost var t0 := c.T();
    pc := pc0;
    while pc.depth > 1
      invariant c.Valid() && AllDone(c.migrated) && Same(t0, c.T(), c.s) && PcOk(c.s, c.spb, pc, key)
      invariant pc.Move? && pc.hp == c.hp && Open(c.T(), c.s, pc.path, pc.depth)
      decreases pc.depth
    {
      ghost var t1, pc1 := c.T(), pc;
      ghost var t;
      pc, t := MoveNext(c, pc, key, value);
      OpenMoves(t, c.T(), c.s, pc1.path, pc1.depth);
      SameTrans(t0, t1, c.T(), c.s);
    }
  }

  /** The sections of an insertion with nobody else running, on a table whose stripes are all migrated
      and that the search sees as it is.  It always ends: with a duplicate exactly if the key is there,
      with a full table exactly if it is not and every path of fewer than len slots from its buckets
      leads to a full bucket, and otherwise with the pair stored. */
  method InsertAlone<K(==, !new), V(!new)>(c: CuckooHash<K, V>, len: nat, key: K, value: V, sight: Sight) returns (pc: Pc)
    requires c.Valid() && AllDone(c.migrated) && len > 0 && 2 * CuckooPath.Pow(c.spb, len) <= CuckooPath.U16 && Sees(sight, c.T(), c.s)
    modifies c`buckets, c`prior, c`migrated, c`lazyLeft, c`counters
    ensures c.Valid() && pc in {Ended(Ok), Ended(Duplicate), Ended(TableFull)}
    ensures pc == Ended(Duplicate) <==> old(Holds(c.T(), c.s, Key(key))) == 1
    ensures pc == Ended(TableFull) <==> old(Holds(c.T(), c.s, Key(key))) == 0 && NoWay(c.s, c.spb, c.hp, len, key, sight)
    ensures if pc == Ended(Ok) then Gains(old(c.T()), c.T(), c.s, key, value) else Same(old(c.T()), c.T(), c.s)
  {
    ghost var t0 := c.T();
    pc := StartInsert(c, key, value);
    NotFullSeen(t0, c.s, c.spb, len, key, sight);
    if !pc.Search? { return; }
    pc := SearchPath(c.s, c.spb, c.hp, len, key, sight);
    if !pc.Read? { return; }
    pc := Displacing(c, pc, key, value, sight);
  }

  /** A free slot in one of the key's buckets is a way. */
  lemma NotFullSeen<K(!new), V(!new)>(t: Table<K, V>, s: Scheme<K>, spb: nat, len: nat, key: K, sight: Sight)
    requires Sound(s) && Shape(t, s, spb) && Sees(sight, t, s) && len > 0
    ensures NoWay(s, spb, t.hp, len, key, sight) ==> FullFor(t.buckets, s, t.hp, key)
  {
    var i1, i2 := s.first(t.hp, s.hash(key)), s.second(t.hp, s.hash(key));
    assert SoundAt(s, t.hp, s.hash(key));
    if NoWay(s, spb, t.hp, len, key, sight) {
      assert CuckooPath.SlotsOk(spb, []);
      assert CuckooPath.BucketFull(spb, sight.occupied, 0, CuckooPath.Walk(sight.alt, CuckooPath.From(i1, i2, 0), []));
      assert CuckooPath.BucketFull(spb, sight.occupied, 0, CuckooPath.Walk(sight.alt, CuckooPath.From(i1, i2, 1), []));
      forall i: nat, j | Mine(s, t.hp, key, i) && 0 <= j < |t.buckets[i]| ensures t.buckets[i][j].Used? { assert sight.occupied(0, i, j); }
    }
  }

  /** From a path that was found to the stored pair. */
  method Displacing<K(==, !new), V(!new)>(c: CuckooHash<K, V>, pc0: Pc, key: K, value: V, ghost sight: Sight) returns (pc: Pc)
    requires c.Valid() && AllDone(c.migrated) && pc0.Read? && PcOk(c.s, c.spb, pc0, key) && pc0.hp == c.hp && pc0.path == []
    requires Sees(sight, c.T(), c.s) && exists bkts :: CuckooPath.Route(sight.occupied, sight.alt, pc0.b, pc0.slots, bkts)
    requires Holds(c.T(), c.s, Key(key)) == 0
    modifies c`buckets, c`prior, c`migrated, c`lazyLeft, c`counters
    ensures c.Valid() && pc == Ended(Ok) && Gains(old(c.T()), c.T(), c.s, key, value)
  {
    ghost var bkts :| CuckooPath.Route(sight.occupied, sight.alt, pc0.b, pc0.slots, bkts);
    ghost var t0 := c.T();
    pc := ReadAll(c, pc0, key, value, sight, bkts);
    pc := MoveAll(c, pc, key, value);
    ghost var t1 := c.T();
    assert Holds(t1, c.s, Key(key)) == Holds(t0, c.s, Key(key));
    ghost var t;
    pc, t := Finish(c, pc, key, value);
    GainsTo(t0, t1, c.T(), c.s, key, value);
  }

  lemma AddedAbsent<K(!new), V(!new)>(t: Table<K, V>, t': Table<K, V>, s: Scheme<K>, k: K, v: V)
    requires Gains(t, t', s, k, v) && OneSlotPerKey(t', s)
    ensures Holds(t, s, Key(k)) == 0
  {
    assert Holds(t', s, Key(k)) == Holds(t, s, Key(k)) + One(Used(0, k, v), Key(k));
  }
}
