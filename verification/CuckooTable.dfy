/**
  The locked sections of the concurrent cuckoo hash map as methods of one object
  (include/libcuckoo/cuckoohash_map.hh).  Each method starts and ends with the invariant, so
  it holds in every state that a run of such sections, in any order, can reach.
 */
module CuckooTable {
  import opened Basics
  import opened Bits
  import opened CuckooBuckets
  import opened CuckooMap

  /** A migrated stripe stays migrated. */
  ghost predicate StaysDone(before: seq<bool>, after: seq<bool>) { forall l :: Done(before, l) ==> Done(after, l) }

  datatype Status = Added | Duplicated | BothFull

  /** Both buckets of the key exist and have no free slot. */
  ghost predicate FullFor<K(!new), V(!new)>(buckets: seq<seq<Slot<K, V>>>, s: Scheme<K>, hp: nat, key: K) {
    forall i: nat :: Mine(s, hp, key, i) ==> i < |buckets| && forall j :: 0 <= j < |buckets[i]| ==> buckets[i][j].Used?
  }

  /** The second table holds one pair more than the first, and nothing else changed. */
  ghost predicate Gains<K(!new), V(!new)>(t: Table<K, V>, t': Table<K, V>, s: Scheme<K>, k: K, v: V) {
    forall q :: Holds(t', s, q) == Holds(t, s, q) + One(Used(0, k, v), q)
  }

  ghost predicate InTable<K, V>(t: Table<K, V>, i: nat, j: nat) { i < |t.buckets| && j < |t.buckets[i]| }

  /** The slot j of bucket i holds a key of hash hv, and the slot j' of bucket i' is free. */
  ghost predicate CanDisplace<K, V>(t: Table<K, V>, s: Scheme<K>, i: nat, j: nat, hv: nat, i': nat, j': nat) {
    && InTable(t, i, j) && InTable(t, i', j')
    && t.buckets[i][j].Used? && s.hash(t.buckets[i][j].key) == hv && t.buckets[i'][j'].Free?
  }

  /** The pair in slot j of bucket i is now in slot j' of bucket i', and nothing else changed. */
  ghost predicate Displaced<K(!new), V(!new)>(t: Table<K, V>, t': Table<K, V>, i: nat, j: nat, i': nat, j': nat) {
    && InTable(t, i, j) && |t'.buckets| == |t.buckets| && t'.hp == t.hp && t'.migrated == t.migrated
    && (forall b :: 0 <= b < |t.buckets| ==> |t'.buckets[b]| == |t.buckets[b]|)
    && forall b, x :: 0 <= b < |t.buckets| && 0 <= x < |t.buckets[b]| ==>
         t'.buckets[b][x] == if b == i && x == j then Free else if b == i' && x == j' then t.buckets[i][j] else t.buckets[b][x]
  }

  class CuckooHash<K(==, !new), V(!new)> {
    const s: Scheme<K>
    const spb: nat
    var hp: nat
    var buckets: seq<seq<Slot<K, V>>>
    var prior: seq<seq<Slot<K, V>>>
    var migrated: seq<bool>
    var counters: seq<int>
    var lazyLeft: nat

    function T(): Table<K, V>
      reads this
    {
      Table(hp, buckets, prior, migrated)
    }

    /** Besides the shape of the table: one slot per key, counters that add up to the number
        of stored pairs, and a count of the stripes still to be migrated. */
    ghost predicate Valid()
      reads this
    {
      && Sound(s) && spb > 0
      && Shape(T(), s, spb)
      && OneSlotPerKey(T(), s)
      && |counters| == |migrated|
      && Sum(counters) == Holds(T(), s, Any)
      && lazyLeft == Left(migrated)
    }

    constructor (hash: K -> nat, hp: nat, spb: nat, lb: nat)
      requires spb > 0
      ensures Valid() && s == Libcuckoo(hash, lb) && this.hp == hp
      ensures forall q :: Holds(T(), s, q) == 0
    {
      s := Libcuckoo(hash, lb);
      this.spb := spb;
      this.hp := hp;
      buckets := seq(Pow2(hp), _ => seq(spb, _ => Free));
      prior := [];
      migrated := seq(Locks(hp, lb), _ => true);
      counters := seq(Locks(hp, lb), _ => 0);
      lazyLeft := 0;
      new;
      LibcuckooSound(hash, lb);
      assert counters == [] + seq(Locks(hp, lb), _ => 0);
      SumPad([], Locks(hp, lb));
      NewTable(T(), s, spb);
    }

    /** size(): the counters of single stripes drift, their sum does not. */
    method Size() returns (n: int)
      requires Valid()
      ensures n == Holds(T(), s, Any)
    {
      n := 0;
      var i := 0;
      while i < |counters|
        invariant 0 <= i <= |counters| && n == Sum(counters[..i])
      {
        assert counters[..i + 1][..i] == counters[..i];
        n, i := n + counters[i], i + 1;
      }
      assert counters[..i] == counters;
    }

    // -------------------------------------------------------------- migration

    /** The loop of rehash_lock over the old buckets that lock l guards. */
    method MoveStripe(l: nat) returns (ghost end: nat)
      requires Sound(s) && Shape(T(), s, spb) && l < |migrated| && !migrated[l]
      modifies this`buckets
      ensures end >= |prior| && Midway(old(T()), buckets, s, spb, l, end)
    {
      var t := T();
      MidwayStart(t, s, spb, l);
      buckets, end := MoveFrom(t, s, spb, l);
    }

    /** rehash_lock: whoever takes a lock first moves its stripe; the contents stay the same. */
    method RehashLock(l: nat)
      requires Valid() && l < |migrated|
      modifies this`buckets, this`prior, this`migrated, this`lazyLeft
      ensures Valid() && Same(old(T()), T(), s)
      ensures migrated == old(migrated)[l := true] && (old(migrated)[l] ==> T() == old(T()))
    {
      if migrated[l] {
        return;
      }
      ghost var t := T();
      ghost var end := MoveStripe(l);
      MarkedKeeps(t, buckets, s, spb, l, end);
      migrated := migrated[l := true];
      lazyLeft := lazyLeft - 1;
      if lazyLeft == 0 {
        prior := [];
      }
      assert T() == Marked(t, buckets, l);
    }
  
    // -------------------------------------------------------------- lookup and update

    /** lock_two: takes the locks of two buckets and migrates their stripes. */
    method LockTwo(i1: nat, i2: nat)
      requires Valid() && i1 < |buckets| && i2 < |buckets|
      modifies this`buckets, this`prior, this`migrated, this`lazyLeft
      ensures Valid() && Same(old(T()), T(), s) && |migrated| == |old(migrated)| && |buckets| == |old(buckets)|
      ensures Done(migrated, s.lock(i1)) && Done(migrated, s.lock(i2)) && StaysDone(old(migrated), migrated)
      ensures AllDone(old(migrated)) ==> T() == old(T())
    {
      LockInRange(s, hp, i1);
      LockInRange(s, hp, i2);
      ghost var t := T();
      RehashLock(s.lock(i1));
      ghost var t1 := T();
      RehashLock(s.lock(i2));
      SameTrans(t, t1, T(), s);
    }

    /** try_find_insert_bucket: the slot of the key, or else a free slot, or else -1. */
    method ScanRow(i: nat, key: K) returns (dup: bool, slot: int)
      requires i < |buckets|
      ensures -1 <= slot < |buckets[i]|
      ensures dup ==> slot >= 0 && buckets[i][slot].Used? && buckets[i][slot].key == key
      ensures !dup ==> forall j :: 0 <= j < |buckets[i]| && buckets[i][j].Used? ==> buckets[i][j].key != key
      ensures !dup && slot >= 0 ==> buckets[i][slot].Free?
      ensures !dup && slot < 0 ==> forall j :: 0 <= j < |buckets[i]| ==> buckets[i][j].Used?
    {
      slot := -1;
      var j := 0;
      while j < |buckets[i]|
        invariant 0 <= j <= |buckets[i]| && -1 <= slot < j
        invariant forall x :: 0 <= x < j && buckets[i][x].Used? ==> buckets[i][x].key != key
        invariant if slot >= 0 then buckets[i][slot].Free? else forall x :: 0 <= x < j ==> buckets[i][x].Used?
      {
        if buckets[i][j].Used? {
          if buckets[i][j].key == key {
            return true, j;
          }
        } else {
          slot := j;
        }
        j := j + 1;
      }
      dup := false;
    }

    /** cuckoo_find: looks in the two given buckets only. */
    method CuckooFind(key: K, i1: nat, i2: nat) returns (found: bool, i: nat, j: nat)
      requires i1 < |buckets| && i2 < |buckets|
      ensures found ==> i in {i1, i2} && j < |buckets[i]| && buckets[i][j].Used? && buckets[i][j].key == key
      ensures !found ==> forall b, x :: b in {i1, i2} && 0 <= x < |buckets[b]| && buckets[b][x].Used? ==> buckets[b][x].key != key
    {
      var dup, slot := ScanRow(i1, key);
      if dup {
        return true, i1, slot;
      }
      dup, slot := ScanRow(i2, key);
      if dup {
        return true, i2, slot;
      }
      return false, 0, 0;
    }

    /** find: whatever is still to be migrated, the answer is that of the abstract map. */
    method Find(key: K) returns (r: Option<V>)
      requires Valid()
      modifies this`buckets, this`prior, this`migrated, this`lazyLeft
      ensures Valid() && Same(old(T()), T(), s)
      ensures forall v :: r == Some(v) <==> Holds(T(), s, Pair(key, v)) == 1
      ensures r == None <==> Holds(T(), s, Key(key)) == 0
    {
      var h := s.hash(key);
      assert SoundAt(s, hp, h);
      var i1, i2 := s.first(hp, h), s.second(hp, h);
      LockTwo(i1, i2);
      var found, i, j := CuckooFind(key, i1, i2);
      NotPending(T(), s, spb, key);
      if found {
        FoundOnce(T(), s, key, i, j);
        r := Some(buckets[i][j].value);
      } else {
        AbsentKey(T(), s, spb, key);
        r := None;
      }
    }

    /** add_to_bucket: fills a free slot of a locked bucket with a new key. */
    method AddToBucket(i: nat, j: nat, key: K, value: V)
      requires Valid() && i < |buckets| && j < spb && |buckets[i]| == spb && buckets[i][j].Free?
      requires Mine(s, hp, key, i) && Done(migrated, s.lock(i)) && Holds(T(), s, Key(key)) == 0
      modifies this`buckets, this`counters
      ensures Valid()
      ensures Gains(old(T()), T(), s, key, value)
    {
      var x := Used(s.partial(s.hash(key)), key, value);
      ghost var t := T();
      AddedKeeps(t, s, spb, i, j, x);
      SumUpdate(counters, s.lock(i), counters[s.lock(i)] + 1);
      buckets := buckets[i := buckets[i][j := x]];
      counters := counters[s.lock(i) := counters[s.lock(i)] + 1];
      assert T() == Put(t, i, j, x);
    }

    /** del_from_bucket: frees a used slot of a locked bucket. */
    method DelFromBucket(i: nat, j: nat)
      requires Valid() && i < |buckets| && j < spb && |buckets[i]| == spb && buckets[i][j].Used? && Done(migrated, s.lock(i))
      modifies this`buckets, this`counters
      ensures Valid()
      ensures Gains(T(), old(T()), s, old(buckets[i][j]).key, old(buckets[i][j]).value)
    {
      ghost var t := T();
      DeletedKeeps(t, s, spb, i, j);
      SumUpdate(counters, s.lock(i), counters[s.lock(i)] - 1);
      buckets := buckets[i := buckets[i][j := Free]];
      counters := counters[s.lock(i) := counters[s.lock(i)] - 1];
      assert T() == Put(t, i, j, Free);
    }

    /** cuckoo_insert up to the point where displacement would be needed: reports the
        duplicate, or adds the pair to a free slot of one of the two buckets. */
    method TryInsert(key: K, value: V) returns (st: Status)
      requires Valid()
      modifies this`buckets, this`prior, this`migrated, this`lazyLeft, this`counters
      ensures Valid()
      ensures st.Duplicated? <==> old(Holds(T(), s, Key(key))) == 1
      ensures st.Added? ==> Gains(old(T()), T(), s, key, value)
      ensures !st.Added? ==> Same(old(T()), T(), s)
      ensures st.BothFull? ==> FullFor(buckets, s, hp, key)
      ensures AllDone(old(migrated)) ==> if st.Added? then !FullFor(old(buckets), s, hp, key) else T() == old(T())
    {
      var h := s.hash(key);
      assert SoundAt(s, hp, h);
      var i1, i2 := s.first(hp, h), s.second(hp, h);
      LockTwo(i1, i2);
      ghost var t := T();
      NotPending(T(), s, spb, key);
      var dup1, slot1 := ScanRow(i1, key);
      if dup1 {
        FoundOnce(T(), s, key, i1, slot1);
        return Duplicated;
      }
      var dup2, slot2 := ScanRow(i2, key);
      if dup2 {
        FoundOnce(T(), s, key, i2, slot2);
        return Duplicated;
      }
      AbsentKey(T(), s, spb, key);
      if slot1 >= 0 {
        AddToBucket(i1, slot1, key, value);
        GainsTo(old(T()), t, T(), s, key, value);
        st := Added;
      } else if slot2 >= 0 {
        AddToBucket(i2, slot2, key, value);
        GainsTo(old(T()), t, T(), s, key, value);
        st := Added;
      } else {
        st := BothFull;
      }
    }

    /** erase: removes the key's pair, if any, and nothing else. */
    method Erase(key: K) returns (erased: bool)
      requires Valid()
      modifies this`buckets, this`prior, this`migrated, this`lazyLeft, this`counters
      ensures Valid() && Holds(T(), s, Key(key)) == 0
      ensures erased <==> old(Holds(T(), s, Key(key))) == 1
      ensures !erased ==> Same(old(T()), T(), s)
      ensures erased ==> exists v :: Gains(T(), old(T()), s, key, v)
    {
      var h := s.hash(key);
      assert SoundAt(s, hp, h);
      var i1, i2 := s.first(hp, h), s.second(hp, h);
      LockTwo(i1, i2);
      NotPending(T(), s, spb, key);
      var found, i, j := CuckooFind(key, i1, i2);
      if !found {
        AbsentKey(T(), s, spb, key);
        return false;
      }
      FoundOnce(T(), s, key, i, j);
      ghost var t, x := T(), buckets[i][j];
      DelFromBucket(i, j);
      GainsFrom(T(), t, old(T()), s, key, x.value);
      erased := true;
    }

    /** One step of cuckoopath_move: moves the pair in slot j of bucket i to slot j' of its other
        bucket, exactly if in the table t that it finds after locking the path is still valid: the
        source slot holds a key of the expected hash and the target slot is free.  Either way the
        contents stay the same. */
    method Displace(i: nat, j: nat, hv: nat, i': nat, j': nat) returns (moved: bool, ghost t: Table<K, V>)
      requires Valid() && i < |buckets| && j < spb && j' < spb && i' < |buckets| && i' == s.other(hp, s.partial(hv), i)
      modifies this`buckets, this`prior, this`migrated, this`lazyLeft
      ensures Valid() && Same(old(T()), T(), s) && |buckets| == |old(buckets)| && StaysDone(old(migrated), migrated)
      ensures AllDone(old(migrated)) ==> t == old(T()) && AllDone(migrated)
      ensures moved <==> CanDisplace(t, s, i, j, hv, i', j')
      ensures if moved then Displaced(t, T(), i, j, i', j') else T() == t
    {
      ghost var t0 := T();
      moved := false;
      LockTwo(i, i');
      t := T();
      if buckets[i'][j'].Used? || buckets[i][j].Free? || s.hash(buckets[i][j].key) != hv {
        return;
      }
      assert RowOk(buckets[i], s, hp, i);
      DisplaceOk(t, s, spb, i, j, i', j');
      var x := buckets[i][j];
      buckets := buckets[i' := buckets[i'][j' := x]];
      buckets := buckets[i := buckets[i][j := Free]];
      assert T() == Put(Put(t, i', j', x), i, j, Free);
      SameTrans(t0, t, T(), s);
      SameKeeps(t, T(), s);
      moved := true;
    }

    // -------------------------------------------------------------- doubling

    /** Finishes whatever an earlier doubling left to be migrated. */
    method RehashAll()
      requires Valid()
      modifies this`buckets, this`prior, this`migrated, this`lazyLeft
      ensures Valid() && Same(old(T()), T(), s) && AllDone(migrated) && hp == old(hp)
    {
      ghost var t := T();
      var l := 0;
      while l < |migrated|
        invariant 0 <= l <= |migrated| && Valid() && Same(t, T(), s)
        invariant forall x :: 0 <= x < l ==> migrated[x]
      {
        ghost var t1 := T();
        RehashLock(l);
        SameTrans(t, t1, T(), s);
        l := l + 1;
      }
    }

    /** Doubling with fewer buckets than locks: rehash everything now. */
    method DoubleNow()
      requires Valid() && AllDone(migrated)
      modifies this
      ensures Valid() && Same(old(T()), T(), s) && hp == old(hp) + 1
    {
      var t := T();
      MoreLocks(s, hp);
      var t' := Doubled(t, s, spb);
      SameKeeps(t, t', s);
      LeftZero(t'.migrated);
      var more := |t'.migrated| - |counters|;
      SumPad(counters, more);
      counters := counters + seq(more, _ => 0);
      hp, buckets, prior, migrated, lazyLeft := t'.hp, t'.buckets, [], t'.migrated, 0;
      assert T() == t';
    }

    /** Doubling with at least one bucket per lock: leave the moving to the locks. */
    method DoubleLazily()
      requires Valid() && AllDone(migrated) && hp >= s.lb
      modifies this
      ensures Valid() && Same(old(T()), T(), s) && hp == old(hp) + 1
      ensures prior == old(buckets) && lazyLeft == Pow2(s.lb)
    {
      ghost var t := T();
      var rows := seq(Pow2(hp + 1), _ => seq(spb, _ => Free));
      LazyDoubled(t, s, spb, rows);
      LeftNone(|counters|);
      prior := buckets;
      buckets := rows;
      hp := hp + 1;
      migrated := seq(|counters|, _ => false);
      lazyLeft := |counters|;
      assert T() == Table(t.hp + 1, rows, t.buckets, seq(Locks(t.hp + 1, s.lb), _ => false));
      SameKeeps(t, T(), s);
    }

    /** cuckoo_fast_double: gives up if another thread resized first; otherwise the table has
        twice the buckets and the same contents, moved now or left to the stripes' locks. */
    method FastDouble(current: nat) returns (done: bool)
      requires Valid()
      modifies this
      ensures Valid() && Same(old(T()), T(), s)
      ensures done <==> current == old(hp)
      ensures hp == if done then old(hp) + 1 else old(hp)
    {
      if hp != current {
        return false;
      }
      RehashAll();
      ghost var t := T();
      if |buckets| < Pow2(s.lb) {
        DoubleNow();
      } else {
        if hp < s.lb { Pow2Strict(hp, s.lb); }
        DoubleLazily();
      }
      SameTrans(old(T()), t, T(), s);
      done := true;
    }
  }

  predicate BothVacant<K, V>(bs: seq<seq<Slot<K, V>>>, x: nat, n: nat) {
    x + n < |bs| && Vacant(bs[x]) && Vacant(bs[x + n])
  }

  /** A full rehash midway: the old buckets below i have been moved into fresh rows. */
  ghost predicate Doubling<K(!new), V(!new)>(bs: seq<seq<Slot<K, V>>>, prior: seq<seq<Slot<K, V>>>, s: Scheme<K>, hp: nat, spb: nat, i: nat) {
    i <= |prior| && DoubleRows(bs, prior, s, hp, spb, i) && DoubleCounts(bs, prior[..i])
  }

  ghost predicate DoubleRows<K, V>(bs: seq<seq<Slot<K, V>>>, prior: seq<seq<Slot<K, V>>>, s: Scheme<K>, hp: nat, spb: nat, i: nat) {
    && |bs| == 2 * |prior| && RowsOk(bs, s, hp, spb)
    && (forall x :: i <= x < |prior| ==> BothVacant(bs, x, |prior|))
  }

  ghost predicate DoubleCounts<K(!new), V(!new)>(bs: seq<seq<Slot<K, V>>>, moved: seq<seq<Slot<K, V>>>) {
    forall q :: All(bs, q) == All(moved, q)
  }

  /** Moves all old buckets at once, as for tables with fewer buckets than locks. */
  method MoveAll<K(!new), V(!new)>(rows: seq<seq<Slot<K, V>>>, prior: seq<seq<Slot<K, V>>>, s: Scheme<K>, hp: nat, spb: nat)
    returns (bs: seq<seq<Slot<K, V>>>)
    requires Sound(s) && |prior| == Pow2(hp) && RowsOk(prior, s, hp, spb) && Doubling(rows, prior, s, hp + 1, spb, 0)
    ensures Doubling(bs, prior, s, hp + 1, spb, |prior|)
  {
    bs := rows;
    var i, n := 0, |prior|;
    while i < n
      invariant 0 <= i <= n && Doubling(bs, prior, s, hp + 1, spb, i)
    {
      assert RowOk(prior[i], s, hp, i) && BothVacant(bs, i, n);
      var lo, hi := SplitRow(prior[i], s, hp, i, bs[i], bs[i + n]);
      DoublingStep(bs, prior, s, hp + 1, spb, i, lo, hi);
      bs, i := bs[i := lo][i + n := hi], i + 1;
    }
  }

  /** The table with twice the buckets, everything moved. */
  method Doubled<K(!new), V(!new)>(t: Table<K, V>, s: Scheme<K>, spb: nat) returns (t': Table<K, V>)
    requires Sound(s) && Shape(t, s, spb) && AllDone(t.migrated)
    ensures Shape(t', s, spb) && Same(t, t', s)
    ensures t'.hp == t.hp + 1 && t'.prior == [] && t'.migrated == seq(Locks(t.hp + 1, s.lb), _ => true)
  {
    var rows := seq(Pow2(t.hp + 1), _ => seq(spb, _ => Free));
    DoublingStart(rows, t.buckets, s, t.hp + 1, spb);
    var bs := MoveAll(rows, t.buckets, s, t.hp, spb);
    FullDoubled(t, s, spb, bs);
    t' := Table(t.hp + 1, bs, [], seq(Locks(t.hp + 1, s.lb), _ => true));
  }

  /** One old bucket of the stripe is split. */
  method MoveOne<K(!new), V(!new)>(t: Table<K, V>, bs: seq<seq<Slot<K, V>>>, s: Scheme<K>, spb: nat, l: nat, i: nat)
    returns (bs': seq<seq<Slot<K, V>>>)
    requires Sound(s) && Shape(t, s, spb) && !AllDone(t.migrated)
    requires Midway(t, bs, s, spb, l, i) && i < |t.prior| && s.lock(i) == l
    ensures Midway(t, bs', s, spb, l, i + Pow2(s.lb)) && s.lock(i + Pow2(s.lb)) == l
  {
    MidwayHere(t, bs, s, spb, l, i);
    var n := |t.prior|;
    var lo, hi := SplitRow(t.prior[i], s, t.hp - 1, i, bs[i], bs[i + n]);
    bs' := bs[i := lo][i + n := hi];
    MidwayStep(t, bs, bs', s, spb, l, i, lo, hi);
  }

  /** The old buckets of one stripe, split one after the other. */
  method MoveFrom<K(!new), V(!new)>(t: Table<K, V>, s: Scheme<K>, spb: nat, l: nat)
    returns (bs: seq<seq<Slot<K, V>>>, ghost end: nat)
    requires Sound(s) && Shape(t, s, spb) && !AllDone(t.migrated)
    requires Midway(t, t.buckets, s, spb, l, l) && l < |t.prior| && s.lock(l) == l
    ensures end >= |t.prior| && Midway(t, bs, s, spb, l, end)
  {
    bs := t.buckets;
    var i, n, step := l, |t.prior|, Pow2(s.lb);
    while i < n
      invariant s.lock(i) == l && Midway(t, bs, s, spb, l, i)
      decreases n - i
    {
      bs := MoveOne(t, bs, s, spb, l, i);
      i := i + step;
    }
    end := i;
  }

  lemma DoubleCountsStep<K(!new), V(!new)>(bs: seq<seq<Slot<K, V>>>, prior: seq<seq<Slot<K, V>>>, i: nat,
                                           lo: seq<Slot<K, V>>, hi: seq<Slot<K, V>>)
    requires i < |prior| && DoubleCounts(bs, prior[..i]) && BothVacant(bs, i, |prior|) && Splits(lo, hi, prior[i])
    ensures DoubleCounts(bs[i := lo][i + |prior| := hi], prior[..i + 1])
  {
    var n := |prior|;
    var bs' := bs[i := lo][i + n := hi];
    assert prior[..i + 1][..i] == prior[..i];
    forall q ensures All(bs', q) == All(prior[..i + 1], q) {
      AllUpdate(bs, i, lo, q);
      AllUpdate(bs[i := lo], i + n, hi, q);
      CountFree(bs[i], q);
      CountFree(bs[i + n], q);
      assert All(bs, q) == All(prior[..i], q);
      assert Count(lo, q) + Count(hi, q) == Count(prior[i], q);
    }
  }

  lemma DoublingStep<K(!new), V(!new)>(bs: seq<seq<Slot<K, V>>>, prior: seq<seq<Slot<K, V>>>, s: Scheme<K>, hp: nat, spb: nat, i: nat,
                                       lo: seq<Slot<K, V>>, hi: seq<Slot<K, V>>)
    requires Doubling(bs, prior, s, hp, spb, i) && i < |prior| && |lo| == |hi| == spb
    requires RowOk(lo, s, hp, i) && RowOk(hi, s, hp, i + |prior|) && Splits(lo, hi, prior[i])
    ensures Doubling(bs[i := lo][i + |prior| := hi], prior, s, hp, spb, i + 1)
  {
    var n := |prior|;
    var bs' := bs[i := lo][i + n := hi];
    RowsPut(bs, s, hp, spb, i, lo);
    RowsPut(bs[i := lo], s, hp, spb, i + n, hi);
    assert BothVacant(bs, i, n);
    forall x | i + 1 <= x < n ensures BothVacant(bs', x, n) { assert BothVacant(bs, x, n); }
    DoubleCountsStep(bs, prior, i, lo, hi);
  }

  lemma DoublingStart<K(!new), V(!new)>(bs: seq<seq<Slot<K, V>>>, prior: seq<seq<Slot<K, V>>>, s: Scheme<K>, hp: nat, spb: nat)
    requires |bs| == 2 * |prior| && forall i :: 0 <= i < |bs| ==> |bs[i]| == spb && Vacant(bs[i])
    ensures Doubling(bs, prior, s, hp, spb, 0)
  {
    NewRows(bs);
    assert prior[..0] == [];
    forall q ensures All(bs, q) == All(prior[..0], q) { assert All(bs, q) == 0; }
  }

  /** The state right after doubling, with the whole migration still to be done lazily. */
  lemma LazyDoubled<K(!new), V(!new)>(t: Table<K, V>, s: Scheme<K>, spb: nat, bs: seq<seq<Slot<K, V>>>)
    requires Shape(t, s, spb) && AllDone(t.migrated) && s.lb <= t.hp
    requires |bs| == Pow2(t.hp + 1) && forall i :: 0 <= i < |bs| ==> |bs[i]| == spb && Vacant(bs[i])
    ensures var t' := Table(t.hp + 1, bs, t.buckets, seq(Locks(t.hp + 1, s.lb), _ => false));
      Shape(t', s, spb) && Same(t, t', s)
  {
    var t' := Table(t.hp + 1, bs, t.buckets, seq(Locks(t.hp + 1, s.lb), _ => false));
    NewRows(bs);
    assert !t'.migrated[0];
    forall q ensures Holds(t', s, q) == Holds(t, s, q) {
      assert All(bs, q) == 0;
      PendingAll(t.buckets, t'.migrated, s.lock, q);
    }
  }

  /** The state after doubling a table with fewer buckets than locks: everything was moved. */
  lemma FullDoubled<K(!new), V(!new)>(t: Table<K, V>, s: Scheme<K>, spb: nat, bs: seq<seq<Slot<K, V>>>)
    requires Shape(t, s, spb) && AllDone(t.migrated)
    requires Doubling(bs, t.buckets, s, t.hp + 1, spb, |t.buckets|)
    ensures var t' := Table(t.hp + 1, bs, [], seq(Locks(t.hp + 1, s.lb), _ => true));
      Shape(t', s, spb) && Same(t, t', s)
  {
    var t' := Table(t.hp + 1, bs, [], seq(Locks(t.hp + 1, s.lb), _ => true));
    assert t.buckets[..|t.buckets|] == t.buckets;
    forall q ensures Holds(t', s, q) == Holds(t, s, q) {
      assert All(bs, q) == All(t.buckets, q);
    }
  }

  lemma MoreLocks<K>(s: Scheme<K>, hp: nat)
    ensures Locks(hp, s.lb) <= Locks(hp + 1, s.lb)
  {
  }

  lemma {:induction false} Pow2Strict(j: nat, k: nat)
    requires j < k
    ensures Pow2(j) < Pow2(k)
  {
    if j + 1 < k { Pow2Strict(j, k - 1); }
  }

  lemma LockInRange<K>(s: Scheme<K>, hp: nat, i: nat)
    requires Sound(s) && i < Pow2(hp)
    ensures s.lock(i) < Locks(hp, s.lb)
  {
    assert LockAt(s, i, 0);
    if s.lb > hp { Pow2Mono(hp, s.lb); }
  }

  lemma SameTrans<K(!new), V(!new)>(a: Table<K, V>, b: Table<K, V>, c: Table<K, V>, s: Scheme<K>)
    requires Same(a, b, s) && Same(b, c, s)
    ensures Same(a, c, s)
  {
    forall q ensures Holds(c, s, q) == Holds(a, s, q) {
      assert Holds(b, s, q) == Holds(a, s, q);
    }
  }

  lemma GainsTo<K(!new), V(!new)>(a: Table<K, V>, b: Table<K, V>, c: Table<K, V>, s: Scheme<K>, k: K, v: V)
    requires Same(a, b, s) && Gains(b, c, s, k, v)
    ensures Gains(a, c, s, k, v)
  {
    forall q ensures Holds(c, s, q) == Holds(a, s, q) + One(Used(0, k, v), q) {
      assert Holds(b, s, q) == Holds(a, s, q);
    }
  }

  lemma GainsFrom<K(!new), V(!new)>(a: Table<K, V>, b: Table<K, V>, c: Table<K, V>, s: Scheme<K>, k: K, v: V)
    requires Gains(a, b, s, k, v) && Same(c, b, s)
    ensures Gains(a, c, s, k, v)
  {
    forall q ensures Holds(c, s, q) == Holds(a, s, q) + One(Used(0, k, v), q) {
      assert Holds(b, s, q) == Holds(c, s, q);
    }
  }

  /** A filled slot accounts for its key and its pair, and for no other pair of that key. */
  lemma FoundOnce<K(!new), V(!new)>(t: Table<K, V>, s: Scheme<K>, k: K, i: nat, j: nat)
    requires OneSlotPerKey(t, s) && i < |t.buckets| && j < |t.buckets[i]| && t.buckets[i][j].Used? && t.buckets[i][j].key == k
    ensures Holds(t, s, Key(k)) == 1
    ensures forall v :: Holds(t, s, Pair(k, v)) == if v == t.buckets[i][j].value then 1 else 0
  {
    var v0 := t.buckets[i][j].value;
    CountAt(t.buckets[i], j, Key(k));
    AllAt(t.buckets, i, Key(k));
    CountAt(t.buckets[i], j, Pair(k, v0));
    AllAt(t.buckets, i, Pair(k, v0));
    assert Holds(t, s, Key(k)) <= 1;
    forall v ensures Holds(t, s, Pair(k, v)) == if v == v0 then 1 else 0 {
      AllPairs(t.buckets, k, v0, v);
      PendingPairs(t.prior, t.migrated, s.lock, k, v0, v);
    }
  }

  lemma AbsentKey<K(!new), V(!new)>(t: Table<K, V>, s: Scheme<K>, spb: nat, k: K)
    requires Shape(t, s, spb) && Pending(t.prior, t.migrated, s.lock, Key(k)) == 0
    requires forall b: nat, x :: Mine(s, t.hp, k, b) && b < |t.buckets| && 0 <= x < |t.buckets[b]| && t.buckets[b][x].Used? ==>
               t.buckets[b][x].key != k
    ensures Holds(t, s, Key(k)) == 0
    ensures forall v :: Holds(t, s, Pair(k, v)) == 0
  {
    if All(t.buckets, Key(k)) > 0 {
      var i, j := InTwoBuckets(t, s, spb, k);
      assert false;
    }
    forall v ensures Holds(t, s, Pair(k, v)) == 0 {
      AllPairs(t.buckets, k, v, v);
      PendingPairs(t.prior, t.migrated, s.lock, k, v, v);
    }
  }

  /** Pairs of one key with different values add up to at most the slots of the key. */
  lemma {:induction false} CountPairs<K, V>(b: seq<Slot<K, V>>, k: K, v: V, w: V)
    ensures Count(b, Pair(k, v)) + (if v == w then 0 else Count(b, Pair(k, w))) <= Count(b, Key(k))
  {
    if b != [] { CountPairs(b[..|b| - 1], k, v, w); }
  }

  lemma {:induction false} AllPairs<K, V>(bs: seq<seq<Slot<K, V>>>, k: K, v: V, w: V)
    ensures All(bs, Pair(k, v)) + (if v == w then 0 else All(bs, Pair(k, w))) <= All(bs, Key(k))
  {
    if bs != [] {
      AllPairs(bs[..|bs| - 1], k, v, w);
      CountPairs(bs[|bs| - 1], k, v, w);
    }
  }

  lemma {:induction false} PendingPairs<K, V>(bs: seq<seq<Slot<K, V>>>, migrated: seq<bool>, lock: nat -> nat, k: K, v: V, w: V)
    ensures Pending(bs, migrated, lock, Pair(k, v)) + (if v == w then 0 else Pending(bs, migrated, lock, Pair(k, w)))
              <= Pending(bs, migrated, lock, Key(k))
  {
    if bs != [] {
      PendingPairs(bs[..|bs| - 1], migrated, lock, k, v, w);
      CountPairs(bs[|bs| - 1], k, v, w);
    }
  }

  lemma AddedKeeps<K(!new), V(!new)>(t: Table<K, V>, s: Scheme<K>, spb: nat, i: nat, j: nat, x: Slot<K, V>)
    requires Shape(t, s, spb) && OneSlotPerKey(t, s) && i < |t.buckets| && j < spb && |t.buckets[i]| == spb && t.buckets[i][j].Free?
    requires x.Used? && Mine(s, t.hp, x.key, i) && x.partial == s.partial(s.hash(x.key))
    requires Done(t.migrated, s.lock(i)) && Holds(t, s, Key(x.key)) == 0
    ensures var t' := Put(t, i, j, x);
      && Shape(t', s, spb) && OneSlotPerKey(t', s) && Holds(t', s, Any) == Holds(t, s, Any) + 1
      && Gains(t, t', s, x.key, x.value)
  {
    var t' := Put(t, i, j, x);
    PutOk(t, s, spb, i, j, x);
    forall q ensures Holds(t', s, q) == Holds(t, s, q) + One(Used(0, x.key, x.value), q) {
      PutHolds(t, s, i, j, x, q);
    }
    assert forall k :: Holds(t', s, Key(k)) == Holds(t, s, Key(k)) + One(Used(0, x.key, x.value), Key(k));
  }

  lemma DeletedKeeps<K(!new), V(!new)>(t: Table<K, V>, s: Scheme<K>, spb: nat, i: nat, j: nat)
    requires Shape(t, s, spb) && OneSlotPerKey(t, s) && i < |t.buckets| && j < spb && |t.buckets[i]| == spb && t.buckets[i][j].Used?
    requires Done(t.migrated, s.lock(i))
    ensures var t' := Put(t, i, j, Free);
      && Shape(t', s, spb) && OneSlotPerKey(t', s) && Holds(t', s, Any) == Holds(t, s, Any) - 1
      && Gains(t', t, s, t.buckets[i][j].key, t.buckets[i][j].value)
  {
    var t' := Put(t, i, j, Free);
    PutOk(t, s, spb, i, j, Free);
    var x := t.buckets[i][j];
    forall q ensures Holds(t, s, q) == Holds(t', s, q) + One(Used(0, x.key, x.value), q) {
      PutHolds(t, s, i, j, Free, q);
    }
    assert forall k :: Holds(t, s, Key(k)) == Holds(t', s, Key(k)) + One(Used(0, x.key, x.value), Key(k));
  }

  lemma MarkedKeeps<K(!new), V(!new)>(t: Table<K, V>, bs: seq<seq<Slot<K, V>>>, s: Scheme<K>, spb: nat, l: nat, end: nat)
    requires Sound(s) && Shape(t, s, spb) && OneSlotPerKey(t, s) && l < |t.migrated| && !t.migrated[l]
    requires Midway(t, bs, s, spb, l, end) && end >= |t.prior|
    ensures var t' := Marked(t, bs, l);
      && Shape(t', s, spb) && Same(t, t', s) && OneSlotPerKey(t', s) && Holds(t', s, Any) == Holds(t, s, Any)
      && Left(t'.migrated) == Left(t.migrated) - 1 && (Left(t'.migrated) == 0 <==> AllDone(t'.migrated))
  {
    MidwayEnd(t, bs, s, spb, l, end);
    MidwaySame(t, bs, s, spb, l, end);
    SameKeeps(t, Marked(t, bs, l), s);
    LeftMark(t.migrated, l);
    LeftZero(Marked(t, bs, l).migrated);
  }

  /** A table of free slots. */
  lemma NewTable<K(!new), V(!new)>(t: Table<K, V>, s: Scheme<K>, spb: nat)
    requires |t.buckets| == Pow2(t.hp) && |t.migrated| == Locks(t.hp, s.lb) && AllDone(t.migrated) && t.prior == []
    requires forall i :: 0 <= i < |t.buckets| ==> |t.buckets[i]| == spb && Vacant(t.buckets[i])
    ensures Shape(t, s, spb) && (forall q :: Holds(t, s, q) == 0) && OneSlotPerKey(t, s) && Left(t.migrated) == 0
  {
    NewRows(t.buckets);
    LeftZero(t.migrated);
    forall q ensures Holds(t, s, q) == 0 { assert All(t.buckets, q) == 0; }
  }

  lemma NewRows<K, V>(bs: seq<seq<Slot<K, V>>>)
    requires forall i :: 0 <= i < |bs| ==> Vacant(bs[i])
    ensures forall q :: All(bs, q) == 0
  {
    forall q ensures All(bs, q) == 0 {
      forall i | 0 <= i < |bs| ensures Count(bs[i], q) == 0 { CountFree(bs[i], q); }
      AllFree(bs, q);
    }
  }

  lemma SameKeeps<K(!new), V(!new)>(t: Table<K, V>, t': Table<K, V>, s: Scheme<K>)
    requires Same(t, t', s) && OneSlotPerKey(t, s)
    ensures OneSlotPerKey(t', s) && Holds(t', s, Any) == Holds(t, s, Any)
  {
    forall k ensures Holds(t', s, Key(k)) <= 1 {
      assert Holds(t', s, Key(k)) == Holds(t, s, Key(k));
    }
  }
}
