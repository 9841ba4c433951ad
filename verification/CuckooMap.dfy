/**
  The concurrent cuckoo hash map (include/libcuckoo/cuckoohash_map.hh) between two locked
  sections: every method below is what one thread does while it holds the locks involved, so
  a concurrent run is a sequence of calls in any order.

  Each bucket array entry is a fixed row of slots; a stripe is the set of buckets guarded by
  one lock.  Doubling moves the rows to `prior` and leaves them there until the stripe's lock
  is next taken.
 */
module CuckooMap {
  import opened Basics
  import opened Bits
  import opened CuckooBuckets

  // ---------------------------------------------------------------- the invariant

  datatype Table<K, V> = Table(hp: nat, buckets: seq<seq<Slot<K, V>>>,
                               prior: seq<seq<Slot<K, V>>>, migrated: seq<bool>)

  /** Every stored key is in one of its two buckets, with the partial key of its hash. */
  ghost predicate RowOk<K, V>(b: seq<Slot<K, V>>, s: Scheme<K>, hp: nat, i: nat) {
    forall j :: 0 <= j < |b| && b[j].Used? ==> Mine(s, hp, b[j].key, i) && b[j].partial == s.partial(s.hash(b[j].key))
  }

  predicate Vacant<K, V>(b: seq<Slot<K, V>>) { forall j :: 0 <= j < |b| ==> b[j].Free? }

  ghost predicate RowsOk<K, V>(bs: seq<seq<Slot<K, V>>>, s: Scheme<K>, hp: nat, spb: nat) {
    forall i :: 0 <= i < |bs| ==> |bs[i]| == spb && RowOk(bs[i], s, hp, i)
  }

  /** The number of locks: at most 2^lb, at most one per bucket. */
  function Locks(hp: nat, lb: nat): nat { if lb <= hp then Pow2(lb) else Pow2(hp) }

  predicate AllDone(migrated: seq<bool>) { forall l :: 0 <= l < |migrated| ==> migrated[l] }

  /** Migration is only ever pending when the table had at least one bucket per lock. */
  ghost predicate OldOk<K, V>(t: Table<K, V>, s: Scheme<K>, spb: nat) {
    && t.hp > s.lb
    && |t.prior| == Pow2(t.hp - 1)
    && RowsOk(t.prior, s, t.hp - 1, spb)
    && forall i :: 0 <= i < |t.buckets| && !Done(t.migrated, s.lock(i)) ==> Vacant(t.buckets[i])
  }

  ghost function Holds<K, V>(t: Table<K, V>, s: Scheme<K>, q: Query<K, V>): nat {
    All(t.buckets, q) + Pending(t.prior, t.migrated, s.lock, q)
  }

  ghost predicate Shape<K, V>(t: Table<K, V>, s: Scheme<K>, spb: nat) {
    && |t.buckets| == Pow2(t.hp)
    && |t.migrated| == Locks(t.hp, s.lb)
    && RowsOk(t.buckets, s, t.hp, spb)
    && (if AllDone(t.migrated) then t.prior == [] else OldOk(t, s, spb))
  }

  ghost predicate OneSlotPerKey<K(!new), V(!new)>(t: Table<K, V>, s: Scheme<K>) {
    forall k :: Holds(t, s, Key(k)) <= 1
  }

  /** Nothing was lost, duplicated or changed. */
  ghost predicate Same<K(!new), V(!new)>(t: Table<K, V>, t': Table<K, V>, s: Scheme<K>) {
    forall q :: Holds(t', s, q) == Holds(t, s, q)
  }

  // ---------------------------------------------------------------- moving a bucket

  /** Together the two rows hold what the source row holds. */
  ghost predicate Splits<K(!new), V(!new)>(lo: seq<Slot<K, V>>, hi: seq<Slot<K, V>>, src: seq<Slot<K, V>>) {
    forall q :: Count(lo, q) + Count(hi, q) == Count(src, q)
  }

  lemma SplitStep<K(!new), V(!new)>(lo: seq<Slot<K, V>>, hi: seq<Slot<K, V>>, src: seq<Slot<K, V>>, j: nat, n: nat)
    requires j < |src| && Splits(lo, hi, src[..j]) && j < |lo| && lo[j].Free? && n < |hi| && hi[n].Free?
    ensures src[j].Free? ==> Splits(lo, hi, src[..j + 1])
    ensures Splits(lo[j := src[j]], hi, src[..j + 1])
    ensures Splits(lo, hi[n := src[j]], src[..j + 1])
  {
    assert src[..j + 1][..j] == src[..j];
    var lo', hi' := lo[j := src[j]], hi[n := src[j]];
    forall q
      ensures src[j].Free? ==> Count(lo, q) + Count(hi, q) == Count(src[..j + 1], q)
      ensures Count(lo', q) + Count(hi, q) == Count(src[..j + 1], q)
      ensures Count(lo, q) + Count(hi', q) == Count(src[..j + 1], q)
    {
      assert Count(lo, q) + Count(hi, q) == Count(src[..j], q);
      CountUpdate(lo, j, src[j], q);
      CountUpdate(hi, n, src[j], q);
    }
  }

  lemma RowPut<K, V>(b: seq<Slot<K, V>>, s: Scheme<K>, hp: nat, i: nat, j: nat, x: Slot<K, V>)
    requires RowOk(b, s, hp, i) && j < |b|
    requires x.Used? ==> Mine(s, hp, x.key, i) && x.partial == s.partial(s.hash(x.key))
    ensures RowOk(b[j := x], s, hp, i)
  {
  }

  /** The first j slots of a bucket were split; the rest of both rows is free. */
  ghost predicate SplitTo<K(!new), V(!new)>(lo: seq<Slot<K, V>>, hi: seq<Slot<K, V>>, src: seq<Slot<K, V>>, s: Scheme<K>,
                                            hp: nat, i: nat, j: nat, next: nat)
  {
    && next <= j <= |src| && |lo| == |hi| == |src|
    && (forall x :: j <= x < |src| ==> lo[x].Free?) && (forall x :: next <= x < |src| ==> hi[x].Free?)
    && RowOk(lo, s, hp + 1, i) && RowOk(hi, s, hp + 1, i + Pow2(hp))
    && Splits(lo, hi, src[..j])
  }

  lemma SplitOne<K(!new), V(!new)>(lo: seq<Slot<K, V>>, hi: seq<Slot<K, V>>, src: seq<Slot<K, V>>, s: Scheme<K>,
                                   hp: nat, i: nat, j: nat, next: nat)
    requires Sound(s) && RowOk(src, s, hp, i) && SplitTo(lo, hi, src, s, hp, i, j, next) && j < |src|
    ensures src[j].Free? ==> SplitTo(lo, hi, src, s, hp, i, j + 1, next)
    ensures src[j].Used? && Dest(s, hp, src[j].key, i) == i + Pow2(hp) ==> SplitTo(lo, hi[next := src[j]], src, s, hp, i, j + 1, next + 1)
    ensures src[j].Used? && Dest(s, hp, src[j].key, i) != i + Pow2(hp) ==> SplitTo(lo[j := src[j]], hi, src, s, hp, i, j + 1, next)
  {
    var x := src[j];
    SplitStep(lo, hi, src, j, next);
    if x.Used? {
      DestMine(s, hp, x.key, i);
      if Dest(s, hp, x.key, i) == i + Pow2(hp) {
        RowPut(hi, s, hp + 1, i + Pow2(hp), next, x);
      } else {
        RowPut(lo, s, hp + 1, i, j, x);
      }
    }
  }

  /** The rows a bucket splits into when the table doubles from hp to hp + 1: every pair goes,
      into a free slot, to the one of the two new buckets that is its own. */
  method SplitRow<K(!new), V(!new)>(src: seq<Slot<K, V>>, s: Scheme<K>, hp: nat, i: nat,
                                     lo0: seq<Slot<K, V>>, hi0: seq<Slot<K, V>>)
    returns (lo: seq<Slot<K, V>>, hi: seq<Slot<K, V>>)
    requires Sound(s)
    requires |src| == |lo0| == |hi0| && Vacant(lo0) && Vacant(hi0) && RowOk(src, s, hp, i)
    ensures |lo| == |hi| == |src|
    ensures RowOk(lo, s, hp + 1, i) && RowOk(hi, s, hp + 1, i + Pow2(hp))
    ensures Splits(lo, hi, src)
  {
    lo, hi := lo0, hi0;
    var j, next := 0, 0;
    forall q ensures Count(lo, q) + Count(hi, q) == 0 { CountFree(lo, q); CountFree(hi, q); }
    while j < |src|
      invariant 0 <= next <= j <= |src| && SplitTo(lo, hi, src, s, hp, i, j, next)
    {
      SplitOne(lo, hi, src, s, hp, i, j, next);
      var x := src[j];
      if x.Used? {
        if Dest(s, hp, x.key, i) == i + Pow2(hp) {
          hi, next := hi[next := x], next + 1;
        } else {
          lo := lo[j := x];
        }
      }
      j := j + 1;
    }
    assert src[..j] == src;
  }

  // ---------------------------------------------------------------- single slots

  function Put<K, V>(t: Table<K, V>, i: nat, j: nat, x: Slot<K, V>): Table<K, V>
    requires i < |t.buckets| && j < |t.buckets[i]|
  {
    t.(buckets := t.buckets[i := t.buckets[i][j := x]])
  }

  /** Writing a slot of a migrated stripe. */
  lemma PutOk<K, V>(t: Table<K, V>, s: Scheme<K>, spb: nat, i: nat, j: nat, x: Slot<K, V>)
    requires Shape(t, s, spb) && i < |t.buckets| && j < spb && Done(t.migrated, s.lock(i))
    requires x.Used? ==> Mine(s, t.hp, x.key, i) && x.partial == s.partial(s.hash(x.key))
    ensures Shape(Put(t, i, j, x), s, spb)
  {
    RowPut(t.buckets[i], s, t.hp, i, j, x);
    if !AllDone(t.migrated) {
      assert OldOk(Put(t, i, j, x), s, spb);
    }
  }

  lemma PutHolds<K, V>(t: Table<K, V>, s: Scheme<K>, i: nat, j: nat, x: Slot<K, V>, q: Query<K, V>)
    requires i < |t.buckets| && j < |t.buckets[i]|
    ensures Holds(Put(t, i, j, x), s, q) + One(t.buckets[i][j], q) == Holds(t, s, q) + One(x, q)
  {
    SetSlot(t.buckets, i, j, x, q);
  }

  /** One displacement: the pair moves to a free slot of its other bucket. */
  lemma DisplaceOk<K(!new), V(!new)>(t: Table<K, V>, s: Scheme<K>, spb: nat, i: nat, j: nat, i': nat, j': nat)
    requires Sound(s) && Shape(t, s, spb) && i < |t.buckets| && j < spb && i' < |t.buckets| && j' < spb
    requires Done(t.migrated, s.lock(i)) && Done(t.migrated, s.lock(i'))
    requires t.buckets[i][j].Used? && t.buckets[i'][j'].Free? && i' == s.other(t.hp, t.buckets[i][j].partial, i)
    ensures var t' := Put(Put(t, i', j', t.buckets[i][j]), i, j, Free);
      Shape(t', s, spb) && Same(t, t', s)
  {
    var x := t.buckets[i][j];
    assert RowOk(t.buckets[i], s, t.hp, i) && SoundAt(s, t.hp, s.hash(x.key));
    var t1 := Put(t, i', j', x);
    PutOk(t, s, spb, i', j', x);
    PutOk(t1, s, spb, i, j, Free);
    var t2 := Put(t1, i, j, Free);
    forall q ensures Holds(t2, s, q) == Holds(t, s, q) {
      PutHolds(t, s, i', j', x, q);
      PutHolds(t1, s, i, j, Free, q);
    }
  }

  // ---------------------------------------------------------------- lookup

  /** A key whose two stripes are migrated is not waiting in an old bucket. */
  lemma NotPending<K(!new), V(!new)>(t: Table<K, V>, s: Scheme<K>, spb: nat, k: K)
    requires Sound(s) && Shape(t, s, spb)
    requires Done(t.migrated, s.lock(s.first(t.hp, s.hash(k)))) && Done(t.migrated, s.lock(s.second(t.hp, s.hash(k))))
    ensures Pending(t.prior, t.migrated, s.lock, Key(k)) == 0
  {
    if Pending(t.prior, t.migrated, s.lock, Key(k)) > 0 {
      var i := FindPending(t.prior, t.migrated, s.lock, Key(k));
      var j := FindCounted(t.prior[i], Key(k));
      assert RowOk(t.prior[i], s, t.hp - 1, i);
      var b := SameStripe(s, t.hp - 1, k, i);
      assert false;
    }
  }

  /** A stored key is in a slot of one of its two buckets. */
  lemma InTwoBuckets<K(!new), V(!new)>(t: Table<K, V>, s: Scheme<K>, spb: nat, k: K) returns (i: nat, j: nat)
    requires Shape(t, s, spb) && All(t.buckets, Key(k)) > 0
    ensures i < |t.buckets| && Mine(s, t.hp, k, i) && j < |t.buckets[i]| && t.buckets[i][j].Used? && t.buckets[i][j].key == k
  {
    i := FindInAll(t.buckets, Key(k));
    j := FindCounted(t.buckets[i], Key(k));
    assert RowOk(t.buckets[i], s, t.hp, i);
  }

  // ---------------------------------------------------------------- migrating a stripe

  /** The old buckets of stripe l below `ind` have been moved, starting from the rows of t. */
  ghost predicate Midway<K(!new), V(!new)>(t: Table<K, V>, bs: seq<seq<Slot<K, V>>>, s: Scheme<K>, spb: nat, l: nat, ind: nat) {
    MidRows(t, bs, s, spb, l, ind) && MidCounts(t, bs, s, l, ind)
  }

  ghost predicate MidRows<K, V>(t: Table<K, V>, bs: seq<seq<Slot<K, V>>>, s: Scheme<K>, spb: nat, l: nat, ind: nat) {
    && |bs| == |t.buckets| && RowsOk(bs, s, t.hp, spb)
    && (forall x :: 0 <= x < |bs| && s.lock(x) != l ==> bs[x] == t.buckets[x])
    && (forall x :: ind <= x < |t.prior| && s.lock(x) == l ==>
          x + |t.prior| < |bs| && Vacant(bs[x]) && Vacant(bs[x + |t.prior|]))
  }

  ghost predicate MidCounts<K(!new), V(!new)>(t: Table<K, V>, bs: seq<seq<Slot<K, V>>>, s: Scheme<K>, l: nat, ind: nat) {
    forall q :: All(bs, q) == All(t.buckets, q) + Stripe(t.prior[..Min(ind, |t.prior|)], l, s.lock, q)
  }

  lemma MidwayStart<K(!new), V(!new)>(t: Table<K, V>, s: Scheme<K>, spb: nat, l: nat)
    requires Sound(s) && Shape(t, s, spb) && l < |t.migrated| && !t.migrated[l]
    ensures Midway(t, t.buckets, s, spb, l, l) && l < |t.prior| && s.lock(l) == l
  {
    var n := |t.prior|;
    Pow2Mono(s.lb, t.hp - 1);
    assert LockAt(s, l, 0);
    forall x | l <= x < n && s.lock(x) == l ensures x + n < |t.buckets| && Vacant(t.buckets[x]) && Vacant(t.buckets[x + n]) {
      assert LockAt(s, x, t.hp - 1);
    }
    forall x | 0 <= x < l ensures s.lock(x) != l { assert LockAt(s, x, 0); }
    forall q ensures Stripe(t.prior[..l], l, s.lock, q) == 0 { StripeGap(t.prior, l, s.lock, 0, l, q); }
  }

  /** The stripe up to the next bucket of the stripe gains exactly this bucket. */
  lemma StripeNext<K(!new), V>(prior: seq<seq<Slot<K, V>>>, s: Scheme<K>, l: nat, ind: nat, q: Query<K, V>)
    requires Sound(s) && ind < |prior| && s.lock(ind) == l
    ensures Stripe(prior[..Min(ind + Pow2(s.lb), |prior|)], l, s.lock, q) == Stripe(prior[..ind], l, s.lock, q) + Count(prior[ind], q)
  {
    var to := Min(ind + Pow2(s.lb), |prior|);
    forall x | ind + 1 <= x < to ensures s.lock(x) != l { assert LockAt(s, ind, x - ind); }
    StripeGap(prior, l, s.lock, ind + 1, to, q);
    assert prior[..ind + 1][..ind] == prior[..ind];
  }

  lemma MidwayCounts<K(!new), V(!new)>(t: Table<K, V>, bs: seq<seq<Slot<K, V>>>, s: Scheme<K>, l: nat, ind: nat,
                                       lo: seq<Slot<K, V>>, hi: seq<Slot<K, V>>, q: Query<K, V>)
    requires Sound(s) && ind < |t.prior| && s.lock(ind) == l && ind + |t.prior| < |bs|
    requires Vacant(bs[ind]) && Vacant(bs[ind + |t.prior|])
    requires All(bs, q) == All(t.buckets, q) + Stripe(t.prior[..ind], l, s.lock, q)
    requires Count(lo, q) + Count(hi, q) == Count(t.prior[ind], q)
    ensures var bs' := bs[ind := lo][ind + |t.prior| := hi];
      All(bs', q) == All(t.buckets, q) + Stripe(t.prior[..Min(ind + Pow2(s.lb), |t.prior|)], l, s.lock, q)
  {
    var n := |t.prior|;
    AllUpdate(bs, ind, lo, q);
    AllUpdate(bs[ind := lo], ind + n, hi, q);
    CountFree(bs[ind], q);
    CountFree(bs[ind + n], q);
    StripeNext(t.prior, s, l, ind, q);
  }

  lemma RowsPut<K, V>(bs: seq<seq<Slot<K, V>>>, s: Scheme<K>, hp: nat, spb: nat, i: nat, b: seq<Slot<K, V>>)
    requires RowsOk(bs, s, hp, spb) && i < |bs| && |b| == spb && RowOk(b, s, hp, i)
    ensures RowsOk(bs[i := b], s, hp, spb)
  {
  }

  lemma MidRowsStep<K(!new), V(!new)>(t: Table<K, V>, bs: seq<seq<Slot<K, V>>>, s: Scheme<K>, spb: nat, l: nat, ind: nat,
                                      lo: seq<Slot<K, V>>, hi: seq<Slot<K, V>>)
    requires MidRows(t, bs, s, spb, l, ind) && ind < |t.prior| && s.lock(ind) == l == s.lock(ind + |t.prior|)
    requires |lo| == |hi| == spb && RowOk(lo, s, t.hp, ind) && RowOk(hi, s, t.hp, ind + |t.prior|)
    ensures MidRows(t, bs[ind := lo][ind + |t.prior| := hi], s, spb, l, ind + Pow2(s.lb))
  {
    var n := |t.prior|;
    var bs' := bs[ind := lo][ind + n := hi];
    RowsPut(bs, s, t.hp, spb, ind, lo);
    RowsPut(bs[ind := lo], s, t.hp, spb, ind + n, hi);
    forall x | ind + Pow2(s.lb) <= x < n && s.lock(x) == l
      ensures x + n < |bs'| && Vacant(bs'[x]) && Vacant(bs'[x + n])
    {
      assert Vacant(bs[x]) && Vacant(bs[x + n]);
      assert bs'[x] == bs[x] && bs'[x + n] == bs[x + n];
    }
  }

  lemma MidCountsStep<K(!new), V(!new)>(t: Table<K, V>, bs: seq<seq<Slot<K, V>>>, s: Scheme<K>, l: nat, ind: nat,
                                        lo: seq<Slot<K, V>>, hi: seq<Slot<K, V>>)
    requires Sound(s) && MidCounts(t, bs, s, l, ind) && ind < |t.prior| && s.lock(ind) == l && ind + |t.prior| < |bs|
    requires Vacant(bs[ind]) && Vacant(bs[ind + |t.prior|]) && Splits(lo, hi, t.prior[ind])
    ensures MidCounts(t, bs[ind := lo][ind + |t.prior| := hi], s, l, ind + Pow2(s.lb))
  {
    var bs' := bs[ind := lo][ind + |t.prior| := hi];
    forall q ensures All(bs', q) == All(t.buckets, q) + Stripe(t.prior[..Min(ind + Pow2(s.lb), |t.prior|)], l, s.lock, q) {
      MidwayCounts(t, bs, s, l, ind, lo, hi, q);
    }
  }

  /** What move_bucket needs at the next old bucket of the stripe. */
  lemma MidwayHere<K(!new), V(!new)>(t: Table<K, V>, bs: seq<seq<Slot<K, V>>>, s: Scheme<K>, spb: nat, l: nat, ind: nat)
    requires Sound(s) && Shape(t, s, spb) && !AllDone(t.migrated)
    requires MidRows(t, bs, s, spb, l, ind) && ind < |t.prior| && s.lock(ind) == l
    ensures t.hp > s.lb && |t.prior| == Pow2(t.hp - 1) && ind + |t.prior| < |bs|
    ensures |t.prior[ind]| == |bs[ind]| == |bs[ind + |t.prior|]| == spb && RowOk(t.prior[ind], s, t.hp - 1, ind)
    ensures Vacant(bs[ind]) && Vacant(bs[ind + |t.prior|])
    ensures s.lock(ind + Pow2(s.lb)) == l == s.lock(ind + |t.prior|)
  {
    assert LockAt(s, ind, s.lb) && LockAt(s, ind, t.hp - 1);
  }

  /** Splitting the next old bucket of the stripe. */
  lemma MidwayStep<K(!new), V(!new)>(t: Table<K, V>, bs: seq<seq<Slot<K, V>>>, bs': seq<seq<Slot<K, V>>>, s: Scheme<K>, spb: nat,
                                     l: nat, ind: nat, lo: seq<Slot<K, V>>, hi: seq<Slot<K, V>>)
    requires Sound(s) && Midway(t, bs, s, spb, l, ind) && ind < |t.prior| && ind + |t.prior| < |bs|
    requires s.lock(ind) == l == s.lock(ind + |t.prior|) && Vacant(bs[ind]) && Vacant(bs[ind + |t.prior|])
    requires bs' == bs[ind := lo][ind + |t.prior| := hi] && |lo| == |hi| == spb
    requires RowOk(lo, s, t.hp, ind) && RowOk(hi, s, t.hp, ind + |t.prior|) && Splits(lo, hi, t.prior[ind])
    ensures Midway(t, bs', s, spb, l, ind + Pow2(s.lb))
  {
    MidRowsStep(t, bs, s, spb, l, ind, lo, hi);
    MidCountsStep(t, bs, s, l, ind, lo, hi);
  }

  /** Setting the flag once the whole stripe has been moved; the last one releases `prior`. */
  function Marked<K, V>(t: Table<K, V>, bs: seq<seq<Slot<K, V>>>, l: nat): Table<K, V>
    requires l < |t.migrated|
  {
    var m := t.migrated[l := true];
    Table(t.hp, bs, if AllDone(m) then [] else t.prior, m)
  }

  lemma MidwayEnd<K(!new), V(!new)>(t: Table<K, V>, bs: seq<seq<Slot<K, V>>>, s: Scheme<K>, spb: nat, l: nat, ind: nat)
    requires Shape(t, s, spb) && l < |t.migrated| && !t.migrated[l]
    requires Midway(t, bs, s, spb, l, ind) && ind >= |t.prior|
    ensures Shape(Marked(t, bs, l), s, spb)
  {
    var t' := Marked(t, bs, l);
    if !AllDone(t'.migrated) {
      forall i | 0 <= i < |bs| && !Done(t'.migrated, s.lock(i)) ensures Vacant(bs[i]) {
        assert s.lock(i) != l;
        assert !Done(t.migrated, s.lock(i));
      }
    }
  }

  lemma MidwaySame<K(!new), V(!new)>(t: Table<K, V>, bs: seq<seq<Slot<K, V>>>, s: Scheme<K>, spb: nat, l: nat, ind: nat)
    requires Sound(s) && Shape(t, s, spb) && l < |t.migrated| && !t.migrated[l]
    requires Midway(t, bs, s, spb, l, ind) && ind >= |t.prior|
    ensures Same(t, Marked(t, bs, l), s)
  {
    var t' := Marked(t, bs, l);
    assert t.prior[..|t.prior|] == t.prior;
    forall q ensures Holds(t', s, q) == Holds(t, s, q) {
      PendingMark(t.prior, t.migrated, s.lock, l, q);
      if AllDone(t'.migrated) {
        assert forall i :: 0 <= i < |t.prior| ==> Done(t'.migrated, s.lock(i)) by { forall i | 0 <= i < |t.prior| ensures Done(t'.migrated, s.lock(i)) { assert LockAt(s, i, 0); } }
        PendingNone(t.prior, t'.migrated, s.lock, q);
      }
    }
  }

  // ---------------------------------------------------------------- counters

  function Sum(c: seq<int>): int { if c == [] then 0 else Sum(c[..|c| - 1]) + c[|c| - 1] }

  lemma {:induction false} SumUpdate(c: seq<int>, i: nat, x: int)
    requires i < |c|
    ensures Sum(c[i := x]) == Sum(c) - c[i] + x
  {
    var n := |c| - 1;
    if i == n { assert c[i := x][..n] == c[..n]; } else {
      assert c[i := x][..n] == c[..n][i := x];
      SumUpdate(c[..n], i, x);
    }
  }

  lemma {:induction false} SumPad(c: seq<int>, n: nat)
    ensures Sum(c + seq(n, _ => 0)) == Sum(c)
  {
    var pad := seq(n, _ => 0);
    if n == 0 { assert c + pad == c; } else {
      assert (c + pad)[..|c| + n - 1] == c + seq(n - 1, _ => 0);
      SumPad(c, n - 1);
    }
  }

  /** The number of locks whose stripe still has to be migrated. */
  function Left(m: seq<bool>): nat { if m == [] then 0 else Left(m[..|m| - 1]) + if m[|m| - 1] then 0 else 1 }

  lemma {:induction false} LeftMark(m: seq<bool>, l: nat)
    requires l < |m| && !m[l]
    ensures Left(m[l := true]) == Left(m) - 1
  {
    var n := |m| - 1;
    if l == n { assert m[l := true][..n] == m[..n]; } else {
      assert m[l := true][..n] == m[..n][l := true];
      LeftMark(m[..n], l);
    }
  }

  lemma {:induction false} LeftZero(m: seq<bool>)
    ensures Left(m) == 0 <==> AllDone(m)
  {
    if m != [] {
      LeftZero(m[..|m| - 1]);
      assert forall l :: 0 <= l < |m| - 1 ==> m[..|m| - 1][l] == m[l];
    }
  }

  lemma {:induction false} LeftNone(n: nat)
    ensures Left(seq(n, _ => false)) == n
  {
    if n > 0 {
      assert seq(n, _ => false)[..n - 1] == seq(n - 1, _ => false);
      LeftNone(n - 1);
    }
  }
}
