/**
  The two candidate buckets of a key in the concurrent cuckoo hash map
  (include/libcuckoo/cuckoohash_map.hh), how they change when the table doubles, and the
  contents of bucket arrays as multisets of key-value pairs.
 */
module CuckooBuckets {
  import opened Bits

  const MURMUR: nat := 0xc6a4a7935bd1e995

  /** partial_key: folds the hash to eight bits; it does not depend on the table size. */
  function Partial(hash: nat): nat {
    var h32 := Xor(Low(hash, 32), Low(hash / 0x1_0000_0000, 32));
    var h16 := Xor(Low(h32, 16), Low(h32 / 0x1_0000, 16));
    Low(Xor(h16, h16 / 0x100), 8)
  }

  function Index(hp: nat, hash: nat): (r: nat)
    ensures r < Pow2(hp)
  {
    Low(hash, hp)
  }

  /** The odd multiplier keeps the tag nonzero; the product wraps at 64 bits. */
  function Tag(partial: nat): nat { Low((partial + 1) * MURMUR, 64) }

  function Alt(hp: nat, partial: nat, index: nat): (r: nat)
    ensures r < Pow2(hp)
  {
    Low(Xor(index, Tag(partial)), hp)
  }

  /** The alternate of the alternate is the bucket itself. */
  lemma AltInvolution(hp: nat, partial: nat, index: nat)
    requires index < Pow2(hp)
    ensures Alt(hp, partial, Alt(hp, partial, index)) == index
  {
    var tag := Tag(partial);
    XorLow(Xor(index, tag), tag, hp);
    XorCancel(index, tag);
    LowSmall(index, hp);
  }

  /** With at least 512 buckets the two buckets of a key differ: the tag of eight bits and one is not
      nought, and multiplying by an odd number does not clear its low bits. */
  lemma AltDiffers(hp: nat, hash: nat, index: nat)
    requires index < Pow2(hp) && hp >= 9
    ensures Alt(hp, Partial(hash), index) != index
  {
    var p := Partial(hash);
    assert Pow2(8) == 256 && Pow2(9) == 512 && p < Pow2(8);
    if Alt(hp, p, index) == index {
      LowSmall(index, hp);
      XorFixed(index, Tag(p), hp);
      LowLow(Tag(p), 9, hp);
      LowZero(9);
      LowLow((p + 1) * MURMUR, 9, 64);
      OddTimes(p + 1, MURMUR, 9);
      LowSmall(p + 1, 9);
    }
  }

  /** What a tag does not change has nought where the tag is taken. */
  lemma {:induction false} XorFixed(x: nat, tag: nat, k: nat)
    requires Low(Xor(x, tag), k) == Low(x, k)
    ensures Low(tag, k) == 0
    decreases k
  {
    if k > 0 {
      XorBits(x, tag);
      XorFixed(x / 2, tag / 2, k - 1);
    }
  }

  lemma {:induction false} LowZero(k: nat)
    ensures Low(0, k) == 0
  {
    if k > 0 { LowZero(k - 1); }
  }

  lemma {:induction false} OddTimes(x: nat, m: nat, k: nat)
    requires m % 2 == 1 && Low(x * m, k) == 0
    ensures Low(x, k) == 0
    decreases k
  {
    if k > 0 {
      OddParity(x, m);
      var y := x / 2;
      assert x == 2 * y && x * m == 2 * (y * m);
      OddTimes(y, m, k - 1);
    }
  }

  lemma OddParity(x: nat, m: nat)
    requires m % 2 == 1 && (x * m) % 2 == 0
    ensures x % 2 == 0
  {
    var h := m / 2;
    assert x * m == 2 * (x * h) + x;
  }

  lemma XorGrows(x: nat, tag: nat, k: nat)
    ensures Low(Xor(x, tag), k + 1) == Low(Xor(Low(x, k), tag), k) ||
            Low(Xor(x, tag), k + 1) == Low(Xor(Low(x, k), tag), k) + Pow2(k)
  {
    TopBit(Xor(x, tag), k);
    XorLow(x, tag, k);
  }

  /** Doubling adds one bit on top of either bucket. */
  lemma BucketsGrow(hp: nat, hash: nat)
    ensures Index(hp + 1, hash) == Index(hp, hash) || Index(hp + 1, hash) == Index(hp, hash) + Pow2(hp)
    ensures var i, j := Alt(hp, Partial(hash), Index(hp, hash)), Alt(hp + 1, Partial(hash), Index(hp + 1, hash));
      j == i || j == i + Pow2(hp)
  {
    TopBit(hash, hp);
    LowLow(hash, hp, hp + 1);
    XorGrows(Low(hash, hp + 1), Tag(Partial(hash)), hp);
  }

  // ---------------------------------------------------------------- the scheme

  /** How keys are assigned to buckets at each table size 2^hp, and buckets to 2^lb locks. */
  datatype Scheme<!K> = Scheme(hash: K -> nat, first: (nat, nat) -> nat, second: (nat, nat) -> nat,
                               other: (nat, nat, nat) -> nat, partial: nat -> nat,
                               lb: nat, lock: nat -> nat)

  /** index_hash, alt_index, partial_key and lock_ind. */
  function Libcuckoo<K>(hash: K -> nat, lb: nat): Scheme<K> {
    Scheme(hash,
           (hp, h) => Index(hp, h),
           (hp, h) => Alt(hp, Partial(h), Index(hp, h)),
           (hp, partial, index) => Alt(hp, partial, index),
           h => Partial(h),
           lb, i => Low(i, lb))
  }

  ghost predicate SoundAt<K>(s: Scheme<K>, hp: nat, h: nat) {
    var i, j, i', j' := s.first(hp, h), s.second(hp, h), s.first(hp + 1, h), s.second(hp + 1, h);
    && i < Pow2(hp) && j < Pow2(hp)
    && s.other(hp, s.partial(h), i) == j && s.other(hp, s.partial(h), j) == i
    && (i' == i || i' == i + Pow2(hp))
    && (j' == j || j' == j + Pow2(hp))
  }

  ghost predicate LockAt<K>(s: Scheme<K>, i: nat, k: nat) {
    && (i < Pow2(s.lb) ==> s.lock(i) == i)
    && s.lock(i) < Pow2(s.lb)
    && (k >= s.lb ==> s.lock(i + Pow2(k)) == s.lock(i))
    && (0 < k < Pow2(s.lb) ==> s.lock(i + k) != s.lock(i))
  }

  /** What the map needs of a scheme: the other bucket can be computed from either bucket and
      the partial key, doubling adds one bit on top of each bucket, and the lock of a bucket
      is given by its low bits. */
  ghost predicate Sound<K>(s: Scheme<K>) {
    && (forall hp: nat, h: nat :: SoundAt(s, hp, h))
    && (forall i: nat, k: nat :: LockAt(s, i, k))
  }

  lemma LibcuckooSound<K>(hash: K -> nat, lb: nat)
    ensures Sound(Libcuckoo(hash, lb))
  {
    var s := Libcuckoo(hash, lb);
    forall hp: nat, h: nat ensures SoundAt(s, hp, h) {
      BucketsGrow(hp, h);
      AltInvolution(hp, Partial(h), Index(hp, h));
    }
    forall i: nat, k: nat ensures LockAt(s, i, k) {
      if i < Pow2(lb) { LowSmall(i, lb); }
      if k >= lb { LowAdd(i, lb, k); }
      if 0 < k < Pow2(lb) { LowGap(i, k, lb); }
    }
  }

  /** The bucket is one of the two that the key may be in. */
  predicate Mine<K>(s: Scheme<K>, hp: nat, k: K, b: nat) {
    b == s.first(hp, s.hash(k)) || b == s.second(hp, s.hash(k))
  }

  /** The rule by which move_bucket chooses between the old position and the one `2^hp` later. */
  function Dest<K>(s: Scheme<K>, hp: nat, k: K, b: nat): nat {
    var late, h := b + Pow2(hp), s.hash(k);
    if (b == s.first(hp, h) && s.first(hp + 1, h) == late) || (b == s.second(hp, h) && s.second(hp + 1, h) == late)
    then late else b
  }

  /** That choice is always one of the key's two buckets in the doubled table. */
  lemma DestMine<K>(s: Scheme<K>, hp: nat, k: K, b: nat)
    requires Sound(s) && Mine(s, hp, k, b)
    ensures Mine(s, hp + 1, k, Dest(s, hp, k, b)) && Dest(s, hp, k, b) in {b, b + Pow2(hp)}
  {
    assert SoundAt(s, hp, s.hash(k));
  }

  /** A key's bucket before doubling is guarded by the stripe of one of its buckets after it. */
  lemma SameStripe<K>(s: Scheme<K>, hp: nat, k: K, b: nat) returns (b': nat)
    requires Sound(s) && Mine(s, hp, k, b) && s.lb <= hp
    ensures Mine(s, hp + 1, k, b') && s.lock(b') == s.lock(b)
  {
    var h := s.hash(k);
    assert SoundAt(s, hp, h);
    b' := if b == s.first(hp, h) then s.first(hp + 1, h) else s.second(hp + 1, h);
    assert LockAt(s, b, hp);
  }

  // ---------------------------------------------------------------- contents

  datatype Slot<K, V> = Free | Used(partial: nat, key: K, value: V)

  /** What to count: every pair, the pairs with a key, or one pair. */
  datatype Query<K, V> = Any | Key(k: K) | Pair(k: K, v: V)

  ghost function One<K, V>(s: Slot<K, V>, q: Query<K, V>): nat {
    if s.Free? then 0
    else match q
      case Any => 1
      case Key(k) => if s.key == k then 1 else 0
      case Pair(k, v) => if s.key == k && s.value == v then 1 else 0
  }

  ghost function Count<K, V>(b: seq<Slot<K, V>>, q: Query<K, V>): nat {
    if b == [] then 0 else Count(b[..|b| - 1], q) + One(b[|b| - 1], q)
  }

  ghost function All<K, V>(bs: seq<seq<Slot<K, V>>>, q: Query<K, V>): nat {
    if bs == [] then 0 else All(bs[..|bs| - 1], q) + Count(bs[|bs| - 1], q)
  }

  /** The old buckets of stripe l. */
  ghost function Stripe<K, V>(bs: seq<seq<Slot<K, V>>>, l: nat, lock: nat -> nat, q: Query<K, V>): nat {
    if bs == [] then 0
    else
      var n := |bs| - 1;
      Stripe(bs[..n], l, lock, q) + if lock(n) == l then Count(bs[n], q) else 0
  }

  predicate Done(migrated: seq<bool>, l: nat) { l < |migrated| && migrated[l] }

  /** The old buckets of the stripes that are not migrated yet. */
  ghost function Pending<K, V>(bs: seq<seq<Slot<K, V>>>, migrated: seq<bool>, lock: nat -> nat, q: Query<K, V>): nat {
    if bs == [] then 0
    else
      var n := |bs| - 1;
      Pending(bs[..n], migrated, lock, q) + if Done(migrated, lock(n)) then 0 else Count(bs[n], q)
  }

  lemma {:induction false} CountUpdate<K, V>(b: seq<Slot<K, V>>, i: nat, s: Slot<K, V>, q: Query<K, V>)
    requires i < |b|
    ensures Count(b[i := s], q) + One(b[i], q) == Count(b, q) + One(s, q)
  {
    var n := |b| - 1;
    if i == n {
      assert b[i := s][..n] == b[..n];
    } else {
      assert b[i := s][..n] == b[..n][i := s];
      CountUpdate(b[..n], i, s, q);
    }
  }

  lemma {:induction false} AllUpdate<K, V>(bs: seq<seq<Slot<K, V>>>, i: nat, b: seq<Slot<K, V>>, q: Query<K, V>)
    requires i < |bs|
    ensures All(bs[i := b], q) + Count(bs[i], q) == All(bs, q) + Count(b, q)
  {
    var n := |bs| - 1;
    if i == n {
      assert bs[i := b][..n] == bs[..n];
    } else {
      assert bs[i := b][..n] == bs[..n][i := b];
      AllUpdate(bs[..n], i, b, q);
    }
  }

  /** Filling a free slot adds one pair; freeing a used one removes it. */
  lemma SetSlot<K, V>(bs: seq<seq<Slot<K, V>>>, i: nat, j: nat, s: Slot<K, V>, q: Query<K, V>)
    requires i < |bs| && j < |bs[i]|
    ensures All(bs[i := bs[i][j := s]], q) + One(bs[i][j], q) == All(bs, q) + One(s, q)
  {
    AllUpdate(bs, i, bs[i][j := s], q);
    CountUpdate(bs[i], j, s, q);
  }

  lemma {:induction false} CountFree<K, V>(b: seq<Slot<K, V>>, q: Query<K, V>)
    requires forall j :: 0 <= j < |b| ==> b[j].Free?
    ensures Count(b, q) == 0
  {
    if b != [] { CountFree(b[..|b| - 1], q); }
  }

  lemma {:induction false} AllFree<K, V>(bs: seq<seq<Slot<K, V>>>, q: Query<K, V>)
    requires forall i :: 0 <= i < |bs| ==> Count(bs[i], q) == 0
    ensures All(bs, q) == 0
  {
    if bs != [] { AllFree(bs[..|bs| - 1], q); }
  }

  /** A used slot is counted. */
  lemma {:induction false} CountAt<K, V>(b: seq<Slot<K, V>>, j: nat, q: Query<K, V>)
    requires j < |b|
    ensures One(b[j], q) <= Count(b, q)
  {
    if j < |b| - 1 { CountAt(b[..|b| - 1], j, q); }
  }

  lemma {:induction false} AllAt<K, V>(bs: seq<seq<Slot<K, V>>>, i: nat, q: Query<K, V>)
    requires i < |bs|
    ensures Count(bs[i], q) <= All(bs, q)
  {
    if i < |bs| - 1 { AllAt(bs[..|bs| - 1], i, q); }
  }

  /** Something counted is in some slot. */
  lemma {:induction false} FindCounted<K, V>(b: seq<Slot<K, V>>, q: Query<K, V>) returns (j: nat)
    requires Count(b, q) > 0
    ensures j < |b| && One(b[j], q) == 1
  {
    j := |b| - 1;
    if One(b[j], q) == 0 { j := FindCounted(b[..j], q); }
  }

  lemma {:induction false} FindInAll<K, V>(bs: seq<seq<Slot<K, V>>>, q: Query<K, V>) returns (i: nat)
    requires All(bs, q) > 0
    ensures i < |bs| && Count(bs[i], q) > 0
  {
    i := |bs| - 1;
    if Count(bs[i], q) == 0 { i := FindInAll(bs[..i], q); }
  }

  lemma {:induction false} FindPending<K, V>(bs: seq<seq<Slot<K, V>>>, migrated: seq<bool>, lock: nat -> nat, q: Query<K, V>) returns (i: nat)
    requires Pending(bs, migrated, lock, q) > 0
    ensures i < |bs| && Count(bs[i], q) > 0 && !Done(migrated, lock(i))
  {
    i := |bs| - 1;
    if Done(migrated, lock(i)) || Count(bs[i], q) == 0 { i := FindPending(bs[..i], migrated, lock, q); }
  }

  lemma {:induction false} PendingNone<K, V>(bs: seq<seq<Slot<K, V>>>, migrated: seq<bool>, lock: nat -> nat, q: Query<K, V>)
    requires forall i :: 0 <= i < |bs| ==> Done(migrated, lock(i))
    ensures Pending(bs, migrated, lock, q) == 0
  {
    if bs != [] { PendingNone(bs[..|bs| - 1], migrated, lock, q); }
  }

  lemma {:induction false} PendingAll<K, V>(bs: seq<seq<Slot<K, V>>>, migrated: seq<bool>, lock: nat -> nat, q: Query<K, V>)
    requires forall l :: 0 <= l < |migrated| ==> !migrated[l]
    ensures Pending(bs, migrated, lock, q) == All(bs, q)
  {
    if bs != [] { PendingAll(bs[..|bs| - 1], migrated, lock, q); }
  }

  /** Marking stripe l takes exactly its buckets out of what is pending. */
  lemma {:induction false} PendingMark<K, V>(bs: seq<seq<Slot<K, V>>>, migrated: seq<bool>, lock: nat -> nat, l: nat, q: Query<K, V>)
    requires l < |migrated| && !migrated[l]
    ensures Pending(bs, migrated[l := true], lock, q) + Stripe(bs, l, lock, q) == Pending(bs, migrated, lock, q)
  {
    if bs != [] { PendingMark(bs[..|bs| - 1], migrated, lock, l, q); }
  }

  /** A stretch of buckets without one of stripe l adds nothing to it. */
  lemma {:induction false} StripeGap<K, V>(bs: seq<seq<Slot<K, V>>>, l: nat, lock: nat -> nat, from: nat, to: nat, q: Query<K, V>)
    requires from <= to <= |bs| && forall i :: from <= i < to ==> lock(i) != l
    ensures Stripe(bs[..to], l, lock, q) == Stripe(bs[..from], l, lock, q)
  {
    if from < to {
      assert bs[..to][..to - 1] == bs[..to - 1];
      StripeGap(bs, l, lock, from, to - 1, q);
    }
  }
}
