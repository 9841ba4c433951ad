/**
  Breadth-first search for a displacement path and its compressed encoding
  (include/libcuckoo/cuckoohash_map.hh, `slot_search`, `b_queue`, `b_slot`,
  `cuckoopath_search`), for any number of slots per bucket and any maximal path length.

  Other threads change the table between two dequeues, so whether a slot is occupied and
  which bucket its key would go to may depend on the step at which it is looked at.
 */
module CuckooPath {
  import opened Arith
  import opened Basics

  const U16: nat := 0x1_0000

  function Pow(b: nat, e: nat): nat { if e == 0 then 1 else b * Pow(b, e - 1) }

  // ---------------------------------------------------------------- path codes

  /** The starting bucket (0 or 1) followed by slots, as a number in base spb. */
  function Encode(spb: nat, start: nat, slots: seq<nat>): nat {
    if slots == [] then start else Encode(spb, start, slots[..|slots| - 1]) * spb + slots[|slots| - 1]
  }

  predicate SlotsOk(spb: nat, slots: seq<nat>) { forall i :: 0 <= i < |slots| ==> slots[i] < spb }

  /** Decoding: the slots from the last to the first by remainders, then the starting bucket. */
  method Decode(spb: nat, code: nat, n: nat) returns (start: nat, slots: seq<nat>)
    requires spb > 0
    ensures |slots| == n && SlotsOk(spb, slots)
    ensures Encode(spb, start, slots) == code
  {
    start, slots := code, [];
    var i := n;
    while i > 0
      invariant 0 <= i <= n && |slots| == n - i && SlotsOk(spb, slots)
      invariant EncodeOn(spb, start, slots) == code
    {
      EncodeOnStep(spb, start / spb, start % spb, slots);
      Quotient(start, spb);
      slots := [start % spb] + slots;
      start := start / spb;
      i := i - 1;
    }
    EncodeOnIs(spb, start, slots);
  }

  /** The same number read from the first slot on. */
  ghost function EncodeOn(spb: nat, start: nat, slots: seq<nat>): nat
    decreases |slots|
  {
    if slots == [] then start else EncodeOn(spb, start * spb + slots[0], slots[1..])
  }

  lemma EncodeOnStep(spb: nat, start: nat, slot: nat, rest: seq<nat>)
    ensures EncodeOn(spb, start, [slot] + rest) == EncodeOn(spb, start * spb + slot, rest)
  {
    assert ([slot] + rest)[1..] == rest;
  }

  lemma {:induction false} EncodeOnIs(spb: nat, start: nat, slots: seq<nat>)
    ensures EncodeOn(spb, start, slots) == Encode(spb, start, slots)
    decreases |slots|
  {
    if slots != [] {
      EncodeOnIs(spb, start * spb + slots[0], slots[1..]);
      EncodeCons(spb, start, slots);
    }
  }

  lemma {:induction false} EncodeCons(spb: nat, start: nat, slots: seq<nat>)
    requires slots != []
    ensures Encode(spb, start, slots) == Encode(spb, start * spb + slots[0], slots[1..])
    decreases |slots|
  {
    var n := |slots| - 1;
    if n > 0 {
      EncodeCons(spb, start, slots[..n]);
      assert slots[..n][1..] == slots[1..][..n - 1];
    }
  }

  /** Paths of one length with different slots or starting buckets have different codes. */
  lemma {:induction false} EncodeInjective(spb: nat, a: nat, s: seq<nat>, b: nat, t: seq<nat>)
    requires SlotsOk(spb, s) && SlotsOk(spb, t) && |s| == |t| && Encode(spb, a, s) == Encode(spb, b, t)
    ensures a == b && s == t
    decreases |s|
  {
    if s != [] {
      var n := |s| - 1;
      DivMod(Encode(spb, a, s[..n]), spb, s[n]);
      DivMod(Encode(spb, b, t[..n]), spb, t[n]);
      EncodeInjective(spb, a, s[..n], b, t[..n]);
      assert s == s[..n] + [s[n]] && t == t[..n] + [t[n]];
    }
  }

  lemma {:induction false} EncodeBound(spb: nat, start: nat, slots: seq<nat>)
    requires SlotsOk(spb, slots)
    ensures Encode(spb, start, slots) < (start + 1) * Pow(spb, |slots|)
    decreases |slots|
  {
    if slots != [] {
      var n := |slots| - 1;
      EncodeBound(spb, start, slots[..n]);
      BoundStep(Encode(spb, start, slots[..n]), start + 1, Pow(spb, n), spb, slots[n]);
    }
  }

  lemma BoundStep(e: nat, c: nat, p: nat, spb: nat, slot: nat)
    requires e < c * p && slot < spb
    ensures e * spb + slot < c * (spb * p)
  {
    MulMono(e + 1, c * p, spb);
    MulAssoc(c, p, spb);
  }

  lemma EncodeSnoc(spb: nat, start: nat, slots: seq<nat>, slot: nat)
    ensures Encode(spb, start, slots + [slot]) == Encode(spb, start, slots) * spb + slot
  {
    assert (slots + [slot])[..|slots|] == slots;
  }

  // ---------------------------------------------------------------- sixteen-bit path codes

  /** Path codes are kept in sixteen bits. */
  function Cut(x: nat): (r: nat)
    ensures r < U16
  {
    x % U16
  }

  /** Cutting at every step or once at the end is the same. */
  lemma CutStep(x: nat, spb: nat, slot: nat)
    ensures Cut(Cut(x) * spb + slot) == Cut(x * spb + slot)
  {
    var q, r := x / U16, x % U16;
    var y := r * spb + slot;
    Quotient(x, U16);
    Quotient(y, U16);
    assert x * spb + slot == (q * spb) * U16 + y;
    assert x * spb + slot == (q * spb + y / U16) * U16 + y % U16;
    DivMod(q * spb + y / U16, U16, y % U16);
  }

  /** Decoding a sixteen-bit code as `n` slots gives back the path. */
  ghost predicate Recovers(spb: nat, start: nat, slots: seq<nat>) {
    forall b, t | SlotsOk(spb, t) && |t| == |slots| && Encode(spb, b, t) == Cut(Encode(spb, start, slots)) ::
      b == start && t == slots
  }

  /** Sixteen bits suffice for all paths of at most `len` slots exactly when twice spb^len,
      not spb^len alone, fits: the starting bucket takes a bit of its own. */
  lemma RoundTrip(spb: nat, len: nat)
    requires spb > 0
    ensures 2 * Pow(spb, len) <= U16 <==>
      forall start, slots :: start < 2 && SlotsOk(spb, slots) && |slots| <= len ==> Recovers(spb, start, slots)
  {
    if 2 * Pow(spb, len) <= U16 {
      forall start: nat, slots | start < 2 && SlotsOk(spb, slots) && |slots| <= len ensures Recovers(spb, start, slots) {
        FitsRecovers(spb, len, start, slots);
      }
    } else {
      var slots := Last(spb, len);
      EncodeLast(spb, len);
      assert SlotsOk(spb, slots) && |slots| == len;
      TooLong(spb, 1, slots);
    }
  }

  lemma FitsRecovers(spb: nat, len: nat, start: nat, slots: seq<nat>)
    requires 2 * Pow(spb, len) <= U16 && start < 2 && SlotsOk(spb, slots) && |slots| <= len && spb > 0
    ensures Recovers(spb, start, slots)
  {
    EncodeBound(spb, start, slots);
    PowMono(spb, |slots|, len);
    MulMono(start + 1, 2, Pow(spb, |slots|));
    forall b, t | SlotsOk(spb, t) && |t| == |slots| && Encode(spb, b, t) == Cut(Encode(spb, start, slots))
      ensures b == start && t == slots
    {
      EncodeInjective(spb, b, t, start, slots);
    }
  }

  lemma {:induction false} PowMono(b: nat, e: nat, f: nat)
    requires e <= f && b > 0
    ensures 0 < Pow(b, e) <= Pow(b, f)
  {
    if e < f {
      PowMono(b, e, f - 1);
      MulAtLeast(b, Pow(b, f - 1));
    } else if e > 0 {
      PowMono(b, e - 1, e - 1);
    }
  }

  /** The path with the largest code: the second bucket, then always the last slot. */
  function Last(spb: nat, n: nat): (s: seq<nat>)
    requires spb > 0
    ensures |s| == n && SlotsOk(spb, s)
  {
    seq(n, _ => spb - 1)
  }

  lemma LastDigit(code: nat, p: nat, spb: nat)
    requires code + 1 == 2 * p
    ensures code * spb + (spb - 1) + 1 == 2 * (spb * p)
  {
    calc {
      code * spb + (spb - 1) + 1;
      (code + 1) * spb;
      2 * p * spb;
      2 * (spb * p);
    }
  }

  lemma {:induction false} EncodeLast(spb: nat, n: nat)
    requires spb > 0
    ensures Encode(spb, 1, Last(spb, n)) + 1 == 2 * Pow(spb, n)
  {
    if n > 0 {
      EncodeLast(spb, n - 1);
      assert Last(spb, n)[..n - 1] == Last(spb, n - 1);
      LastDigit(Encode(spb, 1, Last(spb, n - 1)), Pow(spb, n - 1), spb);
    }
  }

  /** A code of more than sixteen bits is decoded as another path. */
  lemma TooLong(spb: nat, start: nat, slots: seq<nat>)
    requires spb > 0 && SlotsOk(spb, slots) && Encode(spb, start, slots) >= U16
    ensures !Recovers(spb, start, slots)
  {
    var b, t := Digits(spb, Cut(Encode(spb, start, slots)), |slots|);
    assert Encode(spb, b, t) != Encode(spb, start, slots);
  }

  /** Every number is the code of some path of each length. */
  lemma {:induction false} Digits(spb: nat, code: nat, n: nat) returns (start: nat, slots: seq<nat>)
    requires spb > 0
    ensures |slots| == n && SlotsOk(spb, slots) && Encode(spb, start, slots) == code
    decreases n
  {
    if n == 0 {
      start, slots := code, [];
    } else {
      Quotient(code, spb);
      var q: nat, r: nat := code / spb, code % spb;
      var rest;
      start, rest := Digits(spb, q, n - 1);
      slots := rest + [r];
      EncodeSnoc(spb, start, rest, r);
    }
  }

  /** The static check `spb^len < 65535` lets 9 slots and length 5 through, where the largest
      path code does not fit. */
  lemma StaticCheckTooWeak()
    ensures Pow(9, 5) < 65535 && !Recovers(9, 1, Last(9, 5))
  {
    assert Pow(9, 2) == 81;
    assert Pow(9, 5) == 9 * (9 * (9 * Pow(9, 2)));
    EncodeLast(9, 5);
    TooLong(9, 1, Last(9, 5));
  }

  // ---------------------------------------------------------------- the search queue

  /** The elements a full search puts in the queue below one at `levels` from the end. */
  function Tree(spb: nat, levels: nat): nat { if levels == 0 then 0 else 1 + spb * Tree(spb, levels - 1) }

  /** MAX_CUCKOO_COUNT. */
  function MaxCount(spb: nat, len: nat): int
    requires spb > 0
  {
    2 * (if spb == 1 then len else (Pow(spb, len) - 1) / (spb - 1))
  }

  lemma GeometricStep(s: nat, t: nat)
    requires s > 0
    ensures (s - 1) * (1 + s * t) + 1 == s * ((s - 1) * t + 1)
  {
  }

  lemma {:induction false} GeometricSum(spb: nat, n: nat)
    requires spb > 0
    ensures (spb - 1) * Tree(spb, n) + 1 == Pow(spb, n)
    ensures spb == 1 ==> Tree(spb, n) == n
  {
    if n > 0 {
      GeometricSum(spb, n - 1);
      GeometricStep(spb, Tree(spb, n - 1));
    }
  }

  /** The queue's capacity is exactly two full search trees. */
  lemma CapacityIsTwoTrees(spb: nat, len: nat)
    requires spb > 0
    ensures MaxCount(spb, len) == 2 * Tree(spb, len)
  {
    GeometricSum(spb, len);
    if spb > 1 {
      DivExact(Tree(spb, len), spb - 1);
    }
  }

  datatype BSlot = BSlot(bucket: nat, pathcode: nat, depth: nat)

  /** How an element came into the queue: the starting bucket, the slots kicked out on the
      way, and the steps at which they were looked at. */
  datatype Trail = Trail(start: nat, slots: seq<nat>, times: seq<nat>)

  /** The bucket a trail leads to. */
  ghost function Follow(alt: (nat, nat, nat) -> nat, from: nat, slots: seq<nat>, times: seq<nat>): nat
    requires |slots| == |times|
  {
    if slots == [] then from
    else
      var n := |slots| - 1;
      alt(times[n], Follow(alt, from, slots[..n], times[..n]), slots[n])
  }

  ghost predicate TrailOk(spb: nat, alt: (nat, nat, nat) -> nat, i1: nat, i2: nat, x: BSlot, t: Trail) {
    && t.start < 2 && |t.slots| == |t.times| == x.depth && SlotsOk(spb, t.slots)
    && x.pathcode == Cut(Encode(spb, t.start, t.slots))
    && x.bucket == Follow(alt, From(i1, i2, t.start), t.slots, t.times)
  }

  /** What the queued elements can still add to the queue, themselves included. */
  ghost function Weight(spb: nat, len: nat, q: seq<BSlot>): nat {
    if q == [] then 0 else Tree(spb, if q[0].depth < len then len - q[0].depth else 0) + Weight(spb, len, q[1..])
  }

  lemma {:induction false} WeightSnoc(spb: nat, len: nat, q: seq<BSlot>, x: BSlot)
    requires x.depth < len
    ensures Weight(spb, len, q + [x]) == Weight(spb, len, q) + Tree(spb, len - x.depth)
    decreases |q|
  {
    if q == [] {
      assert [x][1..] == [];
    } else {
      assert (q + [x])[1..] == q[1..] + [x];
      WeightSnoc(spb, len, q[1..], x);
    }
  }

  /** Every queued element weighs at least one. */
  lemma {:induction false} WeightCounts(spb: nat, len: nat, q: seq<BSlot>)
    requires forall i :: 0 <= i < |q| ==> q[i].depth < len
    ensures |q| <= Weight(spb, len, q)
    decreases |q|
  {
    if q != [] { WeightCounts(spb, len, q[1..]); }
  }

  /** The weight of n children that are still to be queued. */
  ghost function Times(n: nat, w: nat): nat { if n == 0 then 0 else w + Times(n - 1, w) }

  lemma {:induction false} TimesIs(n: nat, w: nat)
    ensures Times(n, w) == n * w
  {
    if n > 0 { TimesIs(n - 1, w); }
  }

  lemma TreeChildren(spb: nat, levels: nat)
    requires levels > 0
    ensures Tree(spb, levels) == 1 + Times(spb, Tree(spb, levels - 1))
  {
    TimesIs(spb, Tree(spb, levels - 1));
  }

  /** The path code one slot further on. */
  function Push(code: nat, spb: nat, slot: nat): (r: nat)
    ensures r < U16
  {
    assert code * spb >= 0;
    Cut(code * spb + slot)
  }

  /** The i-th slot to look at, starting from a slot given by the path code. */
  function SlotAt(code: nat, spb: nat, i: nat): (r: nat)
    requires spb > 0
    ensures r < spb
  {
    (code % spb + i) % spb
  }

  lemma TrailSnoc(spb: nat, alt: (nat, nat, nat) -> nat, i1: nat, i2: nat, x: BSlot, t: Trail, s: nat, time: nat)
    requires TrailOk(spb, alt, i1, i2, x, t) && s < spb
    ensures Push(x.pathcode, spb, s) == Cut(Encode(spb, t.start, t.slots + [s]))
    ensures TrailOk(spb, alt, i1, i2, BSlot(alt(time, x.bucket, s), Push(x.pathcode, spb, s), x.depth + 1),
                    Trail(t.start, t.slots + [s], t.times + [time]))
  {
    CutStep(Encode(spb, t.start, t.slots), spb, s);
    EncodeSnoc(spb, t.start, t.slots, s);
    assert (t.slots + [s])[..x.depth] == t.slots && (t.times + [time])[..x.depth] == t.times;
  }

  ghost function From(i1: nat, i2: nat, start: nat): nat { if start == 0 then i1 else i2 }

  /** Every slot that was kicked out on the way was occupied when looked at. */
  ghost predicate Seen(occupied: (nat, nat, nat) -> bool, alt: (nat, nat, nat) -> nat, from: nat, slots: seq<nat>, times: seq<nat>)
    requires |slots| == |times|
  {
    forall k :: 0 <= k < |slots| ==> occupied(times[k], Follow(alt, from, slots[..k], times[..k]), slots[k])
  }

  lemma SeenSnoc(occupied: (nat, nat, nat) -> bool, alt: (nat, nat, nat) -> nat, from: nat, slots: seq<nat>, times: seq<nat>, s: nat, time: nat)
    requires |slots| == |times| && Seen(occupied, alt, from, slots, times) && occupied(time, Follow(alt, from, slots, times), s)
    ensures Seen(occupied, alt, from, slots + [s], times + [time])
  {
    var slots', times' := slots + [s], times + [time];
    forall k | 0 <= k < |slots'| ensures occupied(times'[k], Follow(alt, from, slots'[..k], times'[..k]), slots'[k]) {
      assert slots'[..k] == slots[..k] && times'[..k] == times[..k];
      assert k == |slots| ==> slots[..k] == slots && times[..k] == times;
    }
  }

  /** So it is for all queued elements, which are in order of depth, at most one beyond d. */
  ghost predicate AllSeen(occupied: (nat, nat, nat) -> bool, alt: (nat, nat, nat) -> nat, i1: nat, i2: nat, q: seq<BSlot>, trails: seq<Trail>, d: nat) {
    && (forall j :: 0 <= j < |trails| ==> |trails[j].slots| == |trails[j].times| && Seen(occupied, alt, From(i1, i2, trails[j].start), trails[j].slots, trails[j].times))
    && (forall i, j :: 0 <= i < j < |q| ==> q[i].depth <= q[j].depth) && (forall i :: 0 <= i < |q| ==> q[i].depth <= d + 1)
  }

  ghost predicate QueueOk(spb: nat, len: nat, alt: (nat, nat, nat) -> nat, i1: nat, i2: nat, q: seq<BSlot>, trails: seq<Trail>) {
    |q| == |trails| && forall i :: 0 <= i < |q| ==> q[i].depth < len && TrailOk(spb, alt, i1, i2, q[i], trails[i])
  }

  /** All slots of a bucket were occupied at one step. */
  ghost predicate BucketFull(spb: nat, occupied: (nat, nat, nat) -> bool, step: nat, b: nat) {
    forall s: nat :: s < spb ==> occupied(step, b, s)
  }

  /** The trail that goes on from t with slot s. */
  function Onward(t: Trail, s: nat, step: nat): Trail { Trail(t.start, t.slots + [s], t.times + [step]) }

  /** The trail goes on with every slot. */
  ghost predicate Branches(spb: nat, len: nat, trails: seq<Trail>, t: Trail, step: nat) {
    |t.slots| < len - 1 ==> forall s: nat :: s < spb ==> Onward(t, s, step) in trails
  }

  /** The first i slots looked at. */
  ghost predicate Looked(spb: nat, len: nat, occupied: (nat, nat, nat) -> bool, step: nat, x: BSlot, t: Trail, trails: seq<Trail>, i: nat)
    requires spb > 0
  {
    forall k: nat :: k < i ==>
      var s := SlotAt(x.pathcode, spb, k);
      occupied(step, x.bucket, s) && (x.depth < len - 1 ==> Onward(t, s, step) in trails)
  }

  /** Starting anywhere, every slot is looked at. */
  lemma SlotAtAll(code: nat, spb: nat, s: nat) returns (i: nat)
    requires s < spb
    ensures i < spb && SlotAt(code, spb, i) == s
  {
    var c := code % spb;
    if c <= s {
      i := s - c;
      assert (c + i) % spb == s;
    } else {
      i := s + spb - c;
      assert c + i == s + spb;
      DivMod(1, spb, s);
    }
  }

  lemma LookedAll(spb: nat, len: nat, occupied: (nat, nat, nat) -> bool, step: nat, x: BSlot, t: Trail, trails: seq<Trail>)
    requires spb > 0 && Looked(spb, len, occupied, step, x, t, trails, spb) && |t.slots| == x.depth
    ensures BucketFull(spb, occupied, step, x.bucket) && Branches(spb, len, trails, t, step)
  {
    forall s: nat | s < spb ensures occupied(step, x.bucket, s) && (x.depth < len - 1 ==> Onward(t, s, step) in trails) {
      var i := SlotAtAll(x.pathcode, spb, s);
    }
  }

  lemma LookedMore(spb: nat, len: nat, occupied: (nat, nat, nat) -> bool, step: nat, x: BSlot, t: Trail, trails: seq<Trail>, trails': seq<Trail>, i: nat)
    requires spb > 0 && Looked(spb, len, occupied, step, x, t, trails, i) && trails <= trails'
    requires var s := SlotAt(x.pathcode, spb, i); occupied(step, x.bucket, s) && (x.depth < len - 1 ==> Onward(t, s, step) in trails')
    ensures Looked(spb, len, occupied, step, x, t, trails', i + 1)
  {
    forall y | y in trails ensures y in trails' { }
  }

  /** The elements from `first` on and `rest` children at the given depth fill the capacity. */
  ghost predicate Fills(spb: nat, len: nat, q: seq<BSlot>, first: nat, rest: nat, depth: nat, cap: nat) {
    first <= |q| && depth < len && first + Weight(spb, len, q[first..]) + Times(rest, Tree(spb, len - depth - 1)) == cap
  }

  lemma FillsBounds(spb: nat, len: nat, q: seq<BSlot>, first: nat, rest: nat, depth: nat, cap: nat)
    requires Fills(spb, len, q, first, rest, depth, cap) && forall i :: 0 <= i < |q| ==> q[i].depth < len
    ensures |q| <= cap
  {
    WeightCounts(spb, len, q[first..]);
  }

  /** Looks at the slots of one bucket: stops at a free one, or queues a child for each. */
  method Expand(spb: nat, len: nat, ghost i1: nat, ghost i2: nat, occupied: (nat, nat, nat) -> bool, alt: (nat, nat, nat) -> nat,
                step: nat, x: BSlot, ghost t: Trail, ghost cap: nat, q0: seq<BSlot>, ghost trails0: seq<Trail>, first: nat)
    returns (hit: bool, s: nat, q: seq<BSlot>, ghost trails: seq<Trail>)
    requires spb > 0 && x.depth < len && TrailOk(spb, alt, i1, i2, x, t) && QueueOk(spb, len, alt, i1, i2, q0, trails0)
    requires Fills(spb, len, q0, first, spb, x.depth, cap)
    requires AllSeen(occupied, alt, i1, i2, q0, trails0, x.depth) && Seen(occupied, alt, From(i1, i2, t.start), t.slots, t.times)
    ensures hit ==> s < spb && !occupied(step, x.bucket, s)
    ensures QueueOk(spb, len, alt, i1, i2, q, trails) && first <= |q| <= cap && q0 <= q && trails0 <= trails
    ensures AllSeen(occupied, alt, i1, i2, q, trails, x.depth)
    ensures !hit ==> Fills(spb, len, q, first, 0, x.depth, cap)
    ensures !hit ==> BucketFull(spb, occupied, step, x.bucket) && Branches(spb, len, trails, t, step)
  {
    q, trails, s := q0, trails0, 0;
    FillsBounds(spb, len, q, first, spb, x.depth, cap);
    var i := 0;
    while i < spb
      invariant 0 <= i <= spb && |q| <= cap && q0 <= q && trails0 <= trails
      invariant Expanding(spb, len, i1, i2, occupied, alt, step, x, t, q, trails, first, cap, i)
    {
      s := SlotAt(x.pathcode, spb, i);
      if !occupied(step, x.bucket, s) {
        return true, s, q, trails;
      }
      q, trails := LookAt(spb, len, i1, i2, occupied, alt, step, x, t, s, q, trails, first, cap, i);
      i := i + 1;
    }
    LookedAll(spb, len, occupied, step, x, t, trails);
    hit := false;
  }

  /** The first i slots of a bucket were looked at, and their children queued. */
  ghost predicate Expanding(spb: nat, len: nat, i1: nat, i2: nat, occupied: (nat, nat, nat) -> bool, alt: (nat, nat, nat) -> nat, step: nat,
                            x: BSlot, t: Trail, q: seq<BSlot>, trails: seq<Trail>, first: nat, cap: nat, i: nat) {
    && 0 < spb && i <= spb && QueueOk(spb, len, alt, i1, i2, q, trails) && Fills(spb, len, q, first, spb - i, x.depth, cap)
    && Looked(spb, len, occupied, step, x, t, trails, i) && AllSeen(occupied, alt, i1, i2, q, trails, x.depth)
  }

  method LookAt(spb: nat, len: nat, ghost i1: nat, ghost i2: nat, ghost occupied: (nat, nat, nat) -> bool, alt: (nat, nat, nat) -> nat,
                step: nat, x: BSlot, ghost t: Trail, s: nat, q0: seq<BSlot>, ghost trails0: seq<Trail>, ghost first: nat, ghost cap: nat, ghost i: nat)
    returns (q: seq<BSlot>, ghost trails: seq<Trail>)
    requires i < spb && x.depth < len && TrailOk(spb, alt, i1, i2, x, t) && s == SlotAt(x.pathcode, spb, i) && occupied(step, x.bucket, s)
    requires Seen(occupied, alt, From(i1, i2, t.start), t.slots, t.times)
    requires Expanding(spb, len, i1, i2, occupied, alt, step, x, t, q0, trails0, first, cap, i)
    ensures Expanding(spb, len, i1, i2, occupied, alt, step, x, t, q, trails, first, cap, i + 1)
    ensures q0 <= q && trails0 <= trails && |q| <= cap
  {
    q, trails := Enqueue(spb, len, i1, i2, alt, step, x, t, s, q0, trails0, first, cap, spb - i - 1);
    LookedMore(spb, len, occupied, step, x, t, trails0, trails, i);
    SeenMore(occupied, alt, i1, i2, q0, trails0, q, trails, x.depth, t, s, step);
  }

  /** Queues the child at slot s, unless the path is as long as it may get; `rest` children remain. */
  method Enqueue(spb: nat, len: nat, ghost i1: nat, ghost i2: nat, alt: (nat, nat, nat) -> nat, step: nat, x: BSlot, ghost t: Trail, s: nat,
                 q0: seq<BSlot>, ghost trails0: seq<Trail>, ghost first: nat, ghost cap: nat, ghost rest: nat)
    returns (q: seq<BSlot>, ghost trails: seq<Trail>)
    requires s < spb && x.depth < len && TrailOk(spb, alt, i1, i2, x, t) && QueueOk(spb, len, alt, i1, i2, q0, trails0)
    requires Fills(spb, len, q0, first, rest + 1, x.depth, cap)
    ensures QueueOk(spb, len, alt, i1, i2, q, trails) && q0 <= q && trails0 <= trails && |q| <= cap
    ensures x.depth < len - 1 ==> Onward(t, s, step) in trails
    ensures (q == q0 && trails == trails0) || (|q| == |q0| + 1 && q[|q0|].depth == x.depth + 1 && trails == trails0 + [Onward(t, s, step)])
    ensures Fills(spb, len, q, first, rest, x.depth, cap)
  {
    q, trails := q0, trails0;
    if x.depth < len - 1 {
      var y := BSlot(alt(step, x.bucket, s), Push(x.pathcode, spb, s), x.depth + 1);
      TrailSnoc(spb, alt, i1, i2, x, t, s, step);
      q, trails := q0 + [y], trails0 + [Onward(t, s, step)];
      assert trails[|trails0|] == Onward(t, s, step);
    }
    WeightAfter(spb, len, q0, q, first, x.depth, cap, rest);
  }

  lemma SeenMore(occupied: (nat, nat, nat) -> bool, alt: (nat, nat, nat) -> nat, i1: nat, i2: nat, q0: seq<BSlot>, trails0: seq<Trail>,
                 q: seq<BSlot>, trails: seq<Trail>, d: nat, t: Trail, s: nat, step: nat)
    requires AllSeen(occupied, alt, i1, i2, q0, trails0, d) && |t.slots| == |t.times| && q0 <= q
    requires Seen(occupied, alt, From(i1, i2, t.start), t.slots, t.times)
    requires occupied(step, Follow(alt, From(i1, i2, t.start), t.slots, t.times), s)
    requires (q == q0 && trails == trails0) || (|q| == |q0| + 1 && q[|q0|].depth == d + 1 && trails == trails0 + [Onward(t, s, step)])
    ensures AllSeen(occupied, alt, i1, i2, q, trails, d)
  {
    SeenSnoc(occupied, alt, From(i1, i2, t.start), t.slots, t.times, s, step);
  }

  /** A queued child takes its share of the capacity, so the queue was not full before. */
  lemma WeightAfter(spb: nat, len: nat, q0: seq<BSlot>, q: seq<BSlot>, first: nat, depth: nat, cap: nat, rest: nat)
    requires depth < len && Fills(spb, len, q0, first, rest + 1, depth, cap)
    requires if depth < len - 1 then |q| == |q0| + 1 && q == q0 + [q[|q0|]] && q[|q0|].depth == depth + 1 else q == q0
    requires forall i :: 0 <= i < |q| ==> q[i].depth < len
    ensures Fills(spb, len, q, first, rest, depth, cap) && |q| <= cap
  {
    if depth < len - 1 {
      WeightSnoc(spb, len, q0[first..], q[|q0|]);
      assert q[first..] == q0[first..] + [q[|q0|]];
    }
    WeightCounts(spb, len, q[first..]);
  }

  /** The first `n` elements of the queue were looked at, each at the step of its position: all slots
      were occupied, and the search goes on from each of them. */
  ghost predicate Explored(spb: nat, len: nat, occupied: (nat, nat, nat) -> bool, q: seq<BSlot>, trails: seq<Trail>, n: nat) {
    && n <= |q| == |trails| && Trail(0, [], []) in trails && Trail(1, [], []) in trails
    && (forall j: nat :: j < n ==> BucketFull(spb, occupied, j, q[j].bucket))
    && (forall j: nat :: j < n ==> Branches(spb, len, trails, trails[j], j))
  }

  lemma ExploredMore(spb: nat, len: nat, occupied: (nat, nat, nat) -> bool, q: seq<BSlot>, trails: seq<Trail>, n: nat, q': seq<BSlot>, trails': seq<Trail>)
    requires Explored(spb, len, occupied, q, trails, n) && n < |q| && q <= q' && trails <= trails' && |q'| == |trails'|
    requires BucketFull(spb, occupied, n, q[n].bucket) && Branches(spb, len, trails', trails[n], n)
    ensures Explored(spb, len, occupied, q', trails', n + 1)
  {
    forall y | y in trails ensures y in trails' { }
    forall j: nat | j < n + 1 ensures Branches(spb, len, trails', trails'[j], j) {
      if j < n { assert Branches(spb, len, trails, trails[j], j) && trails'[j] == trails[j]; }
    }
  }

  lemma ExploredOn(spb: nat, len: nat, occupied: (nat, nat, nat) -> bool, q: seq<BSlot>, trails: seq<Trail>, n: nat, q': seq<BSlot>, trails': seq<Trail>)
    requires Explored(spb, len, occupied, q, trails, n) && q <= q' && trails <= trails' && |q'| == |trails'|
    ensures Explored(spb, len, occupied, q', trails', n)
  {
    forall y | y in trails ensures y in trails' { }
    forall j: nat | j < n ensures Branches(spb, len, trails', trails'[j], j) {
      assert Branches(spb, len, trails, trails[j], j) && trails'[j] == trails[j];
    }
  }

  /** A search that found nothing: it filled the queue with two full trees, looked at every slot of
      every bucket in them, and found each occupied. */
  ghost predicate Exhausted(spb: nat, len: nat, i1: nat, i2: nat, occupied: (nat, nat, nat) -> bool, alt: (nat, nat, nat) -> nat,
                            q: seq<BSlot>, trails: seq<Trail>) {
    && |q| == 2 * Tree(spb, len) && QueueOk(spb, len, alt, i1, i2, q, trails) && Explored(spb, len, occupied, q, trails, |q|)
  }

  /** Every path of fewer than `bound` slots from either bucket was followed before element n of the
      queue, if all elements of smaller depth come before it. */
  lemma {:induction false} Followed(spb: nat, len: nat, i1: nat, i2: nat, occupied: (nat, nat, nat) -> bool, alt: (nat, nat, nat) -> nat,
                                    q: seq<BSlot>, trails: seq<Trail>, n: nat, bound: nat, start: nat, slots: seq<nat>) returns (j: nat)
    requires QueueOk(spb, len, alt, i1, i2, q, trails) && Explored(spb, len, occupied, q, trails, n) && bound <= len
    requires forall j :: 0 <= j < |q| && q[j].depth < bound ==> j < n
    requires start < 2 && SlotsOk(spb, slots) && |slots| < bound
    ensures j < n <= |trails| == |q| && trails[j].start == start && trails[j].slots == slots && |trails[j].times| == |slots|
    ensures q[j].bucket == Follow(alt, From(i1, i2, start), slots, trails[j].times) && BucketFull(spb, occupied, j, q[j].bucket)
    decreases |slots|
  {
    var t := Trail(start, [], []);
    if slots != [] {
      var m := |slots| - 1;
      var k := Followed(spb, len, i1, i2, occupied, alt, q, trails, n, bound, start, slots[..m]);
      assert slots == slots[..m] + [slots[m]] && Branches(spb, len, trails, trails[k], k);
      t := Onward(trails[k], slots[m], k);
      assert t.slots == slots;
    }
    assert t in trails;
    j :| 0 <= j < |trails| && trails[j] == t;
    assert TrailOk(spb, alt, i1, i2, q[j], trails[j]);
  }

  /** Every path of fewer than len slots from either bucket was followed: at some step the search
      looked at the bucket that it leads to, and all slots were occupied. */
  lemma AllFollowed(spb: nat, len: nat, i1: nat, i2: nat, occupied: (nat, nat, nat) -> bool, alt: (nat, nat, nat) -> nat,
                    q: seq<BSlot>, trails: seq<Trail>, start: nat, slots: seq<nat>) returns (j: nat)
    requires Exhausted(spb, len, i1, i2, occupied, alt, q, trails) && start < 2 && SlotsOk(spb, slots) && |slots| < len
    ensures j < |trails| == |q| && trails[j].start == start && trails[j].slots == slots && |trails[j].times| == |slots|
    ensures q[j].bucket == Follow(alt, From(i1, i2, start), slots, trails[j].times) && BucketFull(spb, occupied, j, q[j].bucket)
  {
    j := Followed(spb, len, i1, i2, occupied, alt, q, trails, |q|, len, start, slots);
  }

  /** A search that ended at element n of its queue: all paths with fewer slots were followed before. */
  ghost predicate Shortest(spb: nat, len: nat, i1: nat, i2: nat, occupied: (nat, nat, nat) -> bool, alt: (nat, nat, nat) -> nat,
                           q: seq<BSlot>, trails: seq<Trail>, n: nat) {
    && QueueOk(spb, len, alt, i1, i2, q, trails) && Explored(spb, len, occupied, q, trails, n) && n < |q|
    && (forall j :: 0 <= j < |q| && q[j].depth < q[n].depth ==> j < n)
    && Seen(occupied, alt, From(i1, i2, trails[n].start), trails[n].slots, trails[n].times)
  }

  lemma TwoTrees(spb: nat, len: nat, q: seq<BSlot>)
    requires len > 0 && |q| == 2 && q[0].depth == q[1].depth == 0
    ensures Weight(spb, len, q[0..]) == 2 * Tree(spb, len) && |q| <= 2 * Tree(spb, len)
  {
    assert q[0..] == q && q == [q[0]] + [q[1]];
    WeightCounts(spb, len, q);
    WeightSnoc(spb, len, [q[0]], q[1]);
    assert Weight(spb, len, [q[0]]) == Tree(spb, len) by {
      WeightSnoc(spb, len, [], q[0]);
      assert [] + [q[0]] == [q[0]];
    }
  }

  /** The next element weighs itself and its children. */
  lemma OneOff(spb: nat, len: nat, q: seq<BSlot>, first: nat)
    requires first < |q| && q[first].depth < len
    ensures Weight(spb, len, q[first..]) == 1 + Weight(spb, len, q[first + 1..]) + Times(spb, Tree(spb, len - q[first].depth - 1))
  {
    assert q[first..][1..] == q[first + 1..];
    TreeChildren(spb, len - q[first].depth);
  }

  /** slot_search: breadth-first from the two buckets.  The queue, which is never wrapped around,
      stays within MAX_CUCKOO_COUNT, which is two full trees; a result names a slot that was
      free when looked at, in the bucket its trail leads to, and its code is the sixteen-bit
      code of that trail followed by the slot.  No shorter path leads to a free slot.  Without a
      result both trees were searched. */
  method SlotSearch(spb: nat, len: nat, i1: nat, i2: nat, occupied: (nat, nat, nat) -> bool, alt: (nat, nat, nat) -> nat)
    returns (found: bool, x: BSlot, ghost trail: Trail, ghost slot: nat, ghost time: nat, q: seq<BSlot>, ghost trails: seq<Trail>)
    requires spb > 0 && len > 0
    ensures |q| <= 2 * Tree(spb, len)
    ensures found ==> x.depth < len && slot < spb && !occupied(time, x.bucket, slot)
    ensures found ==> trail.start < 2 && |trail.slots| == |trail.times| == x.depth && SlotsOk(spb, trail.slots)
    ensures found ==> x.bucket == Follow(alt, From(i1, i2, trail.start), trail.slots, trail.times)
    ensures found ==> Shortest(spb, len, i1, i2, occupied, alt, q, trails, time) && trail == trails[time] && x.bucket == q[time].bucket
    ensures found ==> x.pathcode == Cut(Encode(spb, trail.start, trail.slots + [slot]))
    ensures !found ==> Exhausted(spb, len, i1, i2, occupied, alt, q, trails)
  {
    q := [BSlot(i1, 0, 0), BSlot(i2, 1, 0)];
    trails := [Trail(0, [], []), Trail(1, [], [])];
    ghost var cap := 2 * Tree(spb, len);
    slot, time := 0, 0;
    var first := 0;
    TwoTrees(spb, len, q);
    trail := trails[0];
    assert trails[0] in trails && trails[1] in trails;
    while first < |q|
      invariant 0 <= first <= |q| <= cap && QueueOk(spb, len, alt, i1, i2, q, trails)
      invariant first + Weight(spb, len, q[first..]) == cap && Explored(spb, len, occupied, q, trails, first)
      invariant AllSeen(occupied, alt, i1, i2, q, trails, if first < |q| then q[first].depth else len)
      decreases cap - first
    {
      x, trail, time := q[first], trails[first], first;
      OneOff(spb, len, q, first);
      ghost var q1, trails1 := q, trails;
      var hit, s;
      hit, s, q, trails := Expand(spb, len, i1, i2, occupied, alt, first, x, trail, cap, q, trails, first + 1);
      if hit {
        TrailSnoc(spb, alt, i1, i2, x, trail, s, first);
        ExploredOn(spb, len, occupied, q1, trails1, first, q, trails);
        return true, x.(pathcode := Push(x.pathcode, spb, s)), trail, s, first, q, trails;
      }
      ExploredMore(spb, len, occupied, q1, trails1, first, q, trails);
      first := first + 1;
    }
    found, x := false, BSlot(0, 0, 0);
  }

  /** A search that sees this finds nothing. */
  ghost predicate NoneFree(spb: nat, len: nat, i1: nat, i2: nat, occupied: (nat, nat, nat) -> bool, alt: (nat, nat, nat) -> nat) {
    exists q, trails :: Exhausted(spb, len, i1, i2, occupied, alt, q, trails)
  }

  // ---------------------------------------------------------------- in a table that does not change

  /** The search sees the same at all times. */
  ghost predicate Still(occupied: (nat, nat, nat) -> bool, alt: (nat, nat, nat) -> nat) {
    forall t: nat, b: nat, s: nat :: occupied(t, b, s) == occupied(0, b, s) && alt(t, b, s) == alt(0, b, s)
  }

  /** The bucket that the slots lead to. */
  ghost function Walk(alt: (nat, nat, nat) -> nat, from: nat, slots: seq<nat>): nat {
    if slots == [] then from else alt(0, Walk(alt, from, slots[..|slots| - 1]), slots[|slots| - 1])
  }

  lemma {:induction false} FollowIsWalk(occupied: (nat, nat, nat) -> bool, alt: (nat, nat, nat) -> nat, from: nat, slots: seq<nat>, times: seq<nat>)
    requires Still(occupied, alt) && |slots| == |times|
    ensures Follow(alt, from, slots, times) == Walk(alt, from, slots)
    decreases |slots|
  {
    if slots != [] {
      var n := |slots| - 1;
      FollowIsWalk(occupied, alt, from, slots[..n], times[..n]);
    }
  }

  lemma {:induction false} WalkOn(alt: (nat, nat, nat) -> nat, from: nat, a: seq<nat>, b: seq<nat>)
    ensures Walk(alt, from, a + b) == Walk(alt, Walk(alt, from, a), b)
    decreases |b|
  {
    if b == [] {
      assert a + b == a;
    } else {
      var n := |b| - 1;
      assert (a + b)[..|a| + n] == a + b[..n];
      WalkOn(alt, from, a, b[..n]);
    }
  }

  /** A way to a free slot: distinct buckets, each but the last with an occupied slot whose key has the
      next one as its other bucket. */
  ghost predicate Route(occupied: (nat, nat, nat) -> bool, alt: (nat, nat, nat) -> nat, from: nat, slots: seq<nat>, bkts: seq<nat>) {
    && |slots| == |bkts| > 0 && Distinct(bkts) && bkts[0] == from
    && (forall k :: 0 <= k < |slots| - 1 ==> occupied(0, bkts[k], slots[k]))
    && (forall k :: 0 < k < |slots| ==> bkts[k] == alt(0, bkts[k - 1], slots[k - 1]))
    && !occupied(0, bkts[|slots| - 1], slots[|slots| - 1])
  }

  /** Every path of fewer than len slots leads to a full bucket. */
  ghost predicate AllFull(spb: nat, len: nat, i1: nat, i2: nat, occupied: (nat, nat, nat) -> bool, alt: (nat, nat, nat) -> nat) {
    forall start: nat, slots: seq<nat> :: start < 2 && |slots| < len && SlotsOk(spb, slots) ==>
      BucketFull(spb, occupied, 0, Walk(alt, From(i1, i2, start), slots))
  }

  lemma CutOut(alt: (nat, nat, nat) -> nat, from: nat, slots: seq<nat>, a: nat, b: nat)
    requires a <= b <= |slots| && Walk(alt, from, slots[..a]) == Walk(alt, from, slots[..b])
    ensures Walk(alt, from, slots[..a] + slots[b..]) == Walk(alt, from, slots)
  {
    WalkOn(alt, from, slots[..a], slots[b..]);
    WalkOn(alt, from, slots[..b], slots[b..]);
    assert slots[..b] + slots[b..] == slots;
  }

  /** No shorter path leads to the bucket with the free slot. */
  lemma ShorterMisses(spb: nat, len: nat, i1: nat, i2: nat, occupied: (nat, nat, nat) -> bool, alt: (nat, nat, nat) -> nat,
                      q: seq<BSlot>, trails: seq<Trail>, n: nat, slot: nat, start: nat, short: seq<nat>)
    requires Still(occupied, alt) && Shortest(spb, len, i1, i2, occupied, alt, q, trails, n) && slot < spb && !occupied(n, q[n].bucket, slot)
    requires start < 2 && SlotsOk(spb, short) && |short| < q[n].depth
    ensures Walk(alt, From(i1, i2, start), short) != q[n].bucket
  {
    var j := Followed(spb, len, i1, i2, occupied, alt, q, trails, n, q[n].depth, start, short);
    FollowIsWalk(occupied, alt, From(i1, i2, start), short, trails[j].times);
    assert occupied(j, q[j].bucket, slot) == occupied(0, q[j].bucket, slot);
    assert occupied(n, q[n].bucket, slot) == occupied(0, q[n].bucket, slot);
  }

  /** Without its detours a path would be shorter, so a shortest one visits no bucket twice. */
  lemma NoDetour(spb: nat, len: nat, i1: nat, i2: nat, occupied: (nat, nat, nat) -> bool, alt: (nat, nat, nat) -> nat,
                 q: seq<BSlot>, trails: seq<Trail>, n: nat, slot: nat, a: nat, b: nat)
    requires Still(occupied, alt) && Shortest(spb, len, i1, i2, occupied, alt, q, trails, n) && slot < spb && !occupied(n, q[n].bucket, slot)
    requires a < b <= |trails[n].slots|
    ensures Walk(alt, From(i1, i2, trails[n].start), trails[n].slots[..a]) != Walk(alt, From(i1, i2, trails[n].start), trails[n].slots[..b])
  {
    var t := trails[n];
    var from, short := From(i1, i2, t.start), t.slots[..a] + t.slots[b..];
    assert TrailOk(spb, alt, i1, i2, q[n], t);
    FollowIsWalk(occupied, alt, from, t.slots, t.times);
    ShorterMisses(spb, len, i1, i2, occupied, alt, q, trails, n, slot, t.start, short);
    if Walk(alt, from, t.slots[..a]) == Walk(alt, from, t.slots[..b]) { CutOut(alt, from, t.slots, a, b); }
  }

  lemma StillRoute(spb: nat, len: nat, i1: nat, i2: nat, occupied: (nat, nat, nat) -> bool, alt: (nat, nat, nat) -> nat,
                   q: seq<BSlot>, trails: seq<Trail>, n: nat, slot: nat) returns (bkts: seq<nat>)
    requires Still(occupied, alt) && Shortest(spb, len, i1, i2, occupied, alt, q, trails, n) && slot < spb && !occupied(n, q[n].bucket, slot)
    ensures Route(occupied, alt, From(i1, i2, trails[n].start), trails[n].slots + [slot], bkts)
  {
    var t := trails[n];
    var from := From(i1, i2, t.start);
    var m := |t.slots|;
    var slots := t.slots + [slot];
    assert TrailOk(spb, alt, i1, i2, q[n], t);
    bkts := seq(m + 1, k requires 0 <= k <= m => Walk(alt, from, t.slots[..k]));
    forall a, b | 0 <= a < b < |bkts| ensures bkts[a] != bkts[b] { NoDetour(spb, len, i1, i2, occupied, alt, q, trails, n, slot, a, b); }
    forall k | 0 <= k < m ensures occupied(0, bkts[k], slots[k]) {
      FollowIsWalk(occupied, alt, from, t.slots[..k], t.times[..k]);
      assert occupied(t.times[k], Follow(alt, from, t.slots[..k], t.times[..k]), t.slots[k]);
    }
    forall k | 0 < k < m + 1 ensures bkts[k] == alt(0, bkts[k - 1], slots[k - 1]) { assert t.slots[..k][..k - 1] == t.slots[..k - 1]; }
    FollowIsWalk(occupied, alt, from, t.slots, t.times);
    assert t.slots[..m] == t.slots;
  }

  lemma StillFull(spb: nat, len: nat, i1: nat, i2: nat, occupied: (nat, nat, nat) -> bool, alt: (nat, nat, nat) -> nat,
                  q: seq<BSlot>, trails: seq<Trail>)
    requires Still(occupied, alt) && Exhausted(spb, len, i1, i2, occupied, alt, q, trails)
    ensures AllFull(spb, len, i1, i2, occupied, alt)
  {
    forall start: nat, slots: seq<nat> | start < 2 && |slots| < len && SlotsOk(spb, slots)
      ensures BucketFull(spb, occupied, 0, Walk(alt, From(i1, i2, start), slots))
    {
      var j := AllFollowed(spb, len, i1, i2, occupied, alt, q, trails, start, slots);
      FollowIsWalk(occupied, alt, From(i1, i2, start), slots, trails[j].times);
      forall x: nat | x < spb ensures occupied(0, q[j].bucket, x) { assert occupied(j, q[j].bucket, x); }
    }
  }

  lemma FoundNotFull(spb: nat, len: nat, i1: nat, i2: nat, occupied: (nat, nat, nat) -> bool, alt: (nat, nat, nat) -> nat,
                     q: seq<BSlot>, trails: seq<Trail>, n: nat, slot: nat)
    requires Still(occupied, alt) && Shortest(spb, len, i1, i2, occupied, alt, q, trails, n) && slot < spb && !occupied(n, q[n].bucket, slot)
    ensures !AllFull(spb, len, i1, i2, occupied, alt)
  {
    var t := trails[n];
    assert TrailOk(spb, alt, i1, i2, q[n], t);
    FollowIsWalk(occupied, alt, From(i1, i2, t.start), t.slots, t.times);
    assert occupied(n, q[n].bucket, slot) == occupied(0, q[n].bucket, slot);
    assert !BucketFull(spb, occupied, 0, Walk(alt, From(i1, i2, t.start), t.slots));
  }

  /** The search followed by decoding, as in cuckoopath_search: whenever all codes fit, the
      decoded path is the trail of the search, slot by slot, with its starting bucket.  In a table that
      does not change it is a route to a free slot, and there is none exactly if all is full. */
  method SearchAndDecode(spb: nat, len: nat, i1: nat, i2: nat, occupied: (nat, nat, nat) -> bool, alt: (nat, nat, nat) -> nat)
    returns (found: bool, start: nat, slots: seq<nat>, ghost trail: Trail, ghost slot: nat)
    requires spb > 0 && len > 0
    ensures found ==> 0 < |slots| <= len && SlotsOk(spb, slots)
    ensures found && 2 * Pow(spb, len) <= U16 ==> start == trail.start && slots == trail.slots + [slot]
    ensures !found ==> NoneFree(spb, len, i1, i2, occupied, alt)
    ensures found && 2 * Pow(spb, len) <= U16 && Still(occupied, alt) ==> exists bkts :: Route(occupied, alt, From(i1, i2, start), slots, bkts)
    ensures Still(occupied, alt) ==> (found <==> !AllFull(spb, len, i1, i2, occupied, alt))
  {
    var x, q;
    ghost var time, trails;
    found, x, trail, slot, time, q, trails := SlotSearch(spb, len, i1, i2, occupied, alt);
    start, slots := 0, [];
    if found {
      start, slots := Decode(spb, x.pathcode, x.depth + 1);
      if 2 * Pow(spb, len) <= U16 {
        FitsRecovers(spb, len, trail.start, trail.slots + [slot]);
      }
    }
    if Still(occupied, alt) { StillOutcome(spb, len, i1, i2, occupied, alt, q, trails, found, time, slot); }
  }

  lemma StillOutcome(spb: nat, len: nat, i1: nat, i2: nat, occupied: (nat, nat, nat) -> bool, alt: (nat, nat, nat) -> nat,
                     q: seq<BSlot>, trails: seq<Trail>, found: bool, n: nat, slot: nat)
    requires Still(occupied, alt)
    requires if found then Shortest(spb, len, i1, i2, occupied, alt, q, trails, n) && slot < spb && !occupied(n, q[n].bucket, slot)
             else Exhausted(spb, len, i1, i2, occupied, alt, q, trails)
    ensures found <==> !AllFull(spb, len, i1, i2, occupied, alt)
    ensures found ==> exists bkts :: Route(occupied, alt, From(i1, i2, trails[n].start), trails[n].slots + [slot], bkts)
  {
    if found {
      FoundNotFull(spb, len, i1, i2, occupied, alt, q, trails, n, slot);
      var bkts := StillRoute(spb, len, i1, i2, occupied, alt, q, trails, n, slot);
    } else {
      StillFull(spb, len, i1, i2, occupied, alt, q, trails);
    }
  }
}
