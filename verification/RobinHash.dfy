/**
  The robin-hood hash table behind every visited set (include/tsl/robin_hash.h), with linear
  probing over a circular bucket array, displacement on insertion and backward shift on
  erasure.  Stored truncated hashes are left out: equal keys have equal hashes, so comparing
  them first never changes an answer.  Distances are unbounded.
 */
module RobinHash {
  import opened Basics
  import opened Bits

  /** `Empty` stands for the distance marker -1. */
  datatype Bucket<K, V> = Empty | Full(dist: nat, key: K, value: V)

  function Dist<K, V>(b: Bucket<K, V>): int { if b.Full? then b.dist else -1 }

  // ---------------------------------------------------------------- circular arithmetic

  function Next(i: nat, n: nat): (r: nat)
    requires i < n
    ensures r < n
  {
    if i + 1 == n then 0 else i + 1
  }

  function Prev(i: nat, n: nat): (r: nat)
    requires i < n
    ensures r < n && Next(r, n) == i
  {
    if i == 0 then n - 1 else i - 1
  }

  /** How many steps forward from i to j. */
  function Off(i: nat, j: nat, n: nat): (r: nat)
    requires i < n && j < n
    ensures r < n
  {
    if i <= j then j - i else j + n - i
  }

  function Home<K>(hash: K -> nat, k: K, n: nat): (r: nat)
    requires n > 0
    ensures r < n
  {
    hash(k) % n
  }

  // ---------------------------------------------------------------- the probing invariant

  /** Each distance is the circular offset from the ideal bucket. */
  ghost predicate Placed<K, V>(b: seq<Bucket<K, V>>, hash: K -> nat) {
    forall i :: 0 <= i < |b| && b[i].Full? ==> b[i].dist == Off(Home(hash, b[i].key, |b|), i, |b|)
  }

  /** Distances grow by at most one from a bucket to the next. */
  ghost predicate Near<K, V>(b: seq<Bucket<K, V>>) {
    forall i {:trigger Next(i, |b|)} :: 0 <= i < |b| ==> Dist(b[Next(i, |b|)]) <= Dist(b[i]) + 1
  }

  /** The same, except after the bucket `hole`. */
  ghost predicate NearExcept<K, V>(b: seq<Bucket<K, V>>, hole: nat) {
    forall i {:trigger Next(i, |b|)} :: 0 <= i < |b| && i != hole ==> Dist(b[Next(i, |b|)]) <= Dist(b[i]) + 1
  }

  predicate HasKey<K(==), V>(x: Bucket<K, V>, k: K) { x.Full? && x.key == k }

  ghost predicate Unique<K, V>(b: seq<Bucket<K, V>>) {
    forall i, j :: 0 <= i < j < |b| && b[i].Full? && b[j].Full? ==> b[i].key != b[j].key
  }

  /** The buckets store exactly the entries of m, each once. */
  ghost predicate Stores<K, V>(b: seq<Bucket<K, V>>, m: map<K, V>) {
    if b == [] then m == map[]
    else
      var n := |b| - 1;
      if b[n].Empty? then Stores(b[..n], m)
      else b[n].key in m && m[b[n].key] == b[n].value && Stores(b[..n], m - {b[n].key})
  }

  /** The same, bucket by bucket and key by key. */
  ghost predicate Matches<K, V>(b: seq<Bucket<K, V>>, m: map<K, V>) {
    && Unique(b)
    && (forall i :: 0 <= i < |b| && b[i].Full? ==> b[i].key in m && m[b[i].key] == b[i].value)
    && (forall k :: k in m ==> exists i :: 0 <= i < |b| && HasKey(b[i], k))
  }

  lemma {:induction false} StoresMatches<K, V>(b: seq<Bucket<K, V>>, m: map<K, V>)
    ensures Stores(b, m) ==> Matches(b, m)
  {
    if b != [] && Stores(b, m) {
      var n := |b| - 1;
      var rest, m' := b[..n], if b[n].Empty? then m else m - {b[n].key};
      StoresMatches(rest, m');
      forall k | k in m ensures exists i :: 0 <= i < |b| && HasKey(b[i], k) {
        if k in m' {
          var i :| 0 <= i < n && HasKey(rest[i], k);
          assert HasKey(b[i], k);
        } else {
          assert HasKey(b[n], k);
        }
      }
    }
  }

  lemma {:induction false} MatchesStores<K, V>(b: seq<Bucket<K, V>>, m: map<K, V>)
    ensures Matches(b, m) ==> Stores(b, m)
  {
    if b != [] && Matches(b, m) {
      var n := |b| - 1;
      var rest, m' := b[..n], if b[n].Empty? then m else m - {b[n].key};
      forall k | k in m' ensures exists i :: 0 <= i < n && HasKey(rest[i], k) {
        var i :| 0 <= i < |b| && HasKey(b[i], k);
        assert HasKey(rest[i], k);
      }
      MatchesStores(rest, m');
    }
  }

  /** An entry at p that is at least as far from `home` as p is keeps the whole stretch from
      `home` to p occupied at matching distances. */
  lemma {:induction false} Stretch<K, V>(b: seq<Bucket<K, V>>, home: nat, p: nat, q: nat)
    requires Near(b) && home < |b| && p < |b| && q < |b|
    requires Dist(b[p]) >= Off(home, p, |b|) >= Off(home, q, |b|)
    ensures Dist(b[q]) >= Off(home, q, |b|)
    decreases Off(home, p, |b|)
  {
    if p != q {
      var p' := Prev(p, |b|);
      assert Dist(b[Next(p', |b|)]) <= Dist(b[p']) + 1;
      Stretch(b, home, p', q);
    }
  }

  /** A probe never comes back to its start while some bucket is empty. */
  lemma NotRound<K, V>(b: seq<Bucket<K, V>>, home: nat, p: nat, hole: nat)
    requires Near(b) && home < |b| && p < |b| && hole < |b| && b[hole].Empty?
    requires Dist(b[p]) >= Off(home, p, |b|)
    ensures Next(p, |b|) != home && p != hole
    ensures Off(home, Next(p, |b|), |b|) == Off(home, p, |b|) + 1
    ensures Off(Next(p, |b|), hole, |b|) < Off(p, hole, |b|)
  {
    if Next(p, |b|) == home {
      Stretch(b, home, p, hole);
    }
  }

  /** No bucket within the first d steps from home holds the key. */
  ghost predicate Unseen<K, V>(b: seq<Bucket<K, V>>, k: K, home: nat, d: nat) {
    home < |b| && forall q :: 0 <= q < |b| && Off(home, q, |b|) < d ==> !HasKey(b[q], k)
  }

  lemma UnseenStep<K, V>(b: seq<Bucket<K, V>>, k: K, home: nat, p: nat)
    requires home < |b| && p < |b| && Unseen(b, k, home, Off(home, p, |b|)) && !HasKey(b[p], k)
    ensures Unseen(b, k, home, Off(home, p, |b|) + 1)
  {
  }

  /** Early exit is sound: a bucket closer to home than the probe ends the search. */
  lemma AbsentFrom<K, V>(b: seq<Bucket<K, V>>, hash: K -> nat, k: K, p: nat)
    requires Near(b) && Placed(b, hash) && p < |b|
    requires Dist(b[p]) < Off(Home(hash, k, |b|), p, |b|)
    requires Unseen(b, k, Home(hash, k, |b|), Off(Home(hash, k, |b|), p, |b|))
    ensures forall q :: 0 <= q < |b| ==> !HasKey(b[q], k)
  {
    forall q | 0 <= q < |b| ensures !HasKey(b[q], k) {
      if HasKey(b[q], k) { Stretch(b, Home(hash, k, |b|), q, p); }
    }
  }

  /** Putting an entry into a bucket whose occupant, if any, is closer to its home. */
  lemma PutKeeps<K, V>(b: seq<Bucket<K, V>>, hash: K -> nat, i: nat, x: Bucket<K, V>)
    requires Near(b) && Placed(b, hash) && i < |b| && x.Full?
    requires x.dist == Off(Home(hash, x.key, |b|), i, |b|)
    requires Dist(b[i]) < x.dist <= Dist(b[Prev(i, |b|)]) + 1
    ensures Near(b[i := x]) && Placed(b[i := x], hash)
  {
    var b' := b[i := x];
    forall j | 0 <= j < |b| ensures Dist(b'[Next(j, |b|)]) <= Dist(b'[j]) + 1 {
      assert Dist(b[Next(j, |b|)]) <= Dist(b[j]) + 1;
      if Next(j, |b|) == i { assert j == Prev(i, |b|); }
    }
  }

  // ---------------------------------------------------------------- what is stored

  lemma StoresPut<K, V>(b: seq<Bucket<K, V>>, m: map<K, V>, i: nat, x: Bucket<K, V>)
    requires Stores(b, m) && i < |b| && x.Full? && x.key !in m
    ensures b[i].Empty? ==> Stores(b[i := x], m[x.key := x.value])
    ensures b[i].Full? ==> Stores(b[i := x], (m - {b[i].key})[x.key := x.value])
  {
    var m' := (if b[i].Empty? then m else m - {b[i].key})[x.key := x.value];
    var b' := b[i := x];
    StoresMatches(b, m);
    forall k | k in m' ensures exists j :: 0 <= j < |b'| && HasKey(b'[j], k) {
      if k == x.key {
        assert HasKey(b'[i], k);
      } else {
        var j :| 0 <= j < |b| && HasKey(b[j], k);
        assert HasKey(b'[j], k);
      }
    }
    MatchesStores(b', m');
  }

  lemma StoresClear<K, V>(b: seq<Bucket<K, V>>, m: map<K, V>, i: nat)
    requires Stores(b, m) && i < |b| && b[i].Full?
    ensures Stores(b[i := Empty], m - {b[i].key})
  {
    var b', m' := b[i := Empty], m - {b[i].key};
    StoresMatches(b, m);
    forall k | k in m' ensures exists j :: 0 <= j < |b'| && HasKey(b'[j], k) {
      var j :| 0 <= j < |b| && HasKey(b[j], k);
      assert HasKey(b'[j], k);
    }
    MatchesStores(b', m');
  }

  /** Moving an entry to an empty bucket stores the same map. */
  lemma StoresMove<K, V>(b: seq<Bucket<K, V>>, m: map<K, V>, from: nat, to: nat, d: nat)
    requires Stores(b, m) && from < |b| && to < |b| && b[from].Full? && b[to].Empty?
    ensures Stores(b[to := Full(d, b[from].key, b[from].value)][from := Empty], m)
  {
    var x := Full(d, b[from].key, b[from].value);
    StoresClear(b, m, from);
    StoresPut(b[from := Empty], m - {x.key}, to, x);
    assert x.key in m && m[x.key] == x.value by { StoresMatches(b, m); }
    Restore(m, x.key);
    assert b[from := Empty][to := x] == b[to := x][from := Empty];
  }

  /** A table that stores fewer entries than it has buckets has an empty bucket. */
  lemma {:induction false} HasHole<K, V>(b: seq<Bucket<K, V>>, m: map<K, V>) returns (hole: nat)
    requires Stores(b, m) && |m| < |b|
    ensures hole < |b| && b[hole].Empty?
  {
    hole := |b| - 1;
    if b[hole].Full? {
      assert |m - {b[hole].key}| == |m| - 1 by { AddOne(m - {b[hole].key}, b[hole].key, b[hole].value); Restore(m, b[hole].key); }
      hole := HasHole(b[..hole], m - {b[hole].key});
    }
  }

  lemma AddOne<K, V>(m: map<K, V>, k: K, v: V)
    requires k !in m
    ensures m[k := v] - {k} == m && |m[k := v]| == |m| + 1
  {
    assert m[k := v].Keys == m.Keys + {k};
  }

  lemma Restore<K, V>(m: map<K, V>, k: K)
    requires k in m
    ensures (m - {k})[k := m[k]] == m
  {
  }

  // ---------------------------------------------------------------- growth

  /** Doubles p until it is at least `min`. */
  function RoundUp(min: nat, p: nat): (r: nat)
    requires p > 0
    ensures r >= min && r >= p && (r == p || r < 2 * min)
    decreases if p < min then min - p else 0
  {
    if p >= min then p else RoundUp(min, 2 * p)
  }

  /** Rounding up from a power of two gives the least power of two from there on that is large
      enough. */
  lemma {:induction false} RoundUpLeast(min: nat, d: nat)
    ensures exists e: nat :: d <= e && RoundUp(min, Pow2(d)) == Pow2(e) && min <= Pow2(e)
    ensures forall e: nat :: d <= e && min <= Pow2(e) ==> RoundUp(min, Pow2(d)) <= Pow2(e)
    decreases if Pow2(d) < min then min - Pow2(d) else 0
  {
    if Pow2(d) >= min {
      forall e: nat | d <= e ensures Pow2(d) <= Pow2(e) { Pow2Mono(d, e); }
    } else {
      RoundUpLeast(min, d + 1);
    }
  }

  /** The bucket count that the growth policy makes of a requested minimum. */
  function BucketCount(min: nat): nat { if min == 0 then 0 else RoundUp(min, 1) }

  /** A probe that stopped at p, carrying an entry that belongs there or further on. */
  ghost predicate Carried<K, V>(b: seq<Bucket<K, V>>, hash: K -> nat, p: nat, d: nat, k: K)
    requires p < |b|
  {
    && d == Off(Home(hash, k, |b|), p, |b|)
    && d <= Dist(b[Prev(p, |b|)]) + 1
  }

  /** `m` is stored except for the entry in hand. */
  ghost predicate AllBut<K, V>(b: seq<Bucket<K, V>>, m: map<K, V>, k: K, v: V) {
    k in m && m[k] == v && Stores(b, m - {k})
  }

  lemma MapSwap<K, V>(m: map<K, V>, k: K, k': K)
    requires k in m && k != k'
    ensures (m - {k})[k := m[k]] == m
    ensures (m - {k} - {k'})[k := m[k]] == m - {k'}
  {
  }

  lemma StoresExchange<K, V>(b: seq<Bucket<K, V>>, m: map<K, V>, p: nat, d: nat, k: K, v: V)
    requires AllBut(b, m, k, v) && p < |b|
    ensures var b' := b[p := Full(d, k, v)];
      && (b[p].Empty? ==> Stores(b', m))
      && (b[p].Full? ==> AllBut(b', m, b[p].key, b[p].value))
  {
    StoresPut(b, m - {k}, p, Full(d, k, v));
    if b[p].Full? {
      assert b[p].key in m - {k} && m[b[p].key] == b[p].value by { StoresMatches(b, m - {k}); }
      MapSwap(m, k, b[p].key);
    } else {
      Restore(m, k);
    }
  }

  /** Exchanging the entry in hand with a bucket's closer occupant, or dropping it there. */
  lemma Exchange<K, V>(b: seq<Bucket<K, V>>, hash: K -> nat, m: map<K, V>, p: nat, d: nat, k: K, v: V)
    requires Near(b) && Placed(b, hash) && p < |b| && Carried(b, hash, p, d, k) && AllBut(b, m, k, v)
    requires d > Dist(b[p])
    ensures var b' := b[p := Full(d, k, v)];
      && Near(b') && Placed(b', hash)
      && (b[p].Empty? ==> Stores(b', m))
      && (b[p].Full? ==> AllBut(b', m, b[p].key, b[p].value))
  {
    PutKeeps(b, hash, p, Full(d, k, v));
    StoresExchange(b, m, p, d, k, v);
  }

  /** Walking on with an entry that is no further from home than the bucket it passes. */
  lemma WalkOn<K, V>(b: seq<Bucket<K, V>>, hash: K -> nat, p: nat, d: nat, k: K, hole: nat)
    requires Near(b) && p < |b| && hole < |b| && b[hole].Empty?
    requires d == Off(Home(hash, k, |b|), p, |b|) <= Dist(b[p])
    ensures Carried(b, hash, Next(p, |b|), d + 1, k)
    ensures Off(Next(p, |b|), hole, |b|) < Off(p, hole, |b|)
  {
    NotRound(b, Home(hash, k, |b|), p, hole);
    assert Prev(Next(p, |b|), |b|) == p;
  }

  // ---------------------------------------------------------------- the table

  const HIGH_PROBES := 128
  const MIN_LOAD_FOR_GROWTH := 0.15

  /** Bucket p had an entry and has another one. */
  ghost predicate Pushed<K, V>(was: seq<Bucket<K, V>>, b: seq<Bucket<K, V>>, p: nat) {
    p < |was| == |b| && was[p].Full? && b[p].Full? && b[p] != was[p]
  }

  /** Some entry, after the one at `start`, gave way to one that is far from home. */
  ghost predicate FarPush<K, V>(was: seq<Bucket<K, V>>, b: seq<Bucket<K, V>>, start: nat) {
    exists p: nat :: p != start && Pushed(was, b, p) && b[p].dist >= HIGH_PROBES
  }

  /** On the way from start to the hole: what lies ahead is as it was, and the request to grow was
      made exactly for a far push. */
  ghost predicate Watched<K, V>(was: seq<Bucket<K, V>>, b: seq<Bucket<K, V>>, start: nat, p: nat, hole: nat, grow: bool, grow': bool, loaded: bool) {
    && |b| == |was| && start < |b| && p < |b| && hole < |b| && Off(p, hole, |b|) < Off(start, hole, |b|)
    && (forall q :: 0 <= q < |b| && Off(q, hole, |b|) <= Off(p, hole, |b|) ==> b[q] == was[q])
    && (grow' <==> grow || (loaded && FarPush(was, b, start)))
  }

  /** The entry x is carried to bucket p, at distance d from its home. */
  ghost predicate Pushing<K, V>(b: seq<Bucket<K, V>>, hash: K -> nat, all: map<K, V>, hole: nat, p: nat, d: nat, x: Bucket<K, V>) {
    && p < |b| && x.Full? && hole < |b| && b[hole].Empty? && Near(b) && Placed(b, hash)
    && Carried(b, hash, p, d, x.key) && AllBut(b, all, x.key, x.value)
  }

  lemma FirstPush<K, V>(b: seq<Bucket<K, V>>, hash: K -> nat, all: map<K, V>, start: nat, d: nat, k: K, v: V, hole: nat, grow: bool, loaded: bool)
    requires Near(b) && Placed(b, hash) && start < |b| && hole < |b| && b[start].Full? && b[hole].Empty? && d > b[start].dist
    requires Carried(b, hash, start, d, k) && AllBut(b, all, k, v)
    ensures var b' := b[start := Full(d, k, v)];
      && Pushing(b', hash, all, hole, Next(start, |b|), b[start].dist + 1, b[start])
      && Watched(b, b', start, Next(start, |b|), hole, grow, grow, loaded)
  {
    var b' := b[start := Full(d, k, v)];
    Exchange(b, hash, all, start, d, k, v);
    WalkOn(b', hash, start, b[start].dist, b[start].key, hole);
    assert !FarPush(b, b', start);
  }

  lemma WatchedOn<K, V>(was: seq<Bucket<K, V>>, b: seq<Bucket<K, V>>, start: nat, p: nat, hole: nat, grow: bool, grow': bool, loaded: bool,
                        d: nat, k: K, v: V)
    requires Watched(was, b, start, p, hole, grow, grow', loaded) && p != hole && b[p].Full?
    ensures Watched(was, b, start, Next(p, |b|), hole, grow, grow', loaded)
    ensures d > b[p].dist ==>
      Watched(was, b[p := Full(d, k, v)], start, Next(p, |b|), hole, grow, grow' || (loaded && d >= HIGH_PROBES), loaded)
  {
    if d > b[p].dist {
      FarPushMore(was, b, start, p, Full(d, k, v));
    }
  }

  lemma FarPushMore<K, V>(was: seq<Bucket<K, V>>, b: seq<Bucket<K, V>>, start: nat, p: nat, e: Bucket<K, V>)
    requires p < |was| == |b| && p != start && b[p] == was[p] && e.Full? && e != b[p]
    ensures FarPush(was, b[p := e], start) <==> FarPush(was, b, start) || (was[p].Full? && e.dist >= HIGH_PROBES)
  {
    var b' := b[p := e];
    if FarPush(was, b, start) {
      var q: nat :| q != start && Pushed(was, b, q) && b[q].dist >= HIGH_PROBES;
      assert Pushed(was, b', q);
    }
    if was[p].Full? { assert Pushed(was, b', p); }
    if FarPush(was, b', start) {
      var q: nat :| q != start && Pushed(was, b', q) && b'[q].dist >= HIGH_PROBES;
      assert q == p || Pushed(was, b, q);
    }
  }

  lemma LastPush<K, V>(was: seq<Bucket<K, V>>, b: seq<Bucket<K, V>>, hash: K -> nat, all: map<K, V>, start: nat, p: nat, d: nat, x: Bucket<K, V>,
                       hole: nat, grow: bool, grow': bool, loaded: bool)
    requires Pushing(b, hash, all, hole, p, d, x) && Watched(was, b, start, p, hole, grow, grow', loaded) && b[p].Empty?
    ensures var b' := b[p := Full(d, x.key, x.value)];
      && Near(b') && Placed(b', hash) && Stores(b', all)
      && (grow' <==> grow || (loaded && FarPush(was, b', start)))
  {
    Exchange(b, hash, all, p, d, x.key, x.value);
    FarPushMore(was, b, start, p, Full(d, x.key, x.value));
  }

  /** m_load_threshold: the number of elements at which the next insertion grows the table. */
  function LoadThreshold(bucketCount: nat, maxLoad: real): int {
    (bucketCount as real * maxLoad).Floor
  }

  lemma ThresholdLeavesRoom(bucketCount: nat, maxLoad: real, count: nat)
    requires maxLoad <= 0.95 && count < LoadThreshold(bucketCount, maxLoad)
    ensures count + 1 < bucketCount
  {
    assert bucketCount as real * maxLoad <= bucketCount as real * 0.95;
    assert bucketCount > 0;
  }

  /** Moving the next entry over extends what has been moved. */
  lemma MovedNext<K, V>(b: seq<Bucket<K, V>>, m: map<K, V>, moved: map<K, V>, i: nat)
    requires Stores(b, m) && i < |b| && Stores(b[..i], moved)
    ensures b[i].Full? ==> b[i].key !in moved && b[i].key in m && m[b[i].key] == b[i].value
    ensures Stores(b[..i + 1], if b[i].Full? then moved[b[i].key := b[i].value] else moved)
  {
    assert b[..i + 1][..i] == b[..i];
    if b[i].Full? {
      StoresMatches(b, m);
      StoresMatches(b[..i], moved);
      assert forall j :: 0 <= j < |b[..i]| ==> b[..i][j] == b[j];
      AddOne(moved, b[i].key, b[i].value);
    }
  }

  lemma SubmapSize<K, V>(a: map<K, V>, m: map<K, V>)
    requires a.Keys <= m.Keys
    ensures |a| <= |m|
  {
    var rest := m.Keys - a.Keys;
    assert m.Keys == a.Keys + rest;
    assert |m.Keys| == |a.Keys| + |rest|;
  }

  lemma StoresSame<K, V>(b: seq<Bucket<K, V>>, m: map<K, V>, m': map<K, V>)
    requires Stores(b, m) && Stores(b, m')
    ensures m == m'
  {
    StoresMatches(b, m);
    StoresMatches(b, m');
  }

  lemma {:induction false} StoresNone<K, V>(b: seq<Bucket<K, V>>)
    requires forall i :: 0 <= i < |b| ==> b[i].Empty?
    ensures Stores(b, map[])
  {
    if b != [] { StoresNone(b[..|b| - 1]); }
  }

  lemma NothingStored<K, V>(b: seq<Bucket<K, V>>, m: map<K, V>)
    requires Stores(b, m)
    ensures |b| == 0 ==> m == map[]
  {
  }

  /** A table in order except for a hole that later entries may still have to close. */
  ghost predicate HoleAt<K, V>(b: seq<Bucket<K, V>>, hash: K -> nat, m: map<K, V>, hole: nat) {
    && hole < |b| && |b| > 1 && b[hole].Empty?
    && NearExcept(b, hole) && Placed(b, hash) && Stores(b, m)
    && Dist(b[Next(hole, |b|)]) <= Dist(b[Prev(hole, |b|)]) + 2
  }

  /** Clearing a bucket breaks the distance order only after that bucket, by at most one more. */
  lemma ClearKeeps<K, V>(b: seq<Bucket<K, V>>, hash: K -> nat, m: map<K, V>, p: nat)
    requires Near(b) && Placed(b, hash) && Stores(b, m) && p < |b| && b[p].Full? && |b| > 1
    ensures HoleAt(b[p := Empty], hash, m - {b[p].key}, p)
  {
    StoresClear(b, m, p);
    assert Dist(b[Next(p, |b|)]) <= Dist(b[p]) + 1;
    assert Dist(b[Next(Prev(p, |b|), |b|)]) <= Dist(b[Prev(p, |b|)]) + 1;
  }

  /** One backward shift moves the hole one bucket on. */
  lemma ShiftKeeps<K, V>(b: seq<Bucket<K, V>>, hash: K -> nat, m: map<K, V>, prev: nat)
    requires HoleAt(b, hash, m, prev) && Dist(b[Next(prev, |b|)]) > 0
    ensures var p := Next(prev, |b|);
      HoleAt(b[prev := Full(b[p].dist - 1, b[p].key, b[p].value)][p := Empty], hash, m, p)
  {
    var n := |b|;
    var p := Next(prev, n);
    var b' := b[prev := Full(b[p].dist - 1, b[p].key, b[p].value)][p := Empty];
    StoresMove(b, m, p, prev, b[p].dist - 1);
    assert Dist(b[Next(p, n)]) <= Dist(b[p]) + 1;
    forall i | 0 <= i < n && i != p ensures Dist(b'[Next(i, n)]) <= Dist(b'[i]) + 1 {
      if i != prev {
        assert Dist(b[Next(i, n)]) <= Dist(b[i]) + 1;
        if Next(i, n) == prev { assert i == Prev(prev, n); }
      }
    }
  }

  lemma HoleClosed<K, V>(b: seq<Bucket<K, V>>, hash: K -> nat, m: map<K, V>, hole: nat)
    requires HoleAt(b, hash, m, hole) && Dist(b[Next(hole, |b|)]) <= 0
    ensures Near(b) && Placed(b, hash) && Stores(b, m)
  {
  }

  /** The number of buckets that `count` elements need at the given load factor. */
  function CeilDiv(count: nat, load: real): (r: nat)
    requires 0.1 <= load <= 0.95
    ensures r as real - 1.0 < count as real / load <= r as real
    ensures count > 0 ==> r > count
    ensures count == 0 ==> r == 0
  {
    var q := count as real / load;
    assert q * load == count as real;
    assert q >= 0.0;
    if q == q.Floor as real then q.Floor else q.Floor + 1
  }

  class RobinTable<K(==), V> {
    const hash: K -> nat
    const maxLoad: real
    var buckets: seq<Bucket<K, V>>
    var count: nat
    var growOnNextInsert: bool
    ghost var contents: map<K, V>

    ghost predicate Valid()
      reads this
    {
      && 0.1 <= maxLoad <= 0.95
      && Near(buckets) && Placed(buckets, hash) && Stores(buckets, contents)
      && count == |contents|
      && (count < |buckets| || |buckets| == 0)
    }

    constructor (min: nat, hash: K -> nat, load: real)
      ensures Valid() && contents == map[] && this.hash == hash
      ensures |buckets| == BucketCount(min) >= min && forall i :: 0 <= i < |buckets| ==> buckets[i].Empty?
      ensures maxLoad == if load > 0.95 then 0.95 else if load < 0.1 then 0.1 else load
    {
      this.hash := hash;
      maxLoad := if load > 0.95 then 0.95 else if load < 0.1 then 0.1 else load;
      buckets := seq(BucketCount(min), _ => Empty);
      count, growOnNextInsert, contents := 0, false, map[];
      new;
      StoresNone(buckets);
    }

    /** The probe that find_impl and insert_impl share: stops at the key, or at the first
        bucket whose occupant is closer to its home than the probe is. */
    method Probe(key: K) returns (p: nat, d: nat, found: bool)
      requires Valid() && |buckets| > 0
      ensures p < |buckets|
      ensures found ==> HasKey(buckets[p], key)
      ensures !found ==> Dist(buckets[p]) < d && Carried(buckets, hash, p, d, key)
      ensures found <==> key in contents
    {
      var n := |buckets|;
      ghost var hole := HasHole(buckets, contents);
      ghost var home := Home(hash, key, n);
      p, d := Home(hash, key, n), 0;
      while d <= Dist(buckets[p])
        invariant p < n && d == Off(home, p, n)
        invariant Carried(buckets, hash, p, d, key)
        invariant Unseen(buckets, key, home, d)
        decreases Off(p, hole, n)
      {
        if HasKey(buckets[p], key) {
          StoresMatches(buckets, contents);
          return p, d, true;
        }
        UnseenStep(buckets, key, home, p);
        WalkOn(buckets, hash, p, d, key, hole);
        p, d := Next(p, n), d + 1;
      }
      AbsentFrom(buckets, hash, key, p);
      StoresMatches(buckets, contents);
      found := false;
    }

    /** find: the entry that was inserted and not erased, and nothing else. */
    method Find(key: K) returns (r: Option<V>)
      requires Valid()
      ensures r == if key in contents then Some(contents[key]) else None
    {
      if |buckets| == 0 {
        return None;
      }
      var p, d, found := Probe(key);
      StoresMatches(buckets, contents);
      r := if found then Some(buckets[p].value) else None;
    }

    /** Places an entry by displacing richer ones along the probe; `all` is what the table
        stores afterwards. */
    method InsertValue(start: nat, dist: nat, key: K, value: V, ghost all: map<K, V>)
      requires Near(buckets) && Placed(buckets, hash) && start < |buckets| && |all| <= |buckets|
      requires buckets[start].Full? && dist > Dist(buckets[start])
      requires Carried(buckets, hash, start, dist, key) && AllBut(buckets, all, key, value)
      modifies this`buckets, this`growOnNextInsert
      ensures Near(buckets) && Placed(buckets, hash) && Stores(buckets, all)
      ensures |buckets| == old(|buckets|)
      ensures growOnNextInsert <==>
        old(growOnNextInsert) || (count as real >= MIN_LOAD_FOR_GROWTH * |buckets| as real && FarPush(old(buckets), buckets, start))
    {
      var n := |buckets|;
      var loaded := count as real >= MIN_LOAD_FOR_GROWTH * n as real;
      ghost var was, grow := buckets, growOnNextInsert;
      ghost var hole := HasHole(buckets, all - {key});
      FirstPush(buckets, hash, all, start, dist, key, value, hole, grow, loaded);
      var x := buckets[start];
      buckets := buckets[start := Full(dist, key, value)];
      var p: nat, d: nat := Next(start, n), x.dist + 1;
      while buckets[p].Full?
        invariant |buckets| == n && Pushing(buckets, hash, all, hole, p, d, x)
        invariant Watched(was, buckets, start, p, hole, grow, growOnNextInsert, loaded)
        decreases Off(p, hole, n)
      {
        p, d, x := PushOn(p, d, x, loaded, all, was, start, hole, grow);
      }
      LastPush(was, buckets, hash, all, start, p, d, x, hole, grow, growOnNextInsert, loaded);
      buckets := buckets[p := Full(d, x.key, x.value)];
    }

    /** One bucket on the way: the carried entry takes its place if that is closer to home. */
    method PushOn(p0: nat, d0: nat, x0: Bucket<K, V>, loaded: bool, ghost all: map<K, V>,
                  ghost was: seq<Bucket<K, V>>, ghost start: nat, ghost hole: nat, ghost grow: bool)
      returns (p: nat, d: nat, x: Bucket<K, V>)
      requires Pushing(buckets, hash, all, hole, p0, d0, x0) && buckets[p0].Full?
      requires Watched(was, buckets, start, p0, hole, grow, growOnNextInsert, loaded)
      modifies this`buckets, this`growOnNextInsert
      ensures |buckets| == |old(buckets)| && Pushing(buckets, hash, all, hole, p, d, x)
      ensures Off(p, hole, |buckets|) < Off(p0, hole, |buckets|)
      ensures Watched(was, buckets, start, p, hole, grow, growOnNextInsert, loaded)
    {
      x, d := x0, d0;
      WatchedOn(was, buckets, start, p0, hole, grow, growOnNextInsert, loaded, d, x.key, x.value);
      if d > buckets[p0].dist {
        if d >= HIGH_PROBES && loaded {
          growOnNextInsert := true;
        }
        Exchange(buckets, hash, all, p0, d, x.key, x.value);
        var y := buckets[p0];
        buckets := buckets[p0 := Full(d, x.key, x.value)];
        x, d := y, y.dist;
      }
      WalkOn(buckets, hash, p0, d, x.key, hole);
      p, d := Next(p0, |buckets|), d + 1;
    }

    /** Probes from the ideal bucket and displaces in the same loop. */
    method InsertValueOnRehash(key: K, value: V, ghost all: map<K, V>)
      requires Near(buckets) && Placed(buckets, hash) && |all| <= |buckets|
      requires AllBut(buckets, all, key, value)
      modifies this`buckets
      ensures Near(buckets) && Placed(buckets, hash) && Stores(buckets, all)
      ensures |buckets| == old(|buckets|)
    {
      assert |all| > 0;
      var n := |buckets|;
      ghost var hole := HasHole(buckets, all - {key});
      var p: nat, d: nat, k, v := Home(hash, key, n), 0, key, value;
      while true
        invariant |buckets| == n && p < n && buckets[hole].Empty?
        invariant Near(buckets) && Placed(buckets, hash)
        invariant Carried(buckets, hash, p, d, k) && AllBut(buckets, all, k, v)
        decreases Off(p, hole, n)
      {
        if d > Dist(buckets[p]) {
          Exchange(buckets, hash, all, p, d, k, v);
          if buckets[p].Empty? {
            buckets := buckets[p := Full(d, k, v)];
            return;
          }
          var y := buckets[p];
          buckets := buckets[p := Full(d, k, v)];
          d, k, v := y.dist, y.key, y.value;
        }
        WalkOn(buckets, hash, p, d, k, hole);
        p, d := Next(p, n), d + 1;
      }
    }

    /** Rebuilds the table over at least `min` buckets; nothing stored changes. */
    method RehashImpl(min: nat)
      requires Valid() && (count < min || min == 0 == count)
      modifies this`buckets, this`growOnNextInsert
      ensures Valid() && contents == old(contents)
      ensures |buckets| == BucketCount(min) && !growOnNextInsert
    {
      var other := new RobinTable<K, V>(min, hash, maxLoad);
      ghost var moved: map<K, V> := map[];
      var i := 0;
      while i < |buckets|
        invariant 0 <= i <= |buckets| && buckets == old(buckets)
        invariant other.hash == hash && |other.buckets| == BucketCount(min)
        invariant Near(other.buckets) && Placed(other.buckets, hash) && Stores(other.buckets, moved)
        invariant moved.Keys <= contents.Keys && (forall k :: k in moved ==> moved[k] == contents[k])
        invariant Stores(buckets[..i], moved)
      {
        var b := buckets[i];
        MovedNext(buckets, contents, moved, i);
        if b.Full? {
          ghost var all := moved[b.key := b.value];
          SubmapSize(all, contents);
          AddOne(moved, b.key, b.value);
          other.InsertValueOnRehash(b.key, b.value, all);
          moved := all;
        }
        i := i + 1;
      }
      assert buckets[..i] == buckets;
      StoresSame(buckets, contents, moved);
      buckets, growOnNextInsert := other.buckets, false;
    }

    /** rehash: never shrinks below what the load factor allows for the stored elements. */
    method Rehash(min: nat)
      requires Valid()
      modifies this`buckets, this`growOnNextInsert
      ensures Valid() && contents == old(contents)
      ensures |buckets| >= min && count as real / maxLoad <= |buckets| as real && !growOnNextInsert
    {
      var needed := CeilDiv(count, maxLoad);
      RehashImpl(if min < needed then needed else min);
    }

    /** grow_on_high_load: doubles the table when it is full enough or probes grew long. */
    method GrowOnHighLoad() returns (grown: bool)
      requires Valid()
      modifies this`buckets, this`growOnNextInsert
      ensures Valid() && contents == old(contents)
      ensures count + 1 < |buckets|
      ensures grown <==> old(growOnNextInsert) || count >= (old(|buckets|) as real * maxLoad).Floor
      ensures if grown then |buckets| >= 2 * old(|buckets|) && |buckets| >= 2 && !growOnNextInsert else buckets == old(buckets)
    {
      if growOnNextInsert || count >= LoadThreshold(|buckets|, maxLoad) {
        RehashImpl(if |buckets| == 0 then 2 else 2 * |buckets|);
        growOnNextInsert := false;
        grown := true;
      } else {
        ThresholdLeavesRoom(|buckets|, maxLoad, count);
        grown := false;
      }
    }

    /** insert: adds the entry exactly when the key was absent and keeps the old one otherwise. */
    method Insert(key: K, value: V) returns (inserted: bool)
      requires Valid()
      modifies this
      ensures Valid()
      ensures inserted <==> key !in old(contents)
      ensures contents == if inserted then old(contents)[key := value] else old(contents)
    {
      var p: nat, d: nat, found := 0, 0, false;
      if |buckets| > 0 {
        p, d, found := Probe(key);
      }
      if found {
        return false;
      }
      NothingStored(buckets, contents);
      var grown := GrowOnHighLoad();
      if grown {
        p, d, found := Probe(key);
      }
      ghost var all := contents[key := value];
      AddOne(contents, key, value);
      if buckets[p].Empty? {
        Exchange(buckets, hash, all, p, d, key, value);
        buckets := buckets[p := Full(d, key, value)];
      } else {
        InsertValue(p, d, key, value, all);
      }
      count, contents := count + 1, all;
      inserted := true;
    }

    /** Backward shift from the hole left by a cleared bucket, up to the next free or ideally
        placed one; `stop` is any other empty bucket. */
    method ShiftBack(start: nat, ghost stop: nat)
      requires HoleAt(buckets, hash, contents, start)
      requires stop < |buckets| && stop != start && buckets[stop].Empty?
      modifies this`buckets
      ensures Near(buckets) && Placed(buckets, hash) && Stores(buckets, contents)
      ensures |buckets| == old(|buckets|)
    {
      var n := |buckets|;
      var prev: nat, p: nat := start, Next(start, n);
      while Dist(buckets[p]) > 0
        invariant |buckets| == n && prev < n && p == Next(prev, n) && prev != stop && buckets[stop].Empty?
        invariant HoleAt(buckets, hash, contents, prev)
        decreases Off(p, stop, n)
      {
        ShiftKeeps(buckets, hash, contents, prev);
        var x := buckets[p];
        buckets := buckets[prev := Full(x.dist - 1, x.key, x.value)][p := Empty];
        prev, p := p, Next(p, n);
      }
      HoleClosed(buckets, hash, contents, prev);
    }

    /** erase: removes exactly the key, if it was there. */
    method Erase(key: K) returns (erased: bool)
      requires Valid()
      modifies this
      ensures Valid()
      ensures erased <==> key in old(contents)
      ensures contents == old(contents) - {key}
    {
      if |buckets| == 0 {
        NothingStored(buckets, contents);
        return false;
      }
      var p, _, found := Probe(key);
      if !found {
        return false;
      }
      ghost var hole := HasHole(buckets, contents);
      ClearKeeps(buckets, hash, contents, p);
      contents := contents - {key};
      count := count - 1;
      buckets := buckets[p := Empty];
      ShiftBack(p, hole);
      erased := true;
    }
  }
}
