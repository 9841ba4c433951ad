/**
  The sparse table of reader-writer locks (include/v2/lock_table.h), whose lock objects exist
  only while somebody holds them, and locking through it in sorted order (include/ssd_index.h).
 */
module LockTable {
  import opened Basics

  // ---------------------------------------------------------------- the table

  /** A lock object with its reference count. */
  datatype Entry = Entry(readers: nat, writers: nat, count: nat)

  type Table = map<nat, Entry>

  /** The entry that a try call works on: a new lock object if there is none. */
  function Found(t: Table, k: nat): Entry { if k in t then t[k] else Entry(0, 0, 0) }

  predicate Grants(e: Entry, rd: bool) { e.writers == 0 && (rd || e.readers == 0) }

  function Granted(e: Entry, rd: bool): Entry {
    if rd then Entry(e.readers + 1, e.writers, e.count + 1) else Entry(e.readers, e.writers + 1, e.count + 1)
  }

  /** The table after one tryrdlock or trywrlock. */
  function Tried(t: Table, k: nat, rd: bool): Table {
    if Grants(Found(t, k), rd) then t[k := Granted(Found(t, k), rd)] else t[k := Found(t, k)]
  }

  /** The table after an unlock: the last one out destroys the lock object. */
  function Unlocked(t: Table, k: nat): Table {
    if k !in t then t
    else if t[k].count <= 1 then t - {k}
    else t[k := Released(t[k])]
  }

  function Released(e: Entry): Entry
    requires e.count > 0
  {
    if e.writers > 0 then Entry(e.readers, e.writers - 1, e.count - 1)
    else Entry(if e.readers > 0 then e.readers - 1 else 0, 0, e.count - 1)
  }

  /** An entry exists exactly while the key is held, it counts the holders, and a writer is alone. */
  ghost predicate Exact(t: Table, k: nat, r: nat, w: nat) {
    && (k in t <==> r + w > 0)
    && (k in t ==> t[k] == Entry(r, w, r + w))
    && w <= 1 && (w == 1 ==> r == 0)
  }

  /** The table with the history of who holds what: a pair (k, rd) for every lock that was granted
      and not given back. */
  class SparseLockTable {
    var locks: Table
    ghost var holders: multiset<(nat, bool)>

    ghost predicate Valid()
      reads this
    {
      forall k: nat :: Exact(locks, k, holders[(k, true)], holders[(k, false)])
    }

    constructor ()
      ensures Valid() && locks == map[] && holders == multiset{}
    {
      locks, holders := map[], multiset{};
    }

    /** tryrdlock and trywrlock, each one section under the map's bucket locks: granted exactly if
        no writer holds the key, nor, for a writer, any reader. */
    method TryLock(k: nat, rd: bool) returns (ok: bool)
      requires Valid()
      modifies this
      ensures Valid() && locks == Tried(old(locks), k, rd)
      ensures ok <==> (k, false) !in old(holders) && (rd || (k, true) !in old(holders))
      ensures holders == old(holders) + if ok then multiset{(k, rd)} else multiset{}
      ensures !ok ==> locks == old(locks)
    {
      assert Exact(locks, k, holders[(k, true)], holders[(k, false)]);
      if k !in locks {
        locks := locks[k := Entry(0, 0, 0)];
      }
      var v := locks[k];
      ok := if rd then v.writers == 0 else v.writers == 0 && v.readers == 0;
      if ok {
        v := if rd then v.(readers := v.readers + 1) else v.(writers := v.writers + 1);
        v := v.(count := v.count + 1);
        locks := locks[k := v];
        holders := holders + multiset{(k, rd)};
      }
    }

    /** unlock: one holder of the key goes, and with the last one the lock object.  A key that
        nobody holds has no entry and stays as it is, so the trap is not reached. */
    method Unlock(k: nat, ghost rd: bool)
      requires Valid() && ((k, true) in holders || (k, false) in holders ==> (k, rd) in holders)
      modifies this
      ensures Valid() && locks == Unlocked(old(locks), k) && holders == old(holders) - multiset{(k, rd)}
      ensures k in locks <==> (k, true) in holders || (k, false) in holders
    {
      assert Exact(locks, k, holders[(k, true)], holders[(k, false)]);
      if k in locks {
        var v := locks[k];
        if v.count == 0 {
          assert false;
        }
        var n := v.count - 1;
        if n == 0 {
          locks := locks - {k};
        } else {
          locks := locks[k := Released(v)];
        }
        holders := holders - multiset{(k, rd)};
      }
    }
  }

  // ---------------------------------------------------------------- sorted keys

  ghost predicate Ascending(s: seq<nat>) { forall i, j :: 0 <= i < j < |s| ==> s[i] < s[j] }

  function InsertKey(s: seq<nat>, k: nat): seq<nat> {
    if s == [] || k < s[0] then [k] + s
    else if k == s[0] then s
    else [s[0]] + InsertKey(s[1..], k)
  }

  /** get_to_lock_idx: sorted and without duplicates. */
  function ToLock(ids: seq<nat>): seq<nat> {
    if ids == [] then [] else InsertKey(ToLock(ids[..|ids| - 1]), ids[|ids| - 1])
  }

  lemma {:induction false} InsertKeyOk(s: seq<nat>, k: nat)
    requires Ascending(s)
    ensures Ascending(InsertKey(s, k)) && forall x :: x in InsertKey(s, k) <==> x in s || x == k
    decreases |s|
  {
    if s != [] && k > s[0] {
      InsertKeyOk(s[1..], k);
      var r := InsertKey(s[1..], k);
      forall j | 0 <= j < |r| ensures s[0] < r[j] {
        assert r[j] in r;
        assert r[j] in s[1..] || r[j] == k;
      }
      assert s == [s[0]] + s[1..];
    }
  }

  lemma {:induction false} ToLockOk(ids: seq<nat>)
    ensures Ascending(ToLock(ids)) && forall x :: x in ToLock(ids) <==> x in ids
    decreases |ids|
  {
    if ids != [] {
      var n := |ids| - 1;
      ToLockOk(ids[..n]);
      InsertKeyOk(ToLock(ids[..n]), ids[n]);
      assert ids == ids[..n] + [ids[n]];
    }
  }

  // ---------------------------------------------------------------- threads

  datatype Thread = Idle | Locking(keys: seq<nat>, rd: bool, n: nat) | Unlocking(keys: seq<nat>, rd: bool, n: nat)

  predicate Held(th: Thread, k: nat) {
    match th
    case Idle => false
    case Locking(keys, _, n) => n <= |keys| && k in keys[..n]
    case Unlocking(keys, _, n) => n <= |keys| && k in keys[n..]
  }

  function Reads(th: Thread, k: nat): nat { if Held(th, k) && th.rd then 1 else 0 }

  function Writes(th: Thread, k: nat): nat { if Held(th, k) && !th.rd then 1 else 0 }

  function Readers(ths: seq<Thread>, k: nat): nat {
    if ths == [] then 0 else Readers(ths[1..], k) + Reads(ths[0], k)
  }

  function Writers(ths: seq<Thread>, k: nat): nat {
    if ths == [] then 0 else Writers(ths[1..], k) + Writes(ths[0], k)
  }

  lemma {:induction false} HolderCounts(ths: seq<Thread>, i: nat, th: Thread, k: nat)
    requires i < |ths|
    ensures Readers(ths[i := th], k) == Readers(ths, k) - Reads(ths[i], k) + Reads(th, k)
    ensures Writers(ths[i := th], k) == Writers(ths, k) - Writes(ths[i], k) + Writes(th, k)
    ensures Readers(ths, k) >= Reads(ths[i], k) && Writers(ths, k) >= Writes(ths[i], k)
    decreases |ths|
  {
    if i == 0 {
      assert ths[i := th][1..] == ths[1..];
    } else {
      HolderCounts(ths[1..], i - 1, th, k);
      assert ths[i := th][1..] == ths[1..][i - 1 := th];
    }
  }

  lemma {:induction false} SomeHolder(ths: seq<Thread>, k: nat) returns (i: nat)
    requires Readers(ths, k) + Writers(ths, k) > 0
    ensures i < |ths| && Held(ths[i], k)
    decreases |ths|
  {
    if Held(ths[0], k) {
      i := 0;
    } else {
      var j := SomeHolder(ths[1..], k);
      i := j + 1;
    }
  }

  datatype State = State(table: Table, threads: seq<Thread>)

  /** Turn: from locking to unlocking, which need not go in the same order. */
  datatype Action = Begin(ids: seq<nat>, rd: bool) | Try | Turn(order: seq<nat>) | Release

  ghost predicate SameKeys(a: seq<nat>, b: seq<nat>) { forall k :: k in a <==> k in b }

  /** What thread i does next. */
  ghost predicate Enabled(s: State, i: nat, a: Action) {
    && i < |s.threads|
    && match a
       case Begin(_, _) => s.threads[i].Idle?
       case Try => s.threads[i].Locking? && s.threads[i].n < |s.threads[i].keys|
       case Turn(order) => s.threads[i].Locking? && s.threads[i].n == |s.threads[i].keys| && SameKeys(order, s.threads[i].keys)
       case Release => s.threads[i].Unlocking? && s.threads[i].n < |s.threads[i].keys|
  }

  function UnlockFrom(keys: seq<nat>, rd: bool, n: nat): Thread { if n < |keys| then Unlocking(keys, rd, n) else Idle }

  function Next(s: State, i: nat, a: Action): State
    requires Enabled(s, i, a)
  {
    var th := s.threads[i];
    match a
    case Begin(ids, rd) => s.(threads := s.threads[i := Locking(ToLock(ids), rd, 0)])
    case Try =>
      var k := th.keys[th.n];
      State(Tried(s.table, k, th.rd),
            if Grants(Found(s.table, k), th.rd) then s.threads[i := Locking(th.keys, th.rd, th.n + 1)] else s.threads)
    case Turn(order) => s.(threads := s.threads[i := UnlockFrom(order, th.rd, 0)])
    case Release =>
      State(Unlocked(s.table, th.keys[th.n]),
            s.threads[i := UnlockFrom(th.keys, th.rd, th.n + 1)])
  }

  // ---------------------------------------------------------------- safety

  ghost predicate ThreadOk(th: Thread) {
    match th
    case Idle => true
    case Locking(keys, _, n) => Ascending(keys) && n <= |keys|
    case Unlocking(keys, _, n) => Distinct(keys) && n < |keys|
  }

  /** No lock is given back twice. */
  ghost predicate Once(a: Action) { a.Turn? ==> Distinct(a.order) }

  ghost predicate KeyOk(t: Table, ths: seq<Thread>, k: nat) { Exact(t, k, Readers(ths, k), Writers(ths, k)) }

  ghost predicate Inv(s: State) {
    && (forall i :: 0 <= i < |s.threads| ==> ThreadOk(s.threads[i]))
    && (forall k: nat :: KeyOk(s.table, s.threads, k))
  }

  lemma HeldAfterLock(th: Thread, k: nat)
    requires th.Locking? && ThreadOk(th) && th.n < |th.keys|
    ensures Held(Locking(th.keys, th.rd, th.n + 1), k) <==> Held(th, k) || k == th.keys[th.n]
    ensures !Held(th, th.keys[th.n])
  {
    assert th.keys[..th.n + 1] == th.keys[..th.n] + [th.keys[th.n]];
  }

  lemma HeldAfterUnlock(th: Thread, k: nat)
    requires th.Unlocking? && ThreadOk(th)
    ensures Held(UnlockFrom(th.keys, th.rd, th.n + 1), k) <==> Held(th, k) && k != th.keys[th.n]
    ensures Held(th, th.keys[th.n])
  {
    assert th.keys[th.n..] == [th.keys[th.n]] + th.keys[th.n + 1..];
  }

  lemma TryKey(s: State, i: nat, k: nat)
    requires Inv(s) && Enabled(s, i, Try)
    ensures KeyOk(Next(s, i, Try).table, Next(s, i, Try).threads, k)
  {
    var th := s.threads[i];
    var k0 := th.keys[th.n];
    HeldAfterLock(th, k);
    HolderCounts(s.threads, i, Locking(th.keys, th.rd, th.n + 1), k);
    assert KeyOk(s.table, s.threads, k) && KeyOk(s.table, s.threads, k0);
  }

  lemma ReleaseKey(s: State, i: nat, k: nat)
    requires Inv(s) && Enabled(s, i, Release)
    ensures KeyOk(Next(s, i, Release).table, Next(s, i, Release).threads, k)
  {
    var th := s.threads[i];
    var k0 := th.keys[th.n];
    HeldAfterUnlock(th, k);
    HolderCounts(s.threads, i, UnlockFrom(th.keys, th.rd, th.n + 1), k);
    assert KeyOk(s.table, s.threads, k) && KeyOk(s.table, s.threads, k0);
  }

  lemma OtherKey(s: State, i: nat, a: Action, k: nat)
    requires Inv(s) && Enabled(s, i, a) && (a.Begin? || a.Turn?) && Once(a)
    ensures KeyOk(Next(s, i, a).table, Next(s, i, a).threads, k)
  {
    var th := s.threads[i];
    HolderCounts(s.threads, i, Next(s, i, a).threads[i], k);
    assert KeyOk(s.table, s.threads, k);
    if a.Turn? { assert th.keys[..th.n] == th.keys && a.order[0..] == a.order; }
  }

  lemma StepInv(s: State, i: nat, a: Action)
    requires Inv(s) && Enabled(s, i, a) && Once(a)
    ensures Inv(Next(s, i, a))
  {
    forall k: nat ensures KeyOk(Next(s, i, a).table, Next(s, i, a).threads, k) {
      match a
      case Try => TryKey(s, i, k);
      case Release => ReleaseKey(s, i, k);
      case _ => OtherKey(s, i, a, k);
    }
    if a.Begin? { ToLockOk(a.ids); }
  }

  ghost predicate Run(s: State, steps: seq<(nat, Action)>, s': State)
    decreases |steps|
  {
    if steps == [] then s' == s
    else Enabled(s, steps[0].0, steps[0].1) && Run(Next(s, steps[0].0, steps[0].1), steps[1..], s')
  }

  /** The invariant holds in every state that a run reaches in which no lock is given back twice. */
  lemma {:induction false} RunInv(s: State, steps: seq<(nat, Action)>, s': State)
    requires Inv(s) && Run(s, steps, s') && forall j :: 0 <= j < |steps| ==> Once(steps[j].1)
    ensures Inv(s')
    decreases |steps|
  {
    if steps != [] {
      StepInv(s, steps[0].0, steps[0].1);
      RunInv(Next(s, steps[0].0, steps[0].1), steps[1..], s');
    }
  }

  lemma {:induction false} AllIdle(ths: seq<Thread>, k: nat)
    requires forall i :: 0 <= i < |ths| ==> ths[i].Idle?
    ensures Readers(ths, k) == Writers(ths, k) == 0
    decreases |ths|
  {
    if ths != [] { AllIdle(ths[1..], k); }
  }

  lemma InitInv(ths: seq<Thread>)
    requires forall i :: 0 <= i < |ths| ==> ths[i].Idle?
    ensures Inv(State(map[], ths))
  {
    forall k: nat ensures KeyOk(map[], ths, k) { AllIdle(ths, k); }
  }

  lemma {:induction false} CountsMember(ths: seq<Thread>, i: nat, k: nat)
    requires i < |ths|
    ensures Readers(ths, k) >= Reads(ths[i], k) && Writers(ths, k) >= Writes(ths[i], k)
    decreases |ths|
  {
    if i > 0 { CountsMember(ths[1..], i - 1, k); }
  }

  lemma {:induction false} CountsPair(ths: seq<Thread>, i: nat, j: nat, k: nat)
    requires i < j < |ths|
    ensures Readers(ths, k) >= Reads(ths[i], k) + Reads(ths[j], k) && Writers(ths, k) >= Writes(ths[i], k) + Writes(ths[j], k)
    decreases |ths|
  {
    if i == 0 { CountsMember(ths[1..], j - 1, k); } else { CountsPair(ths[1..], i - 1, j - 1, k); }
  }

  /** No key is ever held by a writer together with anybody else. */
  lemma WriterExcludes(s: State, i: nat, j: nat, k: nat)
    requires Inv(s) && i < j < |s.threads| && Held(s.threads[i], k) && Held(s.threads[j], k)
    ensures s.threads[i].rd && s.threads[j].rd
  {
    assert KeyOk(s.table, s.threads, k);
    CountsPair(s.threads, i, j, k);
  }

  /** The unlock's trap: a thread only unlocks what it holds, and that has an entry. */
  lemma UnlockIsSafe(s: State, i: nat)
    requires Inv(s) && Enabled(s, i, Release)
    ensures var k := s.threads[i].keys[s.threads[i].n]; k in s.table && s.table[k].count > 0
  {
    var th := s.threads[i];
    HeldAfterUnlock(th, th.keys[th.n]);
    CountsMember(s.threads, i, th.keys[th.n]);
    assert KeyOk(s.table, s.threads, th.keys[th.n]);
  }

  // ---------------------------------------------------------------- what a thread ends up with

  /** Thread i only tries for its locks. */
  ghost predicate OnlyTries(steps: seq<(nat, Action)>, i: nat) { forall j :: 0 <= j < |steps| && steps[j].0 == i ==> steps[j].1.Try? }

  lemma {:induction false} LockingStays(s: State, i: nat, keys: seq<nat>, rd: bool, steps: seq<(nat, Action)>, s': State)
    requires i < |s.threads| && s.threads[i].Locking? && s.threads[i].keys == keys && s.threads[i].rd == rd
    requires Run(s, steps, s') && OnlyTries(steps, i)
    ensures i < |s'.threads| && s'.threads[i].Locking? && s'.threads[i].keys == keys && s'.threads[i].rd == rd
    decreases |steps|
  {
    if steps != [] {
      assert steps[0].0 == i ==> steps[0].1.Try?;
      assert forall j :: 0 <= j < |steps[1..]| ==> steps[1..][j] == steps[j + 1];
      LockingStays(Next(s, steps[0].0, steps[0].1), i, keys, rd, steps[1..], s');
    }
  }

  /** Whoever has come through its locking holds all the keys it asked for, in the mode it asked for,
      whatever other threads did meanwhile. */
  lemma HoldsWhatItAsked(s: State, i: nat, ids: seq<nat>, rd: bool, steps: seq<(nat, Action)>, s': State)
    requires Enabled(s, i, Begin(ids, rd)) && Run(Next(s, i, Begin(ids, rd)), steps, s') && OnlyTries(steps, i)
    ensures i < |s'.threads| && s'.threads[i].Locking? && s'.threads[i].rd == rd
    ensures s'.threads[i].n == |s'.threads[i].keys| ==> forall k :: k in ids <==> Held(s'.threads[i], k)
  {
    ToLockOk(ids);
    LockingStays(Next(s, i, Begin(ids, rd)), i, ToLock(ids), rd, steps, s');
    var th := s'.threads[i];
    assert th.n == |th.keys| ==> th.keys[..th.n] == th.keys;
  }

  /** A thread that runs alone, and finds its keys free for its mode, gets them all. */
  lemma {:induction false} GetsAll(s: State, i: nat) returns (steps: seq<(nat, Action)>, s': State)
    requires i < |s.threads| && s.threads[i].Locking? && ThreadOk(s.threads[i])
    requires forall j :: s.threads[i].n <= j < |s.threads[i].keys| ==> Grants(Found(s.table, s.threads[i].keys[j]), s.threads[i].rd)
    ensures Run(s, steps, s') && |steps| == |s.threads[i].keys| - s.threads[i].n && OnlyTries(steps, i)
    ensures i < |s'.threads| && s'.threads[i] == Locking(s.threads[i].keys, s.threads[i].rd, |s.threads[i].keys|)
    decreases |s.threads[i].keys| - s.threads[i].n
  {
    steps, s' := [], s;
    var th := s.threads[i];
    if th.n < |th.keys| {
      var s1 := Next(s, i, Try);
      steps, s' := GetsAll(s1, i);
      assert ([(i, Try)] + steps)[1..] == steps;
      steps := [(i, Try)] + steps;
    }
  }

  // ---------------------------------------------------------------- a lock given back twice

  /** Soft Insert gives the target's lock back twice, since the target has joined its neighbours by
      then.  An unlock by a thread that holds nothing any more does nothing exactly if nobody holds
      the key; a single holder loses its lock, and a writer is let in beside it. */
  lemma UnlockByStranger(t: Table, k: nat, r: nat, w: nat)
    requires Exact(t, k, r, w)
    ensures Unlocked(t, k) == t <==> r + w == 0
    ensures r + w == 1 ==> !Grants(Found(t, k), false) && Grants(Found(Unlocked(t, k), k), false)
  {
    if k in t && t[k].count > 1 { assert Unlocked(t, k)[k] != t[k]; }
  }

  lemma {:induction false} RunMore(s0: State, steps: seq<(nat, Action)>, s: State, i: nat, a: Action)
    requires Run(s0, steps, s) && Enabled(s, i, a)
    ensures Run(s0, steps + [(i, a)], Next(s, i, a))
    decreases |steps|
  {
    var more := steps + [(i, a)];
    if steps == [] {
      assert more[1..] == [];
    } else {
      assert more[0] == steps[0] && more[1..] == steps[1..] + [(i, a)];
      RunMore(Next(s0, steps[0].0, steps[0].1), steps[1..], s, i, a);
    }
  }

  /** A thread begins to lock as a writer. */
  lemma Begins(s0: State, steps: seq<(nat, Action)>, s: State, i: nat, ids: seq<nat>) returns (steps': seq<(nat, Action)>, s': State)
    requires Run(s0, steps, s) && i < |s.threads| && s.threads[i].Idle?
    ensures Run(s0, steps', s') && s' == State(s.table, s.threads[i := Locking(ToLock(ids), false, 0)])
  {
    RunMore(s0, steps, s, i, Begin(ids, false));
    steps', s' := steps + [(i, Begin(ids, false))], Next(s, i, Begin(ids, false));
  }

  /** It gets a lock that nobody holds. */
  lemma Gets(s0: State, steps: seq<(nat, Action)>, s: State, i: nat, keys: seq<nat>, n: nat) returns (steps': seq<(nat, Action)>, s': State)
    requires Run(s0, steps, s) && i < |s.threads| && s.threads[i] == Locking(keys, false, n) && n < |keys| && keys[n] !in s.table
    ensures Run(s0, steps', s') && s' == State(s.table[keys[n] := Entry(0, 1, 1)], s.threads[i := Locking(keys, false, n + 1)])
  {
    RunMore(s0, steps, s, i, Try);
    steps', s' := steps + [(i, Try)], Next(s, i, Try);
  }

  /** It goes over to unlocking. */
  lemma Turns(s0: State, steps: seq<(nat, Action)>, s: State, i: nat, keys: seq<nat>, order: seq<nat>) returns (steps': seq<(nat, Action)>, s': State)
    requires Run(s0, steps, s) && i < |s.threads| && s.threads[i] == Locking(keys, false, |keys|) && SameKeys(order, keys)
    ensures Run(s0, steps', s') && s' == State(s.table, s.threads[i := UnlockFrom(order, false, 0)])
  {
    RunMore(s0, steps, s, i, Turn(order));
    steps', s' := steps + [(i, Turn(order))], Next(s, i, Turn(order));
  }

  /** The lock object goes with the only lock on the key. */
  lemma Gives(s0: State, steps: seq<(nat, Action)>, s: State, i: nat, keys: seq<nat>, n: nat) returns (steps': seq<(nat, Action)>, s': State)
    requires Run(s0, steps, s) && i < |s.threads| && s.threads[i] == Unlocking(keys, false, n) && n < |keys|
    requires keys[n] in s.table && s.table[keys[n]] == Entry(0, 1, 1)
    ensures Run(s0, steps', s') && s' == State(s.table - {keys[n]}, s.threads[i := UnlockFrom(keys, false, n + 1)])
  {
    RunMore(s0, steps, s, i, Release);
    steps', s' := steps + [(i, Release)], Next(s, i, Release);
  }

  lemma Sorted()
    ensures ToLock([1, 0]) == [0, 1] && ToLock([0]) == [0] && SameKeys([0, 1, 0], [0, 1])
  {
    assert [1, 0][..1] == [1] && [1][..0] == [] && [0][..0] == [];
    assert ToLock([1]) == [1];
  }

  const START: State := State(map[], [Idle, Idle, Idle])
  const HELD: Entry := Entry(0, 1, 1)

  /** An insert of target 0 with neighbour 1. */
  lemma Inserting() returns (steps: seq<(nat, Action)>, s: State)
    ensures Run(START, steps, s)
    ensures s.table == map[0 := HELD, 1 := HELD] && s.threads == [Locking([0, 1], false, 2), Idle, Idle]
  {
    Sorted();
    steps, s := Begins(START, [], START, 0, [1, 0]);
    steps, s := Gets(START, steps, s, 0, [0, 1], 0);
    steps, s := Gets(START, steps, s, 0, [0, 1], 1);
  }

  /** It has given the target's lock back for the first time. */
  lemma TargetReleased() returns (steps: seq<(nat, Action)>, s: State)
    ensures Run(START, steps, s)
    ensures s.table == map[1 := HELD] && s.threads == [Unlocking([0, 1, 0], false, 1), Idle, Idle]
  {
    Sorted();
    steps, s := Inserting();
    steps, s := Turns(START, steps, s, 0, [0, 1], [0, 1, 0]);
    steps, s := Gives(START, steps, s, 0, [0, 1, 0], 0);
  }

  /** A second thread locks the target. */
  lemma TargetLocked() returns (steps: seq<(nat, Action)>, s: State)
    ensures Run(START, steps, s)
    ensures s.table == map[0 := HELD, 1 := HELD] && s.threads == [Unlocking([0, 1, 0], false, 1), Locking([0], false, 1), Idle]
  {
    Sorted();
    steps, s := TargetReleased();
    steps, s := Begins(START, steps, s, 1, [0]);
    steps, s := Gets(START, steps, s, 1, [0], 0);
  }

  /** The first one gives it back again. */
  lemma ReleasedAgain() returns (steps: seq<(nat, Action)>, s: State)
    ensures Run(START, steps, s) && s.table == map[] && s.threads == [Idle, Locking([0], false, 1), Idle]
  {
    steps, s := TargetLocked();
    steps, s := Gives(START, steps, s, 0, [0, 1, 0], 1);
    steps, s := Gives(START, steps, s, 0, [0, 1, 0], 2);
  }

  /** A third thread locks it as well: two writers hold one key. */
  lemma TwoWriters() returns (steps: seq<(nat, Action)>, s: State)
    ensures Run(START, steps, s) && s.threads == [Idle, Locking([0], false, 1), Locking([0], false, 1)]
    ensures Held(s.threads[1], 0) && Held(s.threads[2], 0)
  {
    Sorted();
    steps, s := ReleasedAgain();
    steps, s := Begins(START, steps, s, 2, [0]);
    steps, s := Gets(START, steps, s, 2, [0], 0);
  }

  // ---------------------------------------------------------------- progress

  predicate Waits(th: Thread) { th.Locking? && th.n < |th.keys| }

  /** The thread has a step that gets it further. */
  ghost predicate CanAdvance(s: State, i: nat) {
    i < |s.threads| && !s.threads[i].Idle? &&
    (Waits(s.threads[i]) ==> Grants(Found(s.table, s.threads[i].keys[s.threads[i].n]), s.threads[i].rd))
  }

  ghost predicate TopWaiter(ths: seq<Thread>, i: nat) {
    i < |ths| && Waits(ths[i]) && forall j :: 0 <= j < |ths| && Waits(ths[j]) ==> ths[j].keys[ths[j].n] <= ths[i].keys[ths[i].n]
  }

  lemma {:induction false} FindTop(ths: seq<Thread>, i: nat) returns (m: nat)
    requires i < |ths| && Waits(ths[i])
    ensures TopWaiter(ths, m)
    decreases |ths|
  {
    var n := |ths| - 1;
    if j :| 0 <= j < n && Waits(ths[j]) {
      assert Waits(ths[..n][j]);
      m := FindTop(ths[..n], j);
      forall k | 0 <= k < n && Waits(ths[k]) ensures ths[k].keys[ths[k].n] <= ths[m].keys[ths[m].n] { assert ths[..n][k] == ths[k]; }
      if Waits(ths[n]) && ths[n].keys[ths[n].n] > ths[m].keys[ths[m].n] { m := n; }
    } else {
      m := i;
    }
  }

  /** A waiting thread wants a larger key than any it holds. */
  lemma WantsMore(th: Thread, k: nat)
    requires ThreadOk(th) && Waits(th) && Held(th, k)
    ensures k < th.keys[th.n]
  {
    var i :| 0 <= i < th.n && th.keys[..th.n][i] == k;
    assert th.keys[i] < th.keys[th.n];
  }

  /** A holder of the key that the top waiter wants does not wait itself. */
  lemma HolderIsAhead(s: State, m: nat, h: nat)
    requires Inv(s) && TopWaiter(s.threads, m) && h < |s.threads| && Held(s.threads[h], s.threads[m].keys[s.threads[m].n])
    ensures !Waits(s.threads[h]) && !s.threads[h].Idle?
  {
    var th, k := s.threads[h], s.threads[m].keys[s.threads[m].n];
    if Waits(th) {
      WantsMore(th, k);
      assert false;
    }
  }

  /** While some thread is not finished, some thread can advance. */
  lemma NoDeadlock(s: State, i: nat) returns (j: nat)
    requires Inv(s) && i < |s.threads| && !s.threads[i].Idle?
    ensures CanAdvance(s, j)
  {
    j := i;
    if Waits(s.threads[i]) {
      j := FindTop(s.threads, i);
      var k := s.threads[j].keys[s.threads[j].n];
      assert KeyOk(s.table, s.threads, k);
      if !Grants(Found(s.table, k), s.threads[j].rd) {
        var h := SomeHolder(s.threads, k);
        HolderIsAhead(s, j, h);
        j := h;
      }
    }
  }
}
