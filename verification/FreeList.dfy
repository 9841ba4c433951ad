/**
  The lock-free free list of blocks (include/mpmc.h, `FreeList`).

  Every atomic load, store, fetch-add and compare-exchange of `add`, `try_get` and
  `add_knowing_refcount_is_zero` is one step of one thread, executed in sequentially
  consistent order; a run is any interleaving of such steps.  The reference word of a
  node is split into its 31-bit count and its should-be-on-free-list bit.

  Two fields of the state are bookkeeping: `owned` is the set of nodes that clients hold,
  and `list` is the sequence of nodes that were linked in and not yet unlinked.
 */
module FreeList {
  import opened Basics

  datatype Ptr = Null | To(node: nat)

  /** The atomic word `freeListRefs`. */
  datatype Word = Word(count: nat, should: bool)

  /** What a thread does after `add_knowing_refcount_is_zero` returns. */
  datatype Cont = Return | Retry(cur: Ptr)

  /** The next atomic instruction of a thread, with the local variables it needs. */
  datatype Pc =
    | Idle
    | GetHead                                   // try_get: load freeListHead
    | GetRefs(h: nat)                           // load the reference word of h
    | Pin(h: nat, seen: Word)                   // compare-exchange seen -> seen + 1
    | GetNext(h: nat)                           // load h's successor
    | Swing(h: nat, nx: Ptr)                    // compare-exchange head: h -> nx
    | Take(h: nat)                              // got it: drop our reference and the list's
    | Unpin(h: nat, cur: Ptr)                   // lost the race: drop our reference
    | PutHead(h: nat, k: Cont)                  // add_knowing_...: load freeListHead
    | PutNext(h: nat, want: Ptr, k: Cont)        // store h's successor
    | PutRefs(h: nat, want: Ptr, k: Cont)        // store the reference word 1
    | PutSwing(h: nat, want: Ptr, k: Cont)       // compare-exchange head: want -> h
    | PutBack(h: nat, cur: Ptr, k: Cont)        // failed: fetch_add(SHOULD - 1)

  datatype State = State(head: Ptr, refs: seq<Word>, next: seq<Ptr>, threads: seq<Pc>,
                         owned: set<nat>, list: seq<nat>)

  /** `Run(t)` executes the pending instruction of thread t; the calls start an operation. */
  datatype Action = Run(t: nat) | CallTryGet(t: nat) | CallAdd(t: nat, n: nat)

  /** The head of the loop `while (head != nullptr)` in try_get. */
  function Again(p: Ptr): Pc {
    match p case Null => Idle case To(h) => GetRefs(h)
  }

  function Resume(k: Cont): Pc {
    match k case Return => Idle case Retry(p) => Again(p)
  }

  predicate PtrOk(p: Ptr, n: nat) { p.To? ==> p.node < n }

  predicate ContOk(k: Cont, n: nat) { k.Retry? ==> PtrOk(k.cur, n) }

  predicate PcOk(pc: Pc, n: nat) {
    match pc
    case Idle | GetHead => true
    case GetRefs(h) => h < n
    case Pin(h, _) => h < n
    case GetNext(h) => h < n
    case Swing(h, nx) => h < n && PtrOk(nx, n)
    case Take(h) => h < n
    case Unpin(h, cur) => h < n && PtrOk(cur, n)
    case PutHead(h, k) => h < n && ContOk(k, n)
    case PutNext(h, want, k) => h < n && PtrOk(want, n) && ContOk(k, n)
    case PutRefs(h, want, k) => h < n && PtrOk(want, n) && ContOk(k, n)
    case PutSwing(h, want, k) => h < n && PtrOk(want, n) && ContOk(k, n)
    case PutBack(h, cur, k) => h < n && PtrOk(cur, n) && ContOk(k, n)
  }

  predicate Shape(s: State) {
    var n := |s.refs|;
    && |s.next| == n
    && PtrOk(s.head, n)
    && (forall i :: 0 <= i < n ==> PtrOk(s.next[i], n))
    && (forall t :: 0 <= t < |s.threads| ==> PcOk(s.threads[t], n))
    && (forall x :: x in s.owned ==> x < n)
    && (forall i :: 0 <= i < |s.list| ==> s.list[i] < n)
  }

  function Goto(s: State, t: nat, pc: Pc): State
    requires t < |s.threads|
  {
    s.(threads := s.threads[t := pc])
  }

  function SetRefs(s: State, h: nat, w: Word): State
    requires h < |s.refs|
  {
    s.(refs := s.refs[h := w])
  }

  function Dec(c: nat, d: nat): nat { if c < d then 0 else c - d }

  /** One atomic instruction of try_get. */
  function RunGet(s: State, t: nat): State
    requires Shape(s) && t < |s.threads|
  {
    match s.threads[t]
    case GetHead => Goto(s, t, Again(s.head))
    case GetRefs(h) =>
      if s.refs[h].count == 0 then Goto(s, t, GetHead) else Goto(s, t, Pin(h, s.refs[h]))
    case Pin(h, seen) =>
      if s.refs[h] == seen
      then Goto(SetRefs(s, h, seen.(count := seen.count + 1)), t, GetNext(h))
      else Goto(s, t, GetHead)
    case GetNext(h) => Goto(s, t, Swing(h, s.next[h]))
    case Swing(h, nx) =>
      if s.head == To(h)
      then Goto(s, t, Take(h)).(head := nx, list := if |s.list| > 0 then s.list[1..] else [])
      else Goto(s, t, Unpin(h, s.head))
    case Take(h) =>
      Goto(SetRefs(s, h, s.refs[h].(count := Dec(s.refs[h].count, 2))), t, Idle).(owned := s.owned + {h})
    case Unpin(h, cur) =>
      var was := s.refs[h];
      var s' := SetRefs(s, h, was.(count := Dec(was.count, 1)));
      if was == Word(1, true) then Goto(s', t, PutHead(h, Retry(cur))) else Goto(s', t, Again(cur))
    case _ => s
  }

  /** One atomic instruction of add_knowing_refcount_is_zero. */
  function RunPut(s: State, t: nat): State
    requires Shape(s) && t < |s.threads|
  {
    match s.threads[t]
    case PutHead(h, k) => Goto(s, t, PutNext(h, s.head, k))
    case PutNext(h, want, k) => Goto(s, t, PutRefs(h, want, k)).(next := s.next[h := want])
    case PutRefs(h, want, k) => Goto(SetRefs(s, h, Word(1, false)), t, PutSwing(h, want, k))
    case PutSwing(h, want, k) =>
      if s.head == want
      then Goto(s, t, Resume(k)).(head := To(h), list := [h] + s.list)
      else Goto(s, t, PutBack(h, s.head, k))
    case PutBack(h, cur, k) =>
      var was := s.refs[h];
      var s' := SetRefs(s, h, Word(Dec(was.count, 1), true));
      if was == Word(1, false) then Goto(s', t, PutNext(h, cur, k)) else Goto(s', t, Resume(k))
    case _ => s
  }

  function Step(s: State, a: Action): State
    requires Shape(s)
  {
    match a
    case Run(t) =>
      if t >= |s.threads| || s.threads[t].Idle? then s
      else if IsGet(s.threads[t]) then RunGet(s, t) else RunPut(s, t)
    case CallTryGet(t) =>
      if t < |s.threads| && s.threads[t].Idle? then Goto(s, t, GetHead) else s
    case CallAdd(t, n) =>
      // A client may only give back a node that it holds.
      if t < |s.threads| && s.threads[t].Idle? && n in s.owned then
        var s' := SetRefs(s, n, s.refs[n].(should := true)).(owned := s.owned - {n});
        if s.refs[n] == Word(0, false) then Goto(s', t, PutHead(n, Return)) else s'
      else s
  }

  predicate IsGet(pc: Pc) {
    pc.GetHead? || pc.GetRefs? || pc.Pin? || pc.GetNext? || pc.Swing? || pc.Take? || pc.Unpin?
  }

  // ---------------------------------------------------------------- the invariant

  /** `Pins` counts references a thread holds; `Pre` and `Post` mark the thread that is
      linking a node in, before and after it has published the word 1, or unlinking it. */
  datatype Kind = Pins | Pre | Post

  function Weight(kind: Kind, pc: Pc, n: nat): nat {
    match kind
    case Pins =>
      if (pc.GetNext? || pc.Swing? || pc.Unpin? || pc.PutSwing? || pc.PutBack?) && pc.h == n then 1
      else if pc.Take? && pc.h == n then 2 else 0
    case Pre => if (pc.PutHead? || pc.PutNext? || pc.PutRefs?) && pc.h == n then 1 else 0
    case Post => if (pc.PutSwing? || pc.PutBack? || pc.Take?) && pc.h == n then 1 else 0
  }

  function Sum(kind: Kind, ths: seq<Pc>, n: nat): nat {
    if ths == [] then 0 else Weight(kind, ths[0], n) + Sum(kind, ths[1..], n)
  }

  function Bit(b: bool): nat { if b then 1 else 0 }

  /** A node is in exactly one place, and its word says how many references there are. */
  predicate NodeInv(s: State, n: nat)
    requires n < |s.refs|
  {
    var w := s.refs[n];
    var pre := Sum(Pre, s.threads, n);
    && Bit(w.should) + Sum(Post, s.threads, n) + Bit(n in s.owned) + Bit(n in s.list) == 1
    && w.count == Sum(Pins, s.threads, n) + Bit(n in s.list)
    && pre <= Bit(w.should)
    && (w.should ==> (pre == 1 <==> w.count == 0))
  }

  function At(list: seq<nat>, i: nat): Ptr { if i < |list| then To(list[i]) else Null }

  /** Following the successor pointers from the head visits exactly `list`. */
  predicate Chain(s: State)
    requires Shape(s)
  {
    && Distinct(s.list)
    && s.head == At(s.list, 0)
    && forall i :: 0 <= i < |s.list| ==> s.next[s.list[i]] == At(s.list, i + 1)
  }

  /** Local copies of a successor that are still current. */
  predicate PcInv(s: State, pc: Pc)
    requires Shape(s) && PcOk(pc, |s.refs|)
  {
    match pc
    case Pin(_, seen) => seen.count > 0
    case Swing(h, nx) => s.next[h] == nx
    case PutRefs(h, want, _) => s.next[h] == want
    case PutSwing(h, want, _) => s.next[h] == want
    case _ => true
  }

  predicate Inv(s: State) {
    && Shape(s)
    && Chain(s)
    && (forall n :: 0 <= n < |s.refs| ==> NodeInv(s, n))
    && (forall t :: 0 <= t < |s.threads| ==> PcInv(s, s.threads[t]))
  }

  /** A fresh list: no node is linked, clients hold all of them, nobody is running. */
  predicate Init(s: State) {
    && Shape(s)
    && s.head == Null && s.list == []
    && (forall n :: 0 <= n < |s.refs| ==> s.refs[n] == Word(0, false) && n in s.owned)
    && (forall t :: 0 <= t < |s.threads| ==> s.threads[t] == Idle)
  }

  lemma {:induction false} SumUpdate(kind: Kind, ths: seq<Pc>, t: nat, pc: Pc, n: nat)
    requires t < |ths|
    ensures Sum(kind, ths[t := pc], n) + Weight(kind, ths[t], n) == Sum(kind, ths, n) + Weight(kind, pc, n)
  {
    if t == 0 {
      assert ths[t := pc][1..] == ths[1..];
    } else {
      assert ths[t := pc][1..] == ths[1..][t - 1 := pc];
      SumUpdate(kind, ths[1..], t - 1, pc, n);
    }
  }

  lemma {:induction false} SumAtLeast(kind: Kind, ths: seq<Pc>, t: nat, n: nat)
    requires t < |ths|
    ensures Weight(kind, ths[t], n) <= Sum(kind, ths, n)
  {
    if t > 0 { SumAtLeast(kind, ths[1..], t - 1, n); }
  }

  lemma {:induction false} SumAtLeastTwo(kind: Kind, ths: seq<Pc>, t: nat, u: nat, n: nat)
    requires t < u < |ths|
    ensures Weight(kind, ths[t], n) + Weight(kind, ths[u], n) <= Sum(kind, ths, n)
  {
    if t == 0 {
      SumAtLeast(kind, ths[1..], u - 1, n);
    } else {
      SumAtLeastTwo(kind, ths[1..], t - 1, u - 1, n);
    }
  }

  lemma {:induction false} SumIdle(kind: Kind, ths: seq<Pc>, n: nat)
    requires forall t :: 0 <= t < |ths| ==> ths[t] == Idle
    ensures Sum(kind, ths, n) == 0
  {
    if ths != [] { SumIdle(kind, ths[1..], n); }
  }

  // ---------------------------------------------------------------- preservation

  /** Both facts above, for the three weights at once. */
  lemma Sums(ths: seq<Pc>, t: nat, pc: Pc, n: nat)
    requires t < |ths|
    ensures Sum(Pins, ths[t := pc], n) + Weight(Pins, ths[t], n) == Sum(Pins, ths, n) + Weight(Pins, pc, n)
    ensures Sum(Pre, ths[t := pc], n) + Weight(Pre, ths[t], n) == Sum(Pre, ths, n) + Weight(Pre, pc, n)
    ensures Sum(Post, ths[t := pc], n) + Weight(Post, ths[t], n) == Sum(Post, ths, n) + Weight(Post, pc, n)
  {
    SumUpdate(Pins, ths, t, pc, n);
    SumUpdate(Pre, ths, t, pc, n);
    SumUpdate(Post, ths, t, pc, n);
  }

  /** A step that leaves the links alone keeps everything but the accounting of nodes. */
  lemma LinksKept(s: State, s': State, t: nat)
    requires Inv(s) && t < |s.threads|
    requires |s'.threads| == |s.threads| && s'.threads == s.threads[t := s'.threads[t]] && |s'.refs| == |s.refs|
    requires s'.next == s.next && s'.head == s.head && s'.list == s.list
    requires forall x :: x in s'.owned ==> x < |s.refs|
    requires PcOk(s'.threads[t], |s.refs|) && PcInv(s, s'.threads[t])
    requires forall n :: 0 <= n < |s'.refs| ==> NodeInv(s', n)
    ensures Inv(s')
  {
    assert Shape(s');
    forall u | 0 <= u < |s'.threads| ensures PcInv(s', s'.threads[u]) {
      assert PcInv(s, if u == t then s'.threads[t] else s.threads[u]);
    }
  }

  /** Moving a thread between instructions that carry the same weights changes nothing else. */
  lemma GotoInv(s: State, t: nat, pc: Pc)
    requires Inv(s) && t < |s.threads| && PcOk(pc, |s.refs|) && PcInv(s, pc)
    requires forall kind, n: nat :: Weight(kind, s.threads[t], n) == Weight(kind, pc, n)
    ensures Inv(Goto(s, t, pc))
  {
    forall n | 0 <= n < |s.refs| ensures NodeInv(Goto(s, t, pc), n) {
      assert NodeInv(s, n);
      Sums(s.threads, t, pc, n);
    }
    LinksKept(s, Goto(s, t, pc), t);
  }

  lemma NoWeight(k: Cont, n: nat)
    ensures Weight(Pins, Resume(k), n) == Weight(Pre, Resume(k), n) == Weight(Post, Resume(k), n) == 0
  {
  }

  lemma PinNode(s: State, t: nat, n: nat)
    requires Shape(s) && t < |s.threads| && s.threads[t].Pin? && n < |s.refs|
    requires s.refs[s.threads[t].h] == s.threads[t].seen && s.threads[t].seen.count > 0
    requires NodeInv(s, n)
    ensures NodeInv(RunGet(s, t), n)
  {
    Sums(s.threads, t, GetNext(s.threads[t].h), n);
  }

  lemma TakeNode(s: State, t: nat, n: nat)
    requires Shape(s) && t < |s.threads| && s.threads[t].Take? && n < |s.refs|
    requires NodeInv(s, n)
    ensures NodeInv(RunGet(s, t), n)
  {
    Sums(s.threads, t, Idle, n);
    SumAtLeast(Pins, s.threads, t, n);
    SumAtLeast(Post, s.threads, t, n);
  }

  lemma UnpinNode(s: State, t: nat, n: nat)
    requires Shape(s) && t < |s.threads| && s.threads[t].Unpin? && n < |s.refs|
    requires NodeInv(s, n)
    ensures NodeInv(RunGet(s, t), n)
  {
    var Unpin(h, cur) := s.threads[t];
    SumAtLeast(Pins, s.threads, t, n);
    if s.refs[h] == Word(1, true) {
      Sums(s.threads, t, PutHead(h, Retry(cur)), n);
    } else {
      NoWeight(Retry(cur), n);
      Sums(s.threads, t, Again(cur), n);
    }
  }

  lemma PutRefsNode(s: State, t: nat, n: nat)
    requires Shape(s) && t < |s.threads| && s.threads[t].PutRefs? && n < |s.refs|
    requires NodeInv(s, n)
    ensures NodeInv(RunPut(s, t), n)
  {
    var PutRefs(h, want, k) := s.threads[t];
    Sums(s.threads, t, PutSwing(h, want, k), n);
    SumAtLeast(Pre, s.threads, t, n);
  }

  lemma PutBackNode(s: State, t: nat, n: nat)
    requires Shape(s) && t < |s.threads| && s.threads[t].PutBack? && n < |s.refs|
    requires NodeInv(s, n)
    ensures NodeInv(RunPut(s, t), n)
  {
    var PutBack(h, cur, k) := s.threads[t];
    SumAtLeast(Pins, s.threads, t, n);
    SumAtLeast(Post, s.threads, t, n);
    if s.refs[h] == Word(1, false) {
      Sums(s.threads, t, PutNext(h, cur, k), n);
    } else {
      NoWeight(k, n);
      Sums(s.threads, t, Resume(k), n);
    }
  }

  lemma PinInv(s: State, t: nat)
    requires Inv(s) && t < |s.threads| && s.threads[t].Pin? && s.refs[s.threads[t].h] == s.threads[t].seen
    ensures Inv(RunGet(s, t))
  {
    var s' := RunGet(s, t);
    assert PcInv(s, s.threads[t]);
    forall n | 0 <= n < |s'.refs| ensures NodeInv(s', n) {
      assert NodeInv(s, n);
      PinNode(s, t, n);
    }
    LinksKept(s, s', t);
  }

  lemma TakeInv(s: State, t: nat)
    requires Inv(s) && t < |s.threads| && s.threads[t].Take?
    ensures Inv(RunGet(s, t))
  {
    var s' := RunGet(s, t);
    assert PcInv(s, s.threads[t]);
    forall n | 0 <= n < |s'.refs| ensures NodeInv(s', n) {
      assert NodeInv(s, n);
      TakeNode(s, t, n);
    }
    LinksKept(s, s', t);
  }

  lemma UnpinInv(s: State, t: nat)
    requires Inv(s) && t < |s.threads| && s.threads[t].Unpin?
    ensures Inv(RunGet(s, t))
  {
    var s' := RunGet(s, t);
    assert PcInv(s, s.threads[t]);
    forall n | 0 <= n < |s'.refs| ensures NodeInv(s', n) {
      assert NodeInv(s, n);
      UnpinNode(s, t, n);
    }
    LinksKept(s, s', t);
  }

  lemma PutRefsInv(s: State, t: nat)
    requires Inv(s) && t < |s.threads| && s.threads[t].PutRefs?
    ensures Inv(RunPut(s, t))
  {
    var s' := RunPut(s, t);
    assert PcInv(s, s.threads[t]);
    forall n | 0 <= n < |s'.refs| ensures NodeInv(s', n) {
      assert NodeInv(s, n);
      PutRefsNode(s, t, n);
    }
    LinksKept(s, s', t);
  }

  lemma PutBackInv(s: State, t: nat)
    requires Inv(s) && t < |s.threads| && s.threads[t].PutBack?
    ensures Inv(RunPut(s, t))
  {
    var s' := RunPut(s, t);
    assert PcInv(s, s.threads[t]);
    forall n | 0 <= n < |s'.refs| ensures NodeInv(s', n) {
      assert NodeInv(s, n);
      PutBackNode(s, t, n);
    }
    LinksKept(s, s', t);
  }

  /** Unlinking the first node leaves the chain of the others. */
  lemma UnlinkChain(s: State, t: nat)
    requires Inv(s) && t < |s.threads| && s.threads[t].Swing? && s.head == To(s.threads[t].h)
    ensures s.list != [] && s.list[0] == s.threads[t].h
    ensures Shape(RunGet(s, t)) && Chain(RunGet(s, t))
  {
    assert PcInv(s, s.threads[t]);
  }

  lemma UnlinkNode(s: State, t: nat, n: nat)
    requires Inv(s) && t < |s.threads| && s.threads[t].Swing? && s.head == To(s.threads[t].h) && n < |s.refs|
    ensures NodeInv(RunGet(s, t), n)
  {
    UnlinkChain(s, t);
    var h := s.threads[t].h;
    assert NodeInv(s, n);
    assert s.list == [h] + s.list[1..];
    assert n in s.list <==> n == h || n in s.list[1..];
    Sums(s.threads, t, Take(h), n);
  }

  lemma SwingInv(s: State, t: nat)
    requires Inv(s) && t < |s.threads| && s.threads[t].Swing?
    ensures Inv(RunGet(s, t))
  {
    var h, s' := s.threads[t].h, RunGet(s, t);
    if s.head != To(h) {
      GotoInv(s, t, Unpin(h, s.head));
    } else {
      UnlinkChain(s, t);
      forall n | 0 <= n < |s.refs| ensures NodeInv(s', n) { UnlinkNode(s, t, n); }
      forall u | 0 <= u < |s.threads| ensures PcInv(s', s'.threads[u]) {
        assert PcInv(s, s.threads[u]);
      }
    }
  }

  /** Nobody holds a reference to a node while its successor is rewritten. */
  lemma PutNextPcs(s: State, t: nat, u: nat)
    requires Inv(s) && t < |s.threads| && s.threads[t].PutNext? && u < |s.threads| && u != t
    ensures var h := s.threads[t].h;
      h !in s.list && (s.threads[u].Swing? || s.threads[u].PutRefs? || s.threads[u].PutSwing? ==> s.threads[u].h != h)
  {
    var h := s.threads[t].h;
    assert NodeInv(s, h);
    SumAtLeast(Pre, s.threads, t, h);
    SumAtLeast(Pins, s.threads, u, h);
    if u < t { SumAtLeastTwo(Pre, s.threads, u, t, h); } else { SumAtLeastTwo(Pre, s.threads, t, u, h); }
  }

  lemma PutNextNode(s: State, t: nat, n: nat)
    requires Shape(s) && t < |s.threads| && s.threads[t].PutNext? && n < |s.refs| && NodeInv(s, n)
    ensures NodeInv(RunPut(s, t), n)
  {
    var PutNext(h, want, k) := s.threads[t];
    Sums(s.threads, t, PutRefs(h, want, k), n);
  }

  lemma PutNextShape(s: State, t: nat)
    requires Inv(s) && t < |s.threads| && s.threads[t].PutNext?
    ensures Shape(RunPut(s, t)) && Chain(RunPut(s, t))
  {
    var h := s.threads[t].h;
    assert NodeInv(s, h);
    SumAtLeast(Pre, s.threads, t, h);
  }

  lemma PutNextPc(s: State, t: nat, u: nat)
    requires Inv(s) && t < |s.threads| && s.threads[t].PutNext? && u < |s.threads| && Shape(RunPut(s, t))
    ensures PcInv(RunPut(s, t), RunPut(s, t).threads[u])
  {
    assert PcInv(s, s.threads[u]);
    if u != t { PutNextPcs(s, t, u); }
  }

  lemma PutNextInv(s: State, t: nat)
    requires Inv(s) && t < |s.threads| && s.threads[t].PutNext?
    ensures Inv(RunPut(s, t))
  {
    var s' := RunPut(s, t);
    PutNextShape(s, t);
    forall u | 0 <= u < |s.threads| ensures PcInv(s', s'.threads[u]) { PutNextPc(s, t, u); }
    forall n | 0 <= n < |s.refs| ensures NodeInv(s', n) { PutNextNode(s, t, n); }
  }

  lemma LinkNode(s: State, t: nat, n: nat)
    requires Shape(s) && t < |s.threads| && s.threads[t].PutSwing? && s.head == s.threads[t].want && n < |s.refs|
    requires NodeInv(s, n)
    ensures NodeInv(RunPut(s, t), n)
  {
    var PutSwing(h, want, k) := s.threads[t];
    assert n in [h] + s.list <==> n == h || n in s.list;
    SumAtLeast(Post, s.threads, t, n);
    NoWeight(k, n);
    Sums(s.threads, t, Resume(k), n);
  }

  lemma LinkChain(s: State, t: nat)
    requires Inv(s) && t < |s.threads| && s.threads[t].PutSwing? && s.head == s.threads[t].want
    ensures Shape(RunPut(s, t)) && Chain(RunPut(s, t))
  {
    var PutSwing(h, want, k) := s.threads[t];
    var s' := RunPut(s, t);
    assert PcInv(s, s.threads[t]) && NodeInv(s, h);
    SumAtLeast(Post, s.threads, t, h);
    assert h !in s.list;
    forall i | 0 <= i < |s'.list| ensures s'.next[s'.list[i]] == At(s'.list, i + 1) {
      if i > 0 { assert s'.list[i] == s.list[i - 1] && At(s'.list, i + 1) == At(s.list, i); }
    }
  }

  lemma PutSwingInv(s: State, t: nat)
    requires Inv(s) && t < |s.threads| && s.threads[t].PutSwing?
    ensures Inv(RunPut(s, t))
  {
    var PutSwing(h, want, k) := s.threads[t];
    var s' := RunPut(s, t);
    if s.head != want {
      GotoInv(s, t, PutBack(h, s.head, k));
    } else {
      LinkChain(s, t);
      forall n | 0 <= n < |s.refs| ensures NodeInv(s', n) { LinkNode(s, t, n); }
      forall u | 0 <= u < |s.threads| ensures PcInv(s', s'.threads[u]) {
        assert PcInv(s, s.threads[u]);
      }
    }
  }

  lemma CallAddNode(s: State, t: nat, n: nat, m: nat)
    requires Shape(s) && t < |s.threads| && s.threads[t].Idle? && n in s.owned && m < |s.refs|
    requires NodeInv(s, m)
    ensures NodeInv(Step(s, CallAdd(t, n)), m)
  {
    Sums(s.threads, t, PutHead(n, Return), m);
  }

  lemma CallAddInv(s: State, t: nat, n: nat)
    requires Inv(s) && t < |s.threads| && s.threads[t].Idle? && n in s.owned
    ensures Inv(Step(s, CallAdd(t, n)))
  {
    var s' := Step(s, CallAdd(t, n));
    forall m | 0 <= m < |s.refs| ensures NodeInv(s', m) { CallAddNode(s, t, n, m); }
    LinksKept(s, s', t);
  }

  /** The instructions of try_get. */
  lemma GetInv(s: State, t: nat)
    requires Inv(s) && t < |s.threads|
    requires var p := s.threads[t]; p.GetHead? || p.GetRefs? || p.Pin? || p.GetNext? || p.Swing? || p.Take? || p.Unpin?
    ensures Inv(Step(s, Run(t)))
  {
    assert PcInv(s, s.threads[t]);
    match s.threads[t]
    case GetHead => GotoInv(s, t, Again(s.head));
    case GetRefs(h) => GotoInv(s, t, if s.refs[h].count == 0 then GetHead else Pin(h, s.refs[h]));
    case Pin(h, seen) => if s.refs[h] == seen { PinInv(s, t); } else { GotoInv(s, t, GetHead); }
    case GetNext(h) => GotoInv(s, t, Swing(h, s.next[h]));
    case Swing(_, _) => SwingInv(s, t);
    case Take(_) => TakeInv(s, t);
    case Unpin(_, _) => UnpinInv(s, t);
  }

  /** The instructions of add_knowing_refcount_is_zero. */
  lemma PutInv(s: State, t: nat)
    requires Inv(s) && t < |s.threads|
    requires var p := s.threads[t]; p.PutHead? || p.PutNext? || p.PutRefs? || p.PutSwing? || p.PutBack?
    ensures Inv(Step(s, Run(t)))
  {
    assert PcInv(s, s.threads[t]);
    match s.threads[t]
    case PutHead(h, k) => GotoInv(s, t, PutNext(h, s.head, k));
    case PutNext(_, _, _) => PutNextInv(s, t);
    case PutRefs(_, _, _) => PutRefsInv(s, t);
    case PutSwing(_, _, _) => PutSwingInv(s, t);
    case PutBack(_, _, _) => PutBackInv(s, t);
  }

  lemma StepInv(s: State, a: Action)
    requires Inv(s)
    ensures Inv(Step(s, a))
  {
    match a
    case Run(t) =>
      if t < |s.threads| && !s.threads[t].Idle? {
        var p := s.threads[t];
        if p.PutHead? || p.PutNext? || p.PutRefs? || p.PutSwing? || p.PutBack? { PutInv(s, t); } else { GetInv(s, t); }
      }
    case CallTryGet(t) =>
      if t < |s.threads| && s.threads[t].Idle? { GotoInv(s, t, GetHead); }
    case CallAdd(t, n) =>
      if t < |s.threads| && s.threads[t].Idle? && n in s.owned { CallAddInv(s, t, n); }
  }

  lemma InitInv(s: State)
    requires Init(s)
    ensures Inv(s)
  {
    forall n | 0 <= n < |s.refs| ensures NodeInv(s, n) {
      SumIdle(Pins, s.threads, n);
      SumIdle(Pre, s.threads, n);
      SumIdle(Post, s.threads, n);
    }
  }

  // ---------------------------------------------------------------- whole runs

  /** The state after executing the actions of a run in order. */
  function Exec(s: State, run: seq<Action>): (r: State)
    requires Inv(s)
    ensures Inv(r)
    decreases |run|
  {
    if run == [] then s else StepInv(s, run[0]); Exec(Step(s, run[0]), run[1..])
  }

  /** In every reachable state the list reached from the head has no repeated node, and no
      node is both linked and held by a client. */
  lemma NoNodeTwice(s: State, run: seq<Action>)
    requires Init(s)
    ensures Inv(s)
    ensures var r := Exec(s, run);
      Chain(r) && forall n: nat :: n in r.list ==> n < |r.refs| && n !in r.owned
  {
    InitInv(s);
    var r := Exec(s, run);
    forall n: nat | n in r.list ensures n < |r.refs| && n !in r.owned {
      assert NodeInv(r, n);
    }
  }

  /** ABA safety: whenever the compare-exchange of try_get succeeds, in any run, it installs
      the current successor of the removed node, and the removed node was the first one. */
  lemma SwingInstallsSuccessor(s: State, run: seq<Action>, t: nat)
    requires Init(s)
    ensures Inv(s)
    ensures var r := Exec(s, run);
      t < |r.threads| && r.threads[t].Swing? && r.head == To(r.threads[t].h) ==>
        && r.threads[t].nx == r.next[r.threads[t].h]
        && r.list != [] && r.list[0] == r.threads[t].h
        && Step(r, Run(t)).head == r.next[r.threads[t].h]
        && Step(r, Run(t)).list == r.list[1..]
  {
    InitInv(s);
    var r := Exec(s, run);
    if t < |r.threads| && r.threads[t].Swing? && r.head == To(r.threads[t].h) {
      assert PcInv(r, r.threads[t]);
    }
  }

  /** The node that try_get returns is held by no client, is not linked, is being returned by
      no other thread, and its should-be-on-free-list bit is clear as the code asserts. */
  lemma TakeIsExclusive(s: State, run: seq<Action>, t: nat)
    requires Init(s)
    ensures Inv(s)
    ensures var r := Exec(s, run);
      t < |r.threads| && r.threads[t].Take? ==>
        var n := r.threads[t].h;
        && n !in r.owned && n !in r.list
        && !r.refs[n].should && r.refs[n].count >= 2
        && (forall u :: 0 <= u < |r.threads| && u != t && r.threads[u].Take? ==> r.threads[u].h != n)
        && Step(r, Run(t)).owned == r.owned + {n}
  {
    InitInv(s);
    var r := Exec(s, run);
    if t < |r.threads| && r.threads[t].Take? {
      var n := r.threads[t].h;
      assert NodeInv(r, n);
      SumAtLeast(Post, r.threads, t, n);
      SumAtLeast(Pins, r.threads, t, n);
      forall u | 0 <= u < |r.threads| && u != t && r.threads[u].Take? ensures r.threads[u].h != n {
        if u < t { SumAtLeastTwo(Post, r.threads, u, t, n); } else { SumAtLeastTwo(Post, r.threads, t, u, n); }
      }
    }
  }

  /** No node is lost: whenever no operation is in flight, every node is either held by a
      client or reachable from the head, never both, and only linked nodes are referenced. */
  lemma QuiescentNothingLost(s: State, run: seq<Action>)
    requires Init(s)
    ensures Inv(s)
    ensures var r := Exec(s, run);
      (forall t :: 0 <= t < |r.threads| ==> r.threads[t].Idle?) ==>
        forall n: nat :: n < |r.refs| ==>
          && (n in r.owned <==> n !in r.list)
          && r.refs[n] == Word(Bit(n in r.list), false)
  {
    InitInv(s);
    var r := Exec(s, run);
    if forall t :: 0 <= t < |r.threads| ==> r.threads[t].Idle? {
      forall n: nat | n < |r.refs|
        ensures (n in r.owned <==> n !in r.list) && r.refs[n] == Word(Bit(n in r.list), false)
      {
        assert NodeInv(r, n);
        SumIdle(Pins, r.threads, n);
        SumIdle(Pre, r.threads, n);
        SumIdle(Post, r.threads, n);
      }
    }
  }

  // ---------------------------------------------------------------- an operation that runs alone

  ghost predicate OnlyRuns(run: seq<Action>, t: nat) { forall i :: 0 <= i < |run| ==> run[i] == Run(t) }

  /** Where a try_get is that found the given list and runs alone. */
  predicate Getting(s: State, t: nat, list: seq<nat>, owned: set<nat>) {
    && Inv(s) && t < |s.threads| && list != []
    && match s.threads[t]
       case GetHead => s.list == list && s.owned == owned
       case GetRefs(h) => h == list[0] && s.list == list && s.owned == owned
       case Pin(h, seen) => h == list[0] && s.list == list && s.owned == owned && seen == s.refs[h]
       case GetNext(h) => h == list[0] && s.list == list && s.owned == owned
       case Swing(h, _) => h == list[0] && s.list == list && s.owned == owned
       case Take(h) => h == list[0] && s.list == list[1..] && s.owned == owned
       case Idle => s.list == list[1..] && s.owned == owned + {list[0]}
       case _ => false
  }

  function GetRank(pc: Pc): nat {
    match pc
    case GetHead => 6
    case GetRefs(_) => 5
    case Pin(_, _) => 4
    case GetNext(_) => 3
    case Swing(_, _) => 2
    case Take(_) => 1
    case _ => 0
  }

  lemma GettingOn(s: State, t: nat, list: seq<nat>, owned: set<nat>)
    requires Getting(s, t, list, owned)
    ensures Getting(Step(s, Run(t)), t, list, owned)
    ensures GetRank(Step(s, Run(t)).threads[t]) == if s.threads[t].Idle? then 0 else GetRank(s.threads[t]) - 1
  {
    StepInv(s, Run(t));
    if s.threads[t].GetRefs? { assert NodeInv(s, list[0]) && s.list[0] in s.list; }
  }

  lemma {:induction false} GetEnds(s: State, t: nat, list: seq<nat>, owned: set<nat>, run: seq<Action>)
    requires Getting(s, t, list, owned) && OnlyRuns(run, t) && |run| >= GetRank(s.threads[t])
    ensures Getting(Exec(s, run), t, list, owned) && Exec(s, run).threads[t].Idle?
    decreases |run|
  {
    if run != [] {
      GettingOn(s, t, list, owned);
      assert forall i :: 0 <= i < |run[1..]| ==> run[1..][i] == run[i + 1];
      GetEnds(Step(s, run[0]), t, list, owned, run[1..]);
    }
  }

  lemma {:induction false} StaysIdle(s: State, t: nat, run: seq<Action>)
    requires Inv(s) && t < |s.threads| && s.threads[t].Idle? && OnlyRuns(run, t)
    ensures Exec(s, run) == s
    decreases |run|
  {
    if run != [] {
      assert forall i :: 0 <= i < |run[1..]| ==> run[1..][i] == run[i + 1];
      StaysIdle(s, t, run[1..]);
    }
  }

  /** A try_get that runs alone, from any reachable state, ends: it takes the first node if there is
      one, and otherwise nothing. */
  lemma GetsFirst(s: State, run: seq<Action>, t: nat, alone: seq<Action>)
    requires Init(s) && OnlyRuns(alone, t) && |alone| >= 6
    ensures Inv(s)
    ensures var r := Exec(s, run);
      t < |r.threads| && r.threads[t].Idle? ==>
        var q := Exec(r, [CallTryGet(t)] + alone);
        && t < |q.threads| && q.threads[t].Idle?
        && if r.list == [] then q.list == [] && q.owned == r.owned else q.list == r.list[1..] && q.owned == r.owned + {r.list[0]}
  {
    InitInv(s);
    var r := Exec(s, run);
    if t < |r.threads| && r.threads[t].Idle? {
      StepInv(r, CallTryGet(t));
      assert ([CallTryGet(t)] + alone)[1..] == alone;
      var c := Step(r, CallTryGet(t));
      if r.list != [] {
        GetEnds(c, t, r.list, r.owned, alone);
      } else {
        StepInv(c, Run(t));
        assert forall i :: 0 <= i < |alone[1..]| ==> alone[1..][i] == alone[i + 1];
        StaysIdle(Step(c, Run(t)), t, alone[1..]);
      }
    }
  }

  /** Where an add of node n is that found the given list and runs alone. */
  predicate Putting(s: State, t: nat, n: nat, list: seq<nat>, owned: set<nat>) {
    && Inv(s) && t < |s.threads| && s.owned == owned
    && match s.threads[t]
       case PutHead(h, k) => h == n && k == Return && s.list == list
       case PutNext(h, want, k) => h == n && k == Return && s.list == list && want == s.head
       case PutRefs(h, want, k) => h == n && k == Return && s.list == list && want == s.head
       case PutSwing(h, want, k) => h == n && k == Return && s.list == list && want == s.head
       case Idle => s.list == [n] + list
       case _ => false
  }

  function PutRank(pc: Pc): nat {
    match pc
    case PutHead(_, _) => 4
    case PutNext(_, _, _) => 3
    case PutRefs(_, _, _) => 2
    case PutSwing(_, _, _) => 1
    case _ => 0
  }

  lemma {:induction false} PutEnds(s: State, t: nat, n: nat, list: seq<nat>, owned: set<nat>, run: seq<Action>)
    requires Putting(s, t, n, list, owned) && OnlyRuns(run, t) && |run| >= PutRank(s.threads[t])
    ensures Putting(Exec(s, run), t, n, list, owned) && Exec(s, run).threads[t].Idle?
    decreases |run|
  {
    if run != [] {
      StepInv(s, run[0]);
      assert forall i :: 0 <= i < |run[1..]| ==> run[1..][i] == run[i + 1];
      PutEnds(Step(s, run[0]), t, n, list, owned, run[1..]);
    }
  }

  /** An add that runs alone while nothing else is in flight ends with its node in front. */
  lemma PutsFirst(s: State, run: seq<Action>, t: nat, n: nat, alone: seq<Action>)
    requires Init(s) && OnlyRuns(alone, t) && |alone| >= 4
    ensures Inv(s)
    ensures var r := Exec(s, run);
      t < |r.threads| && n in r.owned && (forall u :: 0 <= u < |r.threads| ==> r.threads[u].Idle?) ==>
        var q := Exec(r, [CallAdd(t, n)] + alone);
        t < |q.threads| && q.threads[t].Idle? && q.list == [n] + r.list && q.owned == r.owned - {n}
  {
    InitInv(s);
    var r := Exec(s, run);
    if t < |r.threads| && n in r.owned && forall u :: 0 <= u < |r.threads| ==> r.threads[u].Idle? {
      QuiescentNothingLost(s, run);
      StepInv(r, CallAdd(t, n));
      assert ([CallAdd(t, n)] + alone)[1..] == alone;
      PutEnds(Step(r, CallAdd(t, n)), t, n, r.list, r.owned - {n}, alone);
    }
  }

  // ---------------------------------------------------------------- a call that returns nothing

  /** In the middle of a try_get that has not seen the end of the list. */
  ghost predicate Looking(pc: Pc) {
    match pc
    case Idle => false
    case Unpin(_, cur) => cur.To?
    case PutHead(_, k) => k.Retry? && k.cur.To?
    case PutNext(_, _, k) => k.Retry? && k.cur.To?
    case PutRefs(_, _, k) => k.Retry? && k.cur.To?
    case PutSwing(_, _, k) => k.Retry? && k.cur.To?
    case PutBack(_, _, k) => k.Retry? && k.cur.To?
    case _ => true
  }

  /** Thread t takes no node in the run. */
  ghost predicate TakesNone(s: State, t: nat, run: seq<Action>)
    requires Inv(s)
  {
    forall n :: 0 <= n < |run| && run[n] == Run(t) ==> var r := Exec(s, run[..n]); t < |r.threads| ==> !r.threads[t].Take?
  }

  lemma LookingGet(s: State, t: nat)
    requires Shape(s) && t < |s.threads| && IsGet(s.threads[t]) && Looking(s.threads[t]) && s.head.To? && !s.threads[t].Take?
    ensures t < |RunGet(s, t).threads| && Looking(RunGet(s, t).threads[t])
  {
  }

  lemma LookingPut(s: State, t: nat)
    requires Shape(s) && t < |s.threads| && !IsGet(s.threads[t]) && Looking(s.threads[t])
    ensures t < |RunPut(s, t).threads| && Looking(RunPut(s, t).threads[t])
  {
  }

  lemma OthersStep(s: State, t: nat, a: Action)
    requires Shape(s) && t < |s.threads| && a.t != t
    ensures t < |Step(s, a).threads| && Step(s, a).threads[t] == s.threads[t]
  {
  }

  lemma LookingOn(s: State, t: nat, a: Action)
    requires Shape(s) && t < |s.threads| && Looking(s.threads[t]) && s.head.To? && (a == Run(t) ==> !s.threads[t].Take?)
    ensures t < |Step(s, a).threads| && Looking(Step(s, a).threads[t])
  {
    if a.t != t {
      OthersStep(s, t, a);
    } else if a == Run(t) {
      if IsGet(s.threads[t]) { LookingGet(s, t); } else { LookingPut(s, t); }
    }
  }

  lemma ExecFirst(s: State, run: seq<Action>, n: nat)
    requires Inv(s) && n < |run|
    ensures Inv(Step(s, run[0])) && Exec(s, run[..n + 1]) == Exec(Step(s, run[0]), run[1..][..n])
  {
    StepInv(s, run[0]);
    assert run[..n + 1][1..] == run[1..][..n];
  }

  lemma TakesNoneOn(s: State, t: nat, run: seq<Action>)
    requires Inv(s) && run != [] && TakesNone(s, t, run)
    ensures Inv(Step(s, run[0])) && TakesNone(Step(s, run[0]), t, run[1..])
  {
    StepInv(s, run[0]);
    var s1, rest := Step(s, run[0]), run[1..];
    forall k | 0 <= k < |rest| && rest[k] == Run(t)
      ensures var r := Exec(s1, rest[..k]); t < |r.threads| ==> !r.threads[t].Take?
    {
      ExecFirst(s, run, k);
      assert run[k + 1] == Run(t);
    }
  }

  lemma {:induction false} SawEmpty(s: State, t: nat, run: seq<Action>) returns (n: nat)
    requires Inv(s) && t < |s.threads| && Looking(s.threads[t]) && TakesNone(s, t, run)
    requires t < |Exec(s, run).threads| ==> Exec(s, run).threads[t].Idle?
    ensures n <= |run| && Exec(s, run[..n]).list == []
    decreases |run|
  {
    if s.list == [] {
      n := 0;
    } else {
      var s1, rest := Step(s, run[0]), run[1..];
      assert Exec(s, run[..0]) == s;
      LookingOn(s, t, run[0]);
      StepInv(s, run[0]);
      TakesNoneOn(s, t, run);
      n := SawEmpty(s1, t, rest);
      if n < |rest| { ExecFirst(s, run, n); } else { assert run[..n + 1] == run && rest[..n] == rest; }
      n := n + 1;
    }
  }

  /** In every run, among all other threads: a try_get that ends without a node was in progress
      at a moment when the list was empty. */
  lemma NothingOnlyIfEmpty(s: State, before: seq<Action>, t: nat, run: seq<Action>) returns (n: nat)
    requires Init(s)
    ensures Inv(s)
    ensures var r := Exec(s, before);
      t < |r.threads| && r.threads[t].Idle? ==>
        var c := Exec(r, [CallTryGet(t)]);
        TakesNone(c, t, run) && (t < |Exec(c, run).threads| ==> Exec(c, run).threads[t].Idle?) ==>
          n <= |run| && Exec(c, run[..n]).list == []
  {
    InitInv(s);
    var r := Exec(s, before);
    n := 0;
    if t < |r.threads| && r.threads[t].Idle? {
      var c := Exec(r, [CallTryGet(t)]);
      assert c == Step(r, CallTryGet(t)) by {
        StepInv(r, CallTryGet(t));
        assert Exec(Step(r, CallTryGet(t)), [CallTryGet(t)][1..]) == Step(r, CallTryGet(t));
      }
      if TakesNone(c, t, run) && (t < |Exec(c, run).threads| ==> Exec(c, run).threads[t].Idle?) {
        n := SawEmpty(c, t, run);
      }
    }
  }
}
