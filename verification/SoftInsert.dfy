/**
  Soft Insert (src/update/direct_insert.cpp): the write ordering by which concurrent inserts
  into persistent memory are meant to survive a crash at any moment.

  A new node and new versions of its neighbours go to freshly allocated slots; location
  entries, one per id, say which slot holds an id's record.  A store reaches persistence at
  any time after it was issued, and at the latest with the next fence of the same thread; a
  node record only does so if its flush covers all its cache lines.  After a crash the entries
  are read as recovery reads them, where a zero stands for an absent id; recovery then looks up
  every id from a checkpoint to the largest one it loaded, and stops on an absent one.
 */
module SoftInsert {
  import opened Basics
  import opened Recovery
  import Relocation

  /** A record: whose it is, and its adjacency. */
  datatype Node = Node(owner: nat, nbrs: seq<nat>)

  datatype Phase = Stored(tid: nat) | Flushed(tid: nat) | Clean

  datatype SlotMem = SlotMem(node: Node, phase: Phase)

  datatype Write = Write(loc: nat, tid: nat)

  /** A location entry: its persistent value, and the stores after it, in order. */
  datatype Cell = Cell(start: Option<nat>, later: seq<Write>)

  /** An insert of x next to the ids ns, whose new versions go to locs; x itself goes to the last. */
  datatype Thread = Idle | Insert(x: nat, ns: seq<nat>, locs: seq<nat>, pc: Pc)

  datatype Pc = Target | Fence1 | Copy(i: nat) | Entry | Flush(i: nat) | Fence2 | Publish(i: nat)

  /** published: ids whose insert is past its second fence; a search can find them.  current: the
      location map in DRAM.  queue: entries that the commit thread has still to store.  covers:
      whether the flush of a record at a location reaches all its cache lines.  ckpt: the first
      id that recovery looks up. */
  datatype State = State(slots: map<nat, SlotMem>, cells: map<nat, Cell>, published: set<nat>,
                         queue: seq<(nat, nat)>, threads: seq<Thread>, current: map<nat, nat>,
                         covers: (nat, Node) -> bool, ckpt: nat)

  datatype Action =
    | Begin(x: nat, ns: seq<nat>, locs: seq<nat>)
    | StoreTarget | DoFence | StoreCopy(nbrs: seq<nat>) | StoreEntry | FlushCopy
    | DoPublish(queued: bool) | CommitStore(k: nat) | CommitFence

  /** The commit thread's number. */
  const COMMIT: nat := 0

  // ---------------------------------------------------------------- memory

  /** The last store of a thread to a cell, if any, as an index after it. */
  function LastBy(later: seq<Write>, tid: nat): (n: nat)
    ensures n <= |later| && (n > 0 ==> later[n - 1].tid == tid)
    ensures n == 0 ==> forall i :: 0 <= i < |later| ==> later[i].tid != tid
  {
    if later == [] then 0
    else if later[|later| - 1].tid == tid then |later|
    else LastBy(later[..|later| - 1], tid)
  }

  function FencedCell(c: Cell, tid: nat): Cell {
    var n := LastBy(c.later, tid);
    if n == 0 then c else Cell(Some(c.later[n - 1].loc), c.later[n..])
  }

  /** A fence makes a flushed record persistent if the flush covered it. */
  function Settled(l: nat, n: Node, tid: nat, covers: (nat, Node) -> bool): Phase {
    if covers(l, n) then Clean else Flushed(tid)
  }

  function FencedSlot(l: nat, m: SlotMem, tid: nat, covers: (nat, Node) -> bool): SlotMem {
    if m.phase == Flushed(tid) then SlotMem(m.node, Settled(l, m.node, tid, covers)) else m
  }

  function FenceSlots(slots: map<nat, SlotMem>, tid: nat, covers: (nat, Node) -> bool): map<nat, SlotMem> {
    map l | l in slots :: FencedSlot(l, slots[l], tid, covers)
  }

  function FenceCells(cells: map<nat, Cell>, tid: nat): map<nat, Cell> { map id | id in cells :: FencedCell(cells[id], tid) }

  function StoreCell(cells: map<nat, Cell>, id: nat, loc: nat, tid: nat): map<nat, Cell> {
    var c := if id in cells then cells[id] else Cell(None, []);
    cells[id := Cell(c.start, c.later + [Write(loc, tid)])]
  }

  predicate Holds(c: Cell, l: nat) { c.start == Some(l) || exists i :: 0 <= i < |c.later| && c.later[i].loc == l }

  /** A crash may leave l in the entry of id. */
  predicate Possible(cells: map<nat, Cell>, id: nat, l: nat) { id in cells && Holds(cells[id], l) }

  /** A crash may leave the entry of id unwritten. */
  predicate MaybeUnset(cells: map<nat, Cell>, id: nat) { id !in cells || cells[id].start.None? }

  predicate Referenced(s: State, id: nat, l: nat) { Possible(s.cells, id, l) || (id, l) in s.queue }

  /** Recovery takes this entry for a location, not for an absent id. */
  predicate Readable(id: nat, l: nat) { id == 0 || l != 0 }

  /** Some crash image has an entry for id that recovery loads. */
  ghost predicate MayLoad(cells: map<nat, Cell>, id: nat) { exists l: nat :: Possible(cells, id, l) && Readable(id, l) }

  /** Every crash image has one. */
  predicate Present(cells: map<nat, Cell>, id: nat) { !MaybeUnset(cells, id) && (id == 0 || !Possible(cells, id, 0)) }

  ghost predicate PresentFrom(cells: map<nat, Cell>, lo: nat, hi: nat) { forall y: nat :: lo <= y < hi ==> Present(cells, y) }

  /** No id that recovery looks up on its way to a loaded one can be absent. */
  ghost predicate NoGaps(cells: map<nat, Cell>, ckpt: nat) {
    forall id: nat :: MayLoad(cells, id) ==> PresentFrom(cells, ckpt, id)
  }

  // ---------------------------------------------------------------- crash images

  datatype Content = Whole(node: Node) | Torn

  /** What a crash may leave behind: each entry of the location array has its persistent value, or
      zero if it has none, or a later one; and a record that is not yet persistent can be
      anything. */
  ghost predicate IsImage(s: State, file: seq<nat>, records: map<nat, Content>) {
    && (forall id: nat :: id < |file| ==> Possible(s.cells, id, file[id]) || (file[id] == 0 && MaybeUnset(s.cells, id)))
    && (forall id: nat :: id >= |file| ==> MaybeUnset(s.cells, id))
    && (forall l :: l in s.slots && s.slots[l].phase.Clean? ==> l in records && records[l] == Whole(s.slots[l].node))
  }

  /** Every entry that recovery loads leads to a whole record of its id, whose neighbours are
      loaded as well, no finished insert is lost, and the lookups of recovery find every id. */
  ghost predicate Consistent(file: seq<nat>, records: map<nat, Content>, published: set<nat>, ckpt: nat) {
    && (forall id :: id in Loaded(file) ==> Sound(Loaded(file), records, id, Loaded(file)[id]))
    && (forall y :: y in published ==> y in Loaded(file))
    && (forall id :: id in Loaded(file) ==> LoadedFrom(file, ckpt, id))
  }

  ghost predicate LoadedFrom(file: seq<nat>, lo: nat, hi: nat) { forall y: nat :: lo <= y < hi ==> y in Loaded(file) }

  ghost predicate Sound(entries: map<nat, nat>, records: map<nat, Content>, id: nat, l: nat) {
    && l in records && records[l].Whole? && records[l].node.owner == id
    && forall y :: y in records[l].node.nbrs ==> y in entries
  }

  /** A persistent record of the id that names only published ids. */
  ghost predicate Good(s: State, id: nat, l: nat) {
    l in s.slots && s.slots[l].phase.Clean? && s.slots[l].node.owner == id && NamesOnly(s.slots[l].node, s.published)
  }

  ghost predicate NamesOnly(n: Node, ids: set<nat>) { forall y :: y in n.nbrs ==> y in ids }

  /** Recovery may follow the entry of id to l, now or once the queue is stored. */
  predicate Leads(s: State, id: nat, l: nat) { Referenced(s, id, l) && Readable(id, l) }

  /** Everything that recovery may follow an entry to is good, no entry of a published id can be
      taken for absent, and there are no gaps. */
  ghost predicate Safe(s: State) {
    && (forall id, l :: Leads(s, id, l) ==> Good(s, id, l))
    && (forall id, l :: Referenced(s, id, l) && id in s.published ==> Readable(id, l))
    && NoGaps(s.cells, s.ckpt)
  }

  /** Published ids, among them id 0, have persistent entries. */
  ghost predicate PublishedSet(s: State) { 0 in s.published && forall y :: y in s.published ==> !MaybeUnset(s.cells, y) }

  /** What recovery loads for an id of a safe state. */
  lemma SafeEntry(s: State, file: seq<nat>, records: map<nat, Content>, id: nat)
    requires Safe(s) && PublishedSet(s) && IsImage(s, file, records)
    ensures id in Loaded(file) ==> Leads(s, id, Loaded(file)[id])
    ensures id in s.published ==> id in Loaded(file)
  {
    if id in s.published {
      assert id < |file| && Possible(s.cells, id, file[id]);
      assert Referenced(s, id, file[id]);
    }
  }

  lemma SafeDense(s: State, file: seq<nat>, records: map<nat, Content>, id: nat)
    requires Safe(s) && PublishedSet(s) && IsImage(s, file, records) && id in Loaded(file)
    ensures LoadedFrom(file, s.ckpt, id)
  {
    assert id == 0 || (Possible(s.cells, id, file[id]) && Readable(id, file[id]));
    if id > 0 {
      assert MayLoad(s.cells, id) && PresentFrom(s.cells, s.ckpt, id);
      forall y: nat | s.ckpt <= y < id ensures y in Loaded(file) { assert Present(s.cells, y); }
    }
  }

  /** In a safe state every crash image is consistent. */
  lemma SafeImages(s: State, file: seq<nat>, records: map<nat, Content>)
    requires Safe(s) && PublishedSet(s) && IsImage(s, file, records)
    ensures Consistent(file, records, s.published, s.ckpt)
  {
    forall id | id in Loaded(file) ensures LoadedFrom(file, s.ckpt, id) { SafeDense(s, file, records, id); }
    forall id: nat ensures (id in Loaded(file) ==> Leads(s, id, Loaded(file)[id])) && (id in s.published ==> id in Loaded(file)) {
      SafeEntry(s, file, records, id);
    }
    forall id | id in Loaded(file) ensures Sound(Loaded(file), records, id, Loaded(file)[id]) {
      assert Good(s, id, Loaded(file)[id]);
    }
  }

  lemma {:induction false} KeyBound(ids: set<nat>) returns (n: nat)
    ensures forall id :: id in ids ==> id < n
  {
    n := 0;
    if ids != {} {
      var x :| x in ids;
      var m := KeyBound(ids - {x});
      assert ids == (ids - {x}) + {x};
      n := if m > x then m else x + 1;
    }
  }

  function StartOf(cells: map<nat, Cell>, id: nat): nat {
    if id in cells && cells[id].start.Some? then cells[id].start.value else 0
  }

  /** The image in which the chosen entries have the chosen values, every other entry its
      persistent one, and every record that is not persistent is torn. */
  lemma ImageWith(s: State, choice: map<nat, nat>) returns (file: seq<nat>, records: map<nat, Content>)
    requires forall id :: id in choice ==> Possible(s.cells, id, choice[id]) || (choice[id] == 0 && MaybeUnset(s.cells, id))
    ensures IsImage(s, file, records) && forall id :: id in choice ==> id < |file| && file[id] == choice[id]
    ensures forall x :: x in s.slots && !s.slots[x].phase.Clean? ==> x in records && records[x].Torn?
  {
    var n := KeyBound(s.cells.Keys + choice.Keys);
    file := seq(n, y requires 0 <= y < n => if y in choice then choice[y] else StartOf(s.cells, y));
    records := map x | x in s.slots :: if s.slots[x].phase.Clean? then Whole(s.slots[x].node) else Torn;
  }

  /** A crash in this state leaves a consistent index. */
  ghost predicate CrashSafe(s: State) {
    forall file, records :: IsImage(s, file, records) ==> Consistent(file, records, s.published, s.ckpt)
  }

  /** An entry that may lead to a record that is not persistent. */
  lemma DirtyImage(s: State, id: nat, l: nat)
    requires Possible(s.cells, id, l) && Readable(id, l) && l in s.slots && !s.slots[l].phase.Clean?
    ensures !CrashSafe(s)
  {
    var file, records := ImageWith(s, map[id := l]);
    assert id in Loaded(file) && Loaded(file)[id] == l && !Sound(Loaded(file), records, id, l);
  }

  /** A finished insert whose entry may read as absent. */
  lemma LostImage(s: State, id: nat)
    requires Possible(s.cells, id, 0) && id != 0 && id in s.published
    ensures !CrashSafe(s)
  {
    var file, records := ImageWith(s, map[id := 0]);
    assert id !in Loaded(file);
  }

  /** An id that may be absent while a larger one is loaded. */
  lemma GapImage(s: State, id: nat, y: nat)
    requires MayLoad(s.cells, id) && s.ckpt <= y < id && y != 0 && !Present(s.cells, y)
    ensures !CrashSafe(s)
  {
    var l: nat :| Possible(s.cells, id, l) && Readable(id, l);
    var file, records := ImageWith(s, map[id := l, y := 0]);
    assert id in Loaded(file) && y !in Loaded(file) && !LoadedFrom(file, s.ckpt, id);
  }

  // ---------------------------------------------------------------- steps

  function Tid(t: nat): nat { t + 1 }

  ghost predicate Active(s: State, t: nat) { t < |s.threads| && s.threads[t].Insert? }

  /** A new id, found neighbours, and locations that no insert in progress has. */
  ghost predicate CanBegin(s: State, t: nat, x: nat, ns: seq<nat>, locs: seq<nat>) {
    && t < |s.threads| && s.threads[t].Idle? && x !in s.published && x !in s.cells
    && (forall y :: y in ns ==> y in s.published) && |locs| == |ns| + 1 && Distinct(locs)
    && (forall u: nat :: Active(s, u) ==> s.threads[u].x != x && forall l :: l in locs ==> l !in s.threads[u].locs)
  }

  /** The location that a step stores a record to. */
  ghost predicate StoresAt(s: State, t: nat, a: Action, l: nat) {
    && Active(s, t) && |s.threads[t].locs| == |s.threads[t].ns| + 1
    && ((a.StoreTarget? && l == s.threads[t].locs[|s.threads[t].ns|])
        || (a.StoreCopy? && s.threads[t].pc.Copy? && s.threads[t].pc.i < |s.threads[t].ns| && l == s.threads[t].locs[s.threads[t].pc.i]))
  }

  ghost predicate Enabled(s: State, t: nat, a: Action) {
    match a
    case Begin(x, ns, locs) => CanBegin(s, t, x, ns, locs)
    case StoreTarget => Active(s, t) && s.threads[t].pc == Target
    case DoFence => Active(s, t) && (s.threads[t].pc == Fence1 || s.threads[t].pc == Fence2)
    case StoreCopy(nbrs) =>
      && Active(s, t) && s.threads[t].pc.Copy? && s.threads[t].pc.i < |s.threads[t].ns|
      && forall y :: y in nbrs ==> y in s.published || y == s.threads[t].x
    case StoreEntry => Active(s, t) && s.threads[t].pc == Entry
    case FlushCopy => Active(s, t) && s.threads[t].pc.Flush? && s.threads[t].pc.i < |s.threads[t].ns|
    case DoPublish(_) => Active(s, t) && s.threads[t].pc.Publish?
    case CommitStore(k) => k < |s.queue|
    case CommitFence => true
  }

  function At(s: State, t: nat, pc: Pc): seq<Thread>
    requires Active(s, t)
  {
    s.threads[t := Insert(s.threads[t].x, s.threads[t].ns, s.threads[t].locs, pc)]
  }

  function CopyPc(i: nat, n: nat): Pc { if i < n then Copy(i) else Entry }

  function FlushPc(i: nat, n: nat): Pc { if i < n then Flush(i) else Fence2 }

  ghost predicate ShapeOk(s: State) {
    forall t: nat :: Active(s, t) ==>
      var th := s.threads[t];
      |th.locs| == |th.ns| + 1 && (th.pc.Publish? ==> th.pc.i <= |th.ns|)
  }

  /** One step of thread t, or of the commit thread. */
  function Next(s: State, t: nat, a: Action): State
    requires ShapeOk(s) && Enabled(s, t, a)
  {
    match a
    case Begin(x, ns, locs) => s.(threads := s.threads[t := Insert(x, ns, locs, Target)])
    case StoreTarget =>
      var th := s.threads[t];
      s.(slots := s.slots[th.locs[|th.ns|] := SlotMem(Node(th.x, th.ns), Flushed(Tid(t)))], threads := At(s, t, Fence1))
    case DoFence =>
      var th := s.threads[t];
      s.(slots := FenceSlots(s.slots, Tid(t), s.covers), cells := FenceCells(s.cells, Tid(t)),
         published := if th.pc == Fence2 then s.published + {th.x} else s.published,
         threads := At(s, t, if th.pc == Fence1 then CopyPc(0, |th.ns|) else Publish(0)))
    case StoreCopy(nbrs) =>
      var th := s.threads[t];
      s.(slots := s.slots[th.locs[th.pc.i] := SlotMem(Node(th.ns[th.pc.i], nbrs), Stored(Tid(t)))],
         threads := At(s, t, CopyPc(th.pc.i + 1, |th.ns|)))
    case StoreEntry =>
      var th := s.threads[t];
      s.(cells := StoreCell(s.cells, th.x, th.locs[|th.ns|], Tid(t)), current := s.current[th.x := th.locs[|th.ns|]],
         threads := At(s, t, FlushPc(0, |th.ns|)))
    case FlushCopy =>
      var th := s.threads[t];
      var l := th.locs[th.pc.i];
      s.(slots := if l in s.slots then s.slots[l := SlotMem(s.slots[l].node, Flushed(Tid(t)))] else s.slots,
         threads := At(s, t, FlushPc(th.pc.i + 1, |th.ns|)))
    case DoPublish(queued) => PublishNext(s, t, queued)
    case CommitStore(k) =>
      s.(cells := StoreCell(s.cells, s.queue[k].0, s.queue[k].1, COMMIT), queue := s.queue[..k] + s.queue[k + 1..])
    case CommitFence => s.(slots := FenceSlots(s.slots, COMMIT, s.covers), cells := FenceCells(s.cells, COMMIT))
  }

  /** The switch of one neighbour to its new version: in DRAM at once, and in persistent memory
      either by a store or through the queue.  After the last one the old slots are free. */
  function PublishNext(s: State, t: nat, queued: bool): State
    requires ShapeOk(s) && Active(s, t) && s.threads[t].pc.Publish?
  {
    var th := s.threads[t];
    var i := th.pc.i;
    if i == |th.ns| then s.(threads := s.threads[t := Idle])
    else
      s.(cells := if queued then s.cells else StoreCell(s.cells, th.ns[i], th.locs[i], Tid(t)),
         queue := if queued then s.queue + [(th.ns[i], th.locs[i])] else s.queue,
         current := s.current[th.ns[i] := th.locs[i]], threads := At(s, t, Publish(i + 1)))
  }

  // ---------------------------------------------------------------- invariant

  /** A new version of a neighbour in the given phase; it may name the id being inserted. */
  ghost predicate Version(s: State, l: nat, owner: nat, x: nat, phase: Phase) {
    && l in s.slots && s.slots[l].phase == phase && s.slots[l].node.owner == owner
    && NamesOnly(s.slots[l].node, s.published + {x})
  }

  ghost predicate Versions(s: State, th: Thread, lo: nat, hi: nat, phase: Phase)
    requires th.Insert? && hi <= |th.ns| <= |th.locs|
  {
    forall k :: lo <= k < hi ==> Version(s, th.locs[k], th.ns[k], th.x, phase)
  }

  /** A version after the fence that followed its flush. */
  ghost predicate FencedVersion(s: State, l: nat, owner: nat, x: nat, tid: nat) {
    l in s.slots && Version(s, l, owner, x, Settled(l, s.slots[l].node, tid, s.covers))
  }

  ghost predicate FencedVersions(s: State, th: Thread, lo: nat, hi: nat, tid: nat)
    requires th.Insert? && hi <= |th.ns| <= |th.locs|
  {
    forall k :: lo <= k < hi ==> FencedVersion(s, th.locs[k], th.ns[k], th.x, tid)
  }

  /** The phase of the new node's record once it was fenced. */
  ghost function TargetPhase(s: State, th: Thread, tid: nat): Phase
    requires th.Insert? && |th.ns| < |th.locs|
  {
    Settled(th.locs[|th.ns|], Node(th.x, th.ns), tid, s.covers)
  }

  ghost predicate TargetIs(s: State, th: Thread, phase: Phase)
    requires th.Insert? && |th.ns| < |th.locs|
  {
    th.locs[|th.ns|] in s.slots && s.slots[th.locs[|th.ns|]] == SlotMem(Node(th.x, th.ns), phase)
  }

  ghost predicate EntryIs(s: State, th: Thread, tid: nat)
    requires th.Insert? && |th.ns| < |th.locs|
  {
    th.x in s.cells && s.cells[th.x] == Cell(None, [Write(th.locs[|th.ns|], tid)])
  }

  /** What a thread relies on at each point of an insert. */
  ghost predicate ThreadOk(s: State, th: Thread, tid: nat)
    requires th.Insert?
  {
    && |th.locs| == |th.ns| + 1 && Distinct(th.locs) && (forall y :: y in th.ns ==> y in s.published)
    && (if th.pc.Publish? then th.x in s.published else th.x !in s.published)
    && (if th.pc.Flush? || th.pc.Fence2? then EntryIs(s, th, tid) else th.pc.Publish? || th.x !in s.cells)
    && match th.pc
       case Target => true
       case Fence1 => TargetIs(s, th, Flushed(tid))
       case Copy(i) => i < |th.ns| && TargetIs(s, th, TargetPhase(s, th, tid)) && Versions(s, th, 0, i, Stored(tid))
       case Entry => TargetIs(s, th, TargetPhase(s, th, tid)) && Versions(s, th, 0, |th.ns|, Stored(tid))
       case Flush(i) => i < |th.ns| && TargetIs(s, th, TargetPhase(s, th, tid)) && Versions(s, th, 0, i, Flushed(tid)) && Versions(s, th, i, |th.ns|, Stored(tid))
       case Fence2 => TargetIs(s, th, TargetPhase(s, th, tid)) && Versions(s, th, 0, |th.ns|, Flushed(tid))
       case Publish(i) => i <= |th.ns| && FencedVersions(s, th, i, |th.ns|, tid)
  }

  ghost predicate Exclusive(ths: seq<Thread>) {
    forall t, u :: 0 <= t < u < |ths| && ths[t].Insert? && ths[u].Insert? ==> Apart(ths[t], ths[u])
  }

  ghost predicate Apart(a: Thread, b: Thread)
    requires a.Insert? && b.Insert?
  {
    a.x != b.x && forall l :: l in a.locs ==> l !in b.locs
  }

  ghost predicate ThreadsOk(s: State) {
    forall t :: 0 <= t < |s.threads| && s.threads[t].Insert? ==> ThreadOk(s, s.threads[t], Tid(t))
  }

  ghost predicate QueueOk(s: State) { forall k :: 0 <= k < |s.queue| ==> s.queue[k].0 in s.published }

  ghost predicate Inv(s: State) {
    ShapeOk(s) && ThreadsOk(s) && Exclusive(s.threads) && PublishedSet(s) && QueueOk(s)
  }

  /** Another thread's step: slots of this insert change at most by that thread's fence, and its
      own entry does not. */
  ghost predicate Calm(s: State, s': State, th: Thread, tid: nat)
    requires th.Insert?
  {
    && s.published <= s'.published && s'.covers == s.covers
    && (!th.pc.Publish? ==> EntryCalm(s, s', th.x, tid))
    && forall l :: l in th.locs && l in s.slots ==> CalmSlot(s, s', l, tid)
  }

  ghost predicate EntryCalm(s: State, s': State, x: nat, tid: nat) {
    && x !in s'.published && (x in s'.cells <==> x in s.cells)
    && (EntryAlone(s, x, tid) ==> x in s'.cells && s'.cells[x] == s.cells[x])
  }

  ghost predicate EntryAlone(s: State, x: nat, tid: nat) {
    x in s.cells && s.cells[x].start.None? && |s.cells[x].later| == 1 && s.cells[x].later[0].tid == tid
  }

  ghost predicate CalmSlot(s: State, s': State, l: nat, tid: nat)
    requires l in s.slots
  {
    l in s'.slots && (s'.slots[l] == s.slots[l] || (s.slots[l].phase.Flushed? && s.slots[l].phase.tid != tid))
  }

  lemma CalmVersions(s: State, s': State, th: Thread, tid: nat, lo: nat, hi: nat, phase: Phase)
    requires th.Insert? && hi <= |th.ns| <= |th.locs| && Calm(s, s', th, tid) && Versions(s, th, lo, hi, phase)
    requires phase != Clean ==> phase.tid == tid
    ensures Versions(s', th, lo, hi, phase)
  {
    forall k | lo <= k < hi ensures Version(s', th.locs[k], th.ns[k], th.x, phase) {
      assert Version(s, th.locs[k], th.ns[k], th.x, phase) && th.locs[k] in th.locs;
      assert CalmSlot(s, s', th.locs[k], tid);
    }
  }

  lemma CalmFenced(s: State, s': State, th: Thread, tid: nat, lo: nat, hi: nat)
    requires th.Insert? && hi <= |th.ns| <= |th.locs| && Calm(s, s', th, tid) && FencedVersions(s, th, lo, hi, tid)
    ensures FencedVersions(s', th, lo, hi, tid)
  {
    forall k | lo <= k < hi ensures FencedVersion(s', th.locs[k], th.ns[k], th.x, tid) {
      assert FencedVersion(s, th.locs[k], th.ns[k], th.x, tid) && th.locs[k] in th.locs;
      assert CalmSlot(s, s', th.locs[k], tid);
    }
  }

  lemma CalmTarget(s: State, s': State, th: Thread, tid: nat, phase: Phase)
    requires th.Insert? && |th.ns| < |th.locs| && Calm(s, s', th, tid) && TargetIs(s, th, phase)
    requires phase != Clean ==> phase.tid == tid
    ensures TargetIs(s', th, phase)
  {
    assert th.locs[|th.ns|] in th.locs;
    assert CalmSlot(s, s', th.locs[|th.ns|], tid);
  }

  /** A thread that does not move keeps what it relies on. */
  lemma ThreadKept(s: State, s': State, th: Thread, tid: nat)
    requires th.Insert? && ThreadOk(s, th, tid) && Calm(s, s', th, tid)
    ensures ThreadOk(s', th, tid)
  {
    match th.pc
    case Target =>
    case Fence1 => CalmTarget(s, s', th, tid, Flushed(tid));
    case Copy(i) =>
      CalmTarget(s, s', th, tid, TargetPhase(s, th, tid));
      CalmVersions(s, s', th, tid, 0, i, Stored(tid));
    case Entry =>
      CalmTarget(s, s', th, tid, TargetPhase(s, th, tid));
      CalmVersions(s, s', th, tid, 0, |th.ns|, Stored(tid));
    case Flush(i) =>
      CalmTarget(s, s', th, tid, TargetPhase(s, th, tid));
      CalmVersions(s, s', th, tid, 0, i, Flushed(tid));
      CalmVersions(s, s', th, tid, i, |th.ns|, Stored(tid));
    case Fence2 =>
      CalmTarget(s, s', th, tid, TargetPhase(s, th, tid));
      CalmVersions(s, s', th, tid, 0, |th.ns|, Flushed(tid));
    case Publish(i) => CalmFenced(s, s', th, tid, i, |th.ns|);
  }

  // ---------------------------------------------------------------- each step keeps it

  ghost predicate Others(s: State, s': State, t: nat) {
    && |s'.threads| == |s.threads|
    && (forall u :: 0 <= u < |s.threads| && u != t ==> s'.threads[u] == s.threads[u])
    && (forall u :: 0 <= u < |s.threads| && u != t && s.threads[u].Insert? ==> Calm(s, s', s.threads[u], Tid(u)))
  }

  lemma OthersKept(s: State, s': State, t: nat)
    requires ThreadsOk(s) && Others(s, s', t)
    requires t < |s.threads| && s'.threads[t].Insert? ==> ThreadOk(s', s'.threads[t], Tid(t))
    ensures ThreadsOk(s') && ShapeOk(s')
  {
    forall u | 0 <= u < |s'.threads| && s'.threads[u].Insert? ensures ThreadOk(s', s'.threads[u], Tid(u)) {
      if u != t { ThreadKept(s, s', s.threads[u], Tid(u)); }
    }
  }

  lemma StillExclusive(ths: seq<Thread>, t: nat, th: Thread)
    requires Exclusive(ths) && t < |ths|
    requires th.Insert? ==> ths[t].Insert? && th.x == ths[t].x && th.locs == ths[t].locs
    ensures Exclusive(ths[t := th])
  {
  }

  lemma ApartFrom(s: State, t: nat, u: nat)
    requires Inv(s) && t < |s.threads| && u < |s.threads| && t != u && s.threads[t].Insert? && s.threads[u].Insert?
    ensures Apart(s.threads[u], s.threads[t]) && Apart(s.threads[t], s.threads[u])
  {
    var a, b := if t < u then t else u, if t < u then u else t;
    assert Apart(s.threads[a], s.threads[b]);
  }

  /** A record stored to a location of thread t. */
  lemma StoreOthers(s: State, s': State, t: nat, l: nat, m: SlotMem)
    requires Inv(s) && Active(s, t) && l in s.threads[t].locs
    requires s'.slots == s.slots[l := m] && s'.cells == s.cells && s'.published == s.published && s'.covers == s.covers
    requires |s'.threads| == |s.threads| && forall u :: 0 <= u < |s.threads| && u != t ==> s'.threads[u] == s.threads[u]
    ensures Others(s, s', t)
  {
    forall u | 0 <= u < |s.threads| && u != t && s.threads[u].Insert? ensures Calm(s, s', s.threads[u], Tid(u)) {
      ApartFrom(s, t, u);
      assert ThreadOk(s, s.threads[u], Tid(u));
    }
  }

  /** Recovery follows no entry to the location. */
  ghost predicate Unreferenced(s: State, l: nat) { forall id: nat :: !Leads(s, id, l) }

  lemma DirtyUnreferenced(s: State, l: nat)
    requires Safe(s) && l in s.slots && !s.slots[l].phase.Clean?
    ensures Unreferenced(s, l)
  {
    forall id: nat ensures Leads(s, id, l) ==> Good(s, id, l) { }
  }

  lemma StoreSafe(s: State, s': State, l: nat, m: SlotMem)
    requires Safe(s) && Unreferenced(s, l)
    requires s'.slots == s.slots[l := m] && s'.cells == s.cells && s'.published == s.published && s'.queue == s.queue && s'.ckpt == s.ckpt
    ensures Safe(s')
  {
    forall id, x | Leads(s', id, x) ensures Good(s', id, x) {
      assert Leads(s, id, x) && Good(s, id, x);
    }
    forall id, x | Referenced(s', id, x) && id in s'.published ensures Readable(id, x) { assert Referenced(s, id, x); }
  }

  lemma BeginKeeps(s: State, t: nat, x: nat, ns: seq<nat>, locs: seq<nat>)
    requires Inv(s) && Enabled(s, t, Begin(x, ns, locs))
    ensures Inv(Next(s, t, Begin(x, ns, locs))) && (Safe(s) ==> Safe(Next(s, t, Begin(x, ns, locs))))
  {
    var s' := Next(s, t, Begin(x, ns, locs));
    forall u | 0 <= u < |s.threads| && u != t && s.threads[u].Insert? ensures Calm(s, s', s.threads[u], Tid(u)) {
      assert ThreadOk(s, s.threads[u], Tid(u));
    }
    OthersKept(s, s', t);
    forall a, b | 0 <= a < b < |s'.threads| && s'.threads[a].Insert? && s'.threads[b].Insert?
      ensures Apart(s'.threads[a], s'.threads[b])
    {
      if a == t { assert Active(s, b); }
      if b == t { assert Active(s, a); }
      if a != t && b != t { assert Apart(s.threads[a], s.threads[b]); }
    }
    if Safe(s) {
      forall id, l | Leads(s', id, l) ensures Good(s', id, l) { assert Leads(s, id, l) && Good(s, id, l); }
      forall id, l | Referenced(s', id, l) && id in s'.published ensures Readable(id, l) { assert Referenced(s, id, l); }
    }
  }

  lemma TargetKeeps(s: State, t: nat)
    requires Inv(s) && Enabled(s, t, StoreTarget)
    ensures Inv(Next(s, t, StoreTarget))
    ensures Safe(s) && Unreferenced(s, s.threads[t].locs[|s.threads[t].ns|]) ==> Safe(Next(s, t, StoreTarget))
  {
    var th := s.threads[t];
    var l, m := th.locs[|th.ns|], SlotMem(Node(th.x, th.ns), Flushed(Tid(t)));
    var s' := Next(s, t, StoreTarget);
    assert ThreadOk(s, th, Tid(t));
    StoreOthers(s, s', t, l, m);
    OthersKept(s, s', t);
    StillExclusive(s.threads, t, s'.threads[t]);
    if Safe(s) && Unreferenced(s, l) { StoreSafe(s, s', l, m); }
  }

  lemma CopyKeeps(s: State, t: nat, nbrs: seq<nat>)
    requires Inv(s) && Enabled(s, t, StoreCopy(nbrs))
    ensures Inv(Next(s, t, StoreCopy(nbrs)))
    ensures Safe(s) && Unreferenced(s, s.threads[t].locs[s.threads[t].pc.i]) ==> Safe(Next(s, t, StoreCopy(nbrs)))
  {
    var th := s.threads[t];
    var i := th.pc.i;
    var l, m := th.locs[i], SlotMem(Node(th.ns[i], nbrs), Stored(Tid(t)));
    var s' := Next(s, t, StoreCopy(nbrs));
    assert ThreadOk(s, th, Tid(t));
    StoreOthers(s, s', t, l, m);
    forall k | 0 <= k < i + 1 ensures Version(s', th.locs[k], th.ns[k], th.x, Stored(Tid(t))) {
      if k < i { assert Version(s, th.locs[k], th.ns[k], th.x, Stored(Tid(t))); }
    }
    OthersKept(s, s', t);
    StillExclusive(s.threads, t, s'.threads[t]);
    if Safe(s) && Unreferenced(s, l) { StoreSafe(s, s', l, m); }
  }

  lemma FlushKeeps(s: State, t: nat)
    requires Inv(s) && Enabled(s, t, FlushCopy)
    ensures Inv(Next(s, t, FlushCopy)) && (Safe(s) ==> Safe(Next(s, t, FlushCopy)))
  {
    var th := s.threads[t];
    var i := th.pc.i;
    var l := th.locs[i];
    assert ThreadOk(s, th, Tid(t));
    assert Version(s, l, th.ns[i], th.x, Stored(Tid(t)));
    var m := SlotMem(s.slots[l].node, Flushed(Tid(t)));
    var s' := Next(s, t, FlushCopy);
    StoreOthers(s, s', t, l, m);
    forall k | 0 <= k < i + 1 ensures Version(s', th.locs[k], th.ns[k], th.x, Flushed(Tid(t))) {
      if k < i { assert Version(s, th.locs[k], th.ns[k], th.x, Flushed(Tid(t))); }
    }
    forall k | i + 1 <= k < |th.ns| ensures Version(s', th.locs[k], th.ns[k], th.x, Stored(Tid(t))) {
      assert Version(s, th.locs[k], th.ns[k], th.x, Stored(Tid(t)));
    }
    OthersKept(s, s', t);
    StillExclusive(s.threads, t, s'.threads[t]);
    if Safe(s) {
      DirtyUnreferenced(s, l);
      StoreSafe(s, s', l, m);
    }
  }

  lemma FencedHolds(c: Cell, tid: nat, l: nat)
    ensures Holds(FencedCell(c, tid), l) ==> Holds(c, l)
    ensures c.start.Some? ==> FencedCell(c, tid).start.Some?
  {
    var n := LastBy(c.later, tid);
    if n > 0 && Holds(FencedCell(c, tid), l) {
      if c.later[n - 1].loc != l {
        var i :| 0 <= i < |c.later[n..]| && c.later[n..][i].loc == l;
        assert c.later[n + i].loc == l;
      }
    }
  }

  lemma StoredHolds(cells: map<nat, Cell>, id: nat, loc: nat, tid: nat, y: nat, l: nat)
    ensures Possible(StoreCell(cells, id, loc, tid), y, l) <==> Possible(cells, y, l) || (y == id && l == loc)
    ensures MaybeUnset(StoreCell(cells, id, loc, tid), y) <==> MaybeUnset(cells, y)
  {
    var c := if id in cells then cells[id] else Cell(None, []);
    var d := Cell(c.start, c.later + [Write(loc, tid)]);
    if y == id {
      assert d.later[|c.later|].loc == loc;
      if Holds(c, l) && c.start != Some(l) {
        var i :| 0 <= i < |c.later| && c.later[i].loc == l;
        assert d.later[i].loc == l;
      }
    }
  }

  /** A store to the entry of an id that was loaded before, or may be absent and makes no gap. */
  lemma StoreGaps(cells: map<nat, Cell>, id: nat, loc: nat, tid: nat, ckpt: nat)
    requires NoGaps(cells, ckpt) && (Readable(id, loc) || MaybeUnset(cells, id))
    requires Readable(id, loc) ==> MayLoad(cells, id) || PresentFrom(cells, ckpt, id)
    ensures NoGaps(StoreCell(cells, id, loc, tid), ckpt)
  {
    var cells' := StoreCell(cells, id, loc, tid);
    forall x: nat | MayLoad(cells', x) ensures PresentFrom(cells', ckpt, x) {
      var l: nat :| Possible(cells', x, l) && Readable(x, l);
      StoredHolds(cells, id, loc, tid, x, l);
      assert PresentFrom(cells, ckpt, x);
      forall y: nat | ckpt <= y < x ensures Present(cells', y) {
        StoredHolds(cells, id, loc, tid, y, 0);
        assert Present(cells, y);
      }
    }
  }

  lemma PublishedLoads(s: State, id: nat)
    requires Safe(s) && PublishedSet(s) && id in s.published
    ensures MayLoad(s.cells, id)
  {
    var l := s.cells[id].start.value;
    assert Possible(s.cells, id, l) && Referenced(s, id, l) && Readable(id, l);
  }

  /** A new reference to a good record, or one that recovery does not follow. */
  lemma EntrySafe(s: State, s': State, id: nat, loc: nat, tid: nat)
    requires Safe(s) && (Readable(id, loc) ==> Good(s, id, loc)) && (id in s.published ==> Readable(id, loc))
    requires s'.cells == StoreCell(s.cells, id, loc, tid) && NoGaps(s'.cells, s.ckpt) && s'.ckpt == s.ckpt
    requires s'.slots == s.slots && s'.published == s.published && forall p :: p in s'.queue ==> p in s.queue
    ensures Safe(s')
  {
    forall y, l | Referenced(s', y, l) ensures Referenced(s, y, l) || (y == id && l == loc) { StoredHolds(s.cells, id, loc, tid, y, l); }
    forall y, l | Leads(s', y, l) ensures Good(s', y, l) {
      assert Leads(s, y, l) || (y == id && l == loc);
      assert Good(s, y, l);
    }
  }

  lemma StillSet(s: State, s': State, id: nat, loc: nat, tid: nat)
    requires PublishedSet(s) && s'.published == s.published && s'.cells == StoreCell(s.cells, id, loc, tid)
    ensures PublishedSet(s')
  {
    forall y | y in s'.published ensures !MaybeUnset(s'.cells, y) { StoredHolds(s.cells, id, loc, tid, y, loc); }
  }

  /** A location entry of a published id, or of the thread's own id, is stored. */
  lemma EntryOthers(s: State, s': State, t: nat, id: nat, loc: nat, tid: nat)
    requires Inv(s) && s'.slots == s.slots && s'.published == s.published && s'.covers == s.covers
    requires s'.cells == StoreCell(s.cells, id, loc, tid)
    requires id in s.published || (Active(s, t) && id == s.threads[t].x)
    requires |s'.threads| == |s.threads| && forall u :: 0 <= u < |s.threads| && u != t ==> s'.threads[u] == s.threads[u]
    ensures Others(s, s', t)
  {
    forall u | 0 <= u < |s.threads| && u != t && s.threads[u].Insert? ensures Calm(s, s', s.threads[u], Tid(u)) {
      assert ThreadOk(s, s.threads[u], Tid(u));
      if id !in s.published { ApartFrom(s, t, u); }
    }
  }

  /** If recovery can follow the new node's entry at all, its record is covered by its flush, and
      every id that recovery looks up before it has a persistent entry. */
  ghost predicate EntryGuard(s: State, th: Thread)
    requires th.Insert?
  {
    && |th.ns| < |th.locs|
    && (th.locs[|th.ns|] != 0 ==> s.covers(th.locs[|th.ns|], Node(th.x, th.ns)) && PresentFrom(s.cells, s.ckpt, th.x))
  }

  /** The new node is not at location 0. */
  ghost predicate FenceGuard(th: Thread)
    requires th.Insert?
  {
    th.pc.Fence2? ==> |th.ns| < |th.locs| && th.locs[|th.ns|] != 0
  }

  /** The next neighbour's new version is covered by its flush and not at location 0, unless it is
      id 0. */
  ghost predicate PublishGuard(s: State, th: Thread)
    requires th.Insert? && th.pc.Publish?
  {
    var i := th.pc.i;
    i < |th.ns| && i < |th.locs| && th.locs[i] in s.slots ==>
      Readable(th.ns[i], th.locs[i]) && s.covers(th.locs[i], s.slots[th.locs[i]].node)
  }

  lemma EntryKeeps(s: State, t: nat)
    requires Inv(s) && Enabled(s, t, StoreEntry)
    ensures Inv(Next(s, t, StoreEntry)) && (Safe(s) && EntryGuard(s, s.threads[t]) ==> Safe(Next(s, t, StoreEntry)))
  {
    var th := s.threads[t];
    var l := th.locs[|th.ns|];
    var s' := Next(s, t, StoreEntry);
    assert ThreadOk(s, th, Tid(t));
    EntryOthers(s, s', t, th.x, l, Tid(t));
    assert s'.cells[th.x] == Cell(None, [Write(l, Tid(t))]);
    assert forall k :: 0 <= k < |th.ns| && Version(s, th.locs[k], th.ns[k], th.x, Stored(Tid(t))) ==> Version(s', th.locs[k], th.ns[k], th.x, Stored(Tid(t)));
    OthersKept(s, s', t);
    StillExclusive(s.threads, t, s'.threads[t]);
    StillSet(s, s', th.x, l, Tid(t));
    if Safe(s) && EntryGuard(s, th) {
      StoreGaps(s.cells, th.x, l, Tid(t), s.ckpt);
      EntrySafe(s, s', th.x, l, Tid(t));
    }
  }

  lemma CommitStoreKeeps(s: State, t: nat, k: nat)
    requires Inv(s) && Enabled(s, t, CommitStore(k))
    ensures Inv(Next(s, t, CommitStore(k))) && (Safe(s) ==> Safe(Next(s, t, CommitStore(k))))
  {
    var (id, l) := s.queue[k];
    var s' := Next(s, t, CommitStore(k));
    EntryOthers(s, s', |s.threads|, id, l, COMMIT);
    OthersKept(s, s', |s.threads|);
    StillSet(s, s', id, l, COMMIT);
    assert forall p :: p in s'.queue ==> p in s.queue;
    if Safe(s) {
      assert Referenced(s, id, l) && s.queue[k].0 in s.published;
      assert Leads(s, id, l) && Good(s, id, l);
      PublishedLoads(s, id);
      StoreGaps(s.cells, id, l, COMMIT, s.ckpt);
      EntrySafe(s, s', id, l, COMMIT);
    }
  }

  lemma PublishKeeps(s: State, t: nat, queued: bool)
    requires Inv(s) && Enabled(s, t, DoPublish(queued))
    ensures Inv(Next(s, t, DoPublish(queued)))
    ensures Safe(s) && PublishGuard(s, s.threads[t]) ==> Safe(Next(s, t, DoPublish(queued)))
  {
    var th := s.threads[t];
    var i := th.pc.i;
    var s' := Next(s, t, DoPublish(queued));
    assert ThreadOk(s, th, Tid(t));
    StillExclusive(s.threads, t, s'.threads[t]);
    if i == |th.ns| || queued {
      forall u | 0 <= u < |s.threads| && u != t && s.threads[u].Insert? ensures Calm(s, s', s.threads[u], Tid(u)) {
        assert ThreadOk(s, s.threads[u], Tid(u));
      }
    } else {
      EntryOthers(s, s', t, th.ns[i], th.locs[i], Tid(t));
      StillSet(s, s', th.ns[i], th.locs[i], Tid(t));
    }
    assert forall k :: 0 <= k < |th.ns| && FencedVersion(s, th.locs[k], th.ns[k], th.x, Tid(t)) ==> FencedVersion(s', th.locs[k], th.ns[k], th.x, Tid(t));
    OthersKept(s, s', t);
    if Safe(s) && PublishGuard(s, th) { PublishSafe(s, t, queued); }
  }

  lemma PublishSafe(s: State, t: nat, queued: bool)
    requires Inv(s) && Enabled(s, t, DoPublish(queued)) && Safe(s) && PublishGuard(s, s.threads[t])
    ensures Safe(Next(s, t, DoPublish(queued)))
  {
    var th := s.threads[t];
    var i := th.pc.i;
    var s' := Next(s, t, DoPublish(queued));
    assert ThreadOk(s, th, Tid(t));
    if i < |th.ns| {
      assert FencedVersion(s, th.locs[i], th.ns[i], th.x, Tid(t));
      assert Good(s, th.ns[i], th.locs[i]);
      if !queued {
        assert th.ns[i] in th.ns;
        PublishedLoads(s, th.ns[i]);
        StoreGaps(s.cells, th.ns[i], th.locs[i], Tid(t), s.ckpt);
        EntrySafe(s, s', th.ns[i], th.locs[i], Tid(t));
      }
    }
    if i == |th.ns| || queued {
      forall y, l | Referenced(s', y, l) ensures Referenced(s, y, l) || (i < |th.ns| && y == th.ns[i] && l == th.locs[i]) { }
      forall y, l | Leads(s', y, l) ensures Good(s', y, l) {
        assert Leads(s, y, l) || (i < |th.ns| && y == th.ns[i] && l == th.locs[i]);
        assert Good(s, y, l);
      }
    }
  }

  /** A fence by thread tid, with the ids that become published by it. */
  ghost predicate Fenced(s: State, s': State, tid: nat) {
    && s'.slots == FenceSlots(s.slots, tid, s.covers) && s'.cells == FenceCells(s.cells, tid)
    && s'.queue == s.queue && s.published <= s'.published && s'.covers == s.covers && s'.ckpt == s.ckpt
  }

  lemma FenceGaps(cells: map<nat, Cell>, tid: nat, ckpt: nat)
    requires NoGaps(cells, ckpt)
    ensures NoGaps(FenceCells(cells, tid), ckpt)
  {
    var cells' := FenceCells(cells, tid);
    forall x: nat | MayLoad(cells', x) ensures PresentFrom(cells', ckpt, x) {
      var l: nat :| Possible(cells', x, l) && Readable(x, l);
      FencedHolds(cells[x], tid, l);
      assert Possible(cells, x, l) && MayLoad(cells, x) && PresentFrom(cells, ckpt, x);
      forall y: nat | ckpt <= y < x ensures Present(cells', y) {
        assert Present(cells, y);
        FencedHolds(cells[y], tid, 0);
      }
    }
  }

  lemma FencedReferences(s: State, s': State, tid: nat, y: nat, l: nat)
    requires Fenced(s, s', tid)
    ensures Referenced(s', y, l) ==> Referenced(s, y, l)
  {
    if y in s.cells { FencedHolds(s.cells[y], tid, l); }
  }

  lemma FenceSafe(s: State, s': State, tid: nat)
    requires Safe(s) && Fenced(s, s', tid)
    requires forall y, l :: y in s'.published && y !in s.published && Referenced(s', y, l) ==> Readable(y, l)
    ensures Safe(s')
  {
    forall y: nat, l: nat ensures Referenced(s', y, l) ==> Referenced(s, y, l) { FencedReferences(s, s', tid, y, l); }
    FenceGaps(s.cells, tid, s.ckpt);
    forall y, l | Leads(s', y, l) ensures Good(s', y, l) {
      assert Leads(s, y, l) && Good(s, y, l);
    }
  }

  lemma FenceOthers(s: State, s': State, t: nat, tid: nat)
    requires Inv(s) && Fenced(s, s', tid) && tid == (if t < |s.threads| then Tid(t) else COMMIT)
    requires |s'.threads| == |s.threads| && forall u :: 0 <= u < |s.threads| && u != t ==> s'.threads[u] == s.threads[u]
    requires forall y :: y in s'.published && y !in s.published ==> Active(s, t) && y == s.threads[t].x
    ensures Others(s, s', t)
  {
    forall u | 0 <= u < |s.threads| && u != t && s.threads[u].Insert? ensures Calm(s, s', s.threads[u], Tid(u)) {
      var x := s.threads[u].x;
      assert ThreadOk(s, s.threads[u], Tid(u));
      if Active(s, t) { ApartFrom(s, t, u); }
      if EntryAlone(s, x, Tid(u)) { assert LastBy(s.cells[x].later, tid) == 0; }
    }
  }

  lemma FencePublished(s: State, s': State, tid: nat, y: nat)
    requires PublishedSet(s) && Fenced(s, s', tid) && y in s.published
    ensures !MaybeUnset(s'.cells, y)
  {
    FencedHolds(s.cells[y], tid, 0);
  }

  lemma CommitFenceKeeps(s: State, t: nat)
    requires Inv(s)
    ensures Inv(Next(s, t, CommitFence)) && (Safe(s) ==> Safe(Next(s, t, CommitFence)))
  {
    var s' := Next(s, t, CommitFence);
    FenceOthers(s, s', |s.threads|, COMMIT);
    OthersKept(s, s', |s.threads|);
    forall y | y in s'.published ensures !MaybeUnset(s'.cells, y) { FencePublished(s, s', COMMIT, y); }
    if Safe(s) { FenceSafe(s, s', COMMIT); }
  }

  lemma FenceOwn(s: State, t: nat)
    requires Inv(s) && Enabled(s, t, DoFence)
    ensures var s' := Next(s, t, DoFence); ThreadOk(s', s'.threads[t], Tid(t))
    ensures s.threads[t].pc == Fence2 ==>
      s.threads[t].x in Next(s, t, DoFence).cells && Next(s, t, DoFence).cells[s.threads[t].x] == Cell(Some(s.threads[t].locs[|s.threads[t].ns|]), [])
  {
    var th := s.threads[t];
    var s' := Next(s, t, DoFence);
    assert ThreadOk(s, th, Tid(t));
    if th.pc == Fence2 {
      assert LastBy(s.cells[th.x].later, Tid(t)) == 1;
      forall k | 0 <= k < |th.ns| ensures FencedVersion(s', th.locs[k], th.ns[k], th.x, Tid(t)) {
        assert Version(s, th.locs[k], th.ns[k], th.x, Flushed(Tid(t)));
      }
    }
  }

  lemma FenceKeeps(s: State, t: nat)
    requires Inv(s) && Enabled(s, t, DoFence)
    ensures Inv(Next(s, t, DoFence)) && (Safe(s) && FenceGuard(s.threads[t]) ==> Safe(Next(s, t, DoFence)))
  {
    var s' := Next(s, t, DoFence);
    FenceOwn(s, t);
    FenceOthers(s, s', t, Tid(t));
    OthersKept(s, s', t);
    StillExclusive(s.threads, t, s'.threads[t]);
    forall y | y in s'.published ensures !MaybeUnset(s'.cells, y) {
      if y in s.published { FencePublished(s, s', Tid(t), y); }
    }
    if Safe(s) && FenceGuard(s.threads[t]) {
      assert ThreadOk(s, s.threads[t], Tid(t));
      FenceSafe(s, s', Tid(t));
    }
  }

  // ---------------------------------------------------------------- whole runs

  /** What must hold before a step, beyond the protocol itself: a record store avoids every location
      that recovery may follow an entry to; an entry is stored or queued only for a record that
      its flush covers; a new entry is stored only once all ids from the checkpoint to its own
      have persistent ones; and only id 0 is put at location 0. */
  ghost predicate Guard(s: State, t: nat, a: Action) {
    && (forall l: nat :: StoresAt(s, t, a, l) ==> Unreferenced(s, l))
    && (a.StoreEntry? && Active(s, t) ==> EntryGuard(s, s.threads[t]))
    && (a.DoFence? && Active(s, t) ==> FenceGuard(s.threads[t]))
    && (a.DoPublish? && Active(s, t) && s.threads[t].pc.Publish? ==> PublishGuard(s, s.threads[t]))
  }

  lemma StepInv(s: State, t: nat, a: Action)
    requires Inv(s) && Enabled(s, t, a)
    ensures Inv(Next(s, t, a))
    ensures Safe(s) && Guard(s, t, a) ==> Safe(Next(s, t, a))
  {
    match a
    case Begin(x, ns, locs) => BeginKeeps(s, t, x, ns, locs);
    case StoreTarget =>
      TargetKeeps(s, t);
      assert StoresAt(s, t, a, s.threads[t].locs[|s.threads[t].ns|]);
    case DoFence => FenceKeeps(s, t);
    case StoreCopy(nbrs) =>
      CopyKeeps(s, t, nbrs);
      assert StoresAt(s, t, a, s.threads[t].locs[s.threads[t].pc.i]);
    case StoreEntry => EntryKeeps(s, t);
    case FlushCopy => FlushKeeps(s, t);
    case DoPublish(queued) => PublishKeeps(s, t, queued);
    case CommitStore(k) => CommitStoreKeeps(s, t, k);
    case CommitFence => CommitFenceKeeps(s, t);
  }

  /** A crash here, or right after the commit thread's next store, leaves a consistent index. */
  ghost predicate CommitSafe(s: State) {
    CrashSafe(s) && forall k :: 0 <= k < |s.queue| ==> CrashSafe(Committed(s, k))
  }

  function Committed(s: State, k: nat): State
    requires k < |s.queue|
  {
    s.(cells := StoreCell(s.cells, s.queue[k].0, s.queue[k].1, COMMIT), queue := s.queue[..k] + s.queue[k + 1..])
  }

  lemma SafeIsCrashSafe(s: State)
    requires Inv(s) && Safe(s)
    ensures CrashSafe(s)
  {
    forall file, records | IsImage(s, file, records) ensures Consistent(file, records, s.published, s.ckpt) { SafeImages(s, file, records); }
  }

  lemma SafeIsCommitSafe(s: State)
    requires Inv(s) && Safe(s)
    ensures CommitSafe(s)
  {
    SafeIsCrashSafe(s);
    forall k | 0 <= k < |s.queue| ensures CrashSafe(Committed(s, k)) {
      CommitStoreKeeps(s, 0, k);
      assert Next(s, 0, CommitStore(k)) == Committed(s, k);
      SafeIsCrashSafe(Committed(s, k));
    }
  }

  /** A reference, written or queued, to a record that is not persistent. */
  lemma DirtyReference(s: State, id: nat, l: nat)
    requires Leads(s, id, l) && l in s.slots && !s.slots[l].phase.Clean?
    ensures !CommitSafe(s)
  {
    if Possible(s.cells, id, l) {
      DirtyImage(s, id, l);
    } else {
      var k :| 0 <= k < |s.queue| && s.queue[k] == (id, l);
      StoredHolds(s.cells, id, l, COMMIT, id, l);
      DirtyImage(Committed(s, k), id, l);
    }
  }

  /** A reference of a published id, written or queued, that recovery takes for absent. */
  lemma LostReference(s: State, id: nat)
    requires Referenced(s, id, 0) && id != 0 && id in s.published
    ensures !CommitSafe(s)
  {
    if Possible(s.cells, id, 0) {
      LostImage(s, id);
    } else {
      var k :| 0 <= k < |s.queue| && s.queue[k] == (id, 0);
      StoredHolds(s.cells, id, 0, COMMIT, id, 0);
      LostImage(Committed(s, k), id);
    }
  }

  /** A record stored where recovery may follow an entry. */
  lemma ReuseTears(s: State, t: nat, a: Action, l: nat, id: nat)
    requires ShapeOk(s) && Enabled(s, t, a) && StoresAt(s, t, a, l) && Leads(s, id, l)
    ensures !CommitSafe(Next(s, t, a))
  {
    DirtyReference(Next(s, t, a), id, l);
  }

  /** An entry for a record that its flush does not cover. */
  lemma UncoveredEntryTears(s: State, t: nat)
    requires Inv(s) && Enabled(s, t, StoreEntry)
    requires var l := s.threads[t].locs[|s.threads[t].ns|]; l != 0 && !s.covers(l, Node(s.threads[t].x, s.threads[t].ns))
    ensures !CommitSafe(Next(s, t, StoreEntry))
  {
    var th := s.threads[t];
    assert ThreadOk(s, th, Tid(t));
    var l := th.locs[|th.ns|];
    StoredHolds(s.cells, th.x, l, Tid(t), th.x, l);
    DirtyReference(Next(s, t, StoreEntry), th.x, l);
  }

  /** An entry that recovery may load while it may miss a smaller id that it looks up first. */
  lemma EarlyEntryStops(s: State, t: nat)
    requires Inv(s) && Enabled(s, t, StoreEntry)
    requires s.threads[t].locs[|s.threads[t].ns|] != 0 && !PresentFrom(s.cells, s.ckpt, s.threads[t].x)
    ensures !CommitSafe(Next(s, t, StoreEntry))
  {
    var th, s' := s.threads[t], Next(s, t, StoreEntry);
    var l := th.locs[|th.ns|];
    var y: nat :| s.ckpt <= y < th.x && !Present(s.cells, y);
    StoredHolds(s.cells, th.x, l, Tid(t), th.x, l);
    StoredHolds(s.cells, th.x, l, Tid(t), y, 0);
    assert !MaybeUnset(s.cells, 0);
    GapImage(s', th.x, y);
  }

  /** A new node at location 0 is lost once its insert is past the second fence. */
  lemma LocationZeroLoses(s: State, t: nat)
    requires Inv(s) && Enabled(s, t, DoFence) && !FenceGuard(s.threads[t])
    ensures !CommitSafe(Next(s, t, DoFence))
  {
    var th := s.threads[t];
    assert ThreadOk(s, th, Tid(t));
    FenceOwn(s, t);
    LostReference(Next(s, t, DoFence), th.x);
  }

  /** A neighbour published at location 0, or with a version that its flush does not cover. */
  lemma BadPublish(s: State, t: nat, queued: bool)
    requires Inv(s) && Enabled(s, t, DoPublish(queued)) && !PublishGuard(s, s.threads[t])
    ensures !CommitSafe(Next(s, t, DoPublish(queued)))
  {
    var th := s.threads[t];
    assert ThreadOk(s, th, Tid(t));
    var id, l := th.ns[th.pc.i], th.locs[th.pc.i];
    var s' := Next(s, t, DoPublish(queued));
    StoredHolds(s.cells, id, l, Tid(t), id, l);
    assert FencedVersion(s, l, id, th.x, Tid(t)) && Referenced(s', id, l) && id in th.ns;
    if Readable(id, l) { DirtyReference(s', id, l); } else { LostReference(s', id); }
  }

  /** A step from a safe state leads to a safe one, and to one that a crash cannot harm, exactly if
      its guard holds. */
  lemma SafeExactly(s: State, t: nat, a: Action)
    requires Inv(s) && Safe(s) && Enabled(s, t, a)
    ensures Safe(Next(s, t, a)) <==> Guard(s, t, a)
    ensures CommitSafe(Next(s, t, a)) <==> Guard(s, t, a)
  {
    StepInv(s, t, a);
    if Safe(Next(s, t, a)) { SafeIsCommitSafe(Next(s, t, a)); }
    if !Guard(s, t, a) { UnguardedFails(s, t, a); }
  }

  lemma UnguardedFails(s: State, t: nat, a: Action)
    requires Inv(s) && Enabled(s, t, a) && !Guard(s, t, a)
    ensures !CommitSafe(Next(s, t, a))
  {
    if l: nat :| StoresAt(s, t, a, l) && !Unreferenced(s, l) {
      var id: nat :| Leads(s, id, l);
      ReuseTears(s, t, a, l, id);
    } else if a.StoreEntry? {
      assert ThreadOk(s, s.threads[t], Tid(t));
      if PresentFrom(s.cells, s.ckpt, s.threads[t].x) { UncoveredEntryTears(s, t); } else { EarlyEntryStops(s, t); }
    } else if a.DoFence? {
      LocationZeroLoses(s, t);
    } else {
      BadPublish(s, t, a.queued);
    }
  }

  type Steps = seq<(nat, Action)>

  ghost predicate IsRun(s: State, steps: Steps)
    decreases |steps|
  {
    steps == [] || (ShapeOk(s) && Enabled(s, steps[0].0, steps[0].1) && IsRun(Next(s, steps[0].0, steps[0].1), steps[1..]))
  }

  ghost predicate AllGuarded(s: State, steps: Steps)
    requires IsRun(s, steps)
    decreases |steps|
  {
    steps == [] || (Guard(s, steps[0].0, steps[0].1) && AllGuarded(Next(s, steps[0].0, steps[0].1), steps[1..]))
  }

  ghost predicate AllCommitSafe(s: State, steps: Steps)
    requires IsRun(s, steps)
    decreases |steps|
  {
    CommitSafe(s) && (steps == [] || AllCommitSafe(Next(s, steps[0].0, steps[0].1), steps[1..]))
  }

  /** A crash at any moment of a run leaves a consistent index, if and only if every step of the run
      is guarded; for every interleaving, with stored and with queued entries. */
  lemma {:induction false} SurvivesExactly(s: State, steps: Steps)
    requires Inv(s) && Safe(s) && IsRun(s, steps)
    ensures AllCommitSafe(s, steps) <==> AllGuarded(s, steps)
    decreases |steps|
  {
    SafeIsCommitSafe(s);
    if steps != [] {
      var (t, a) := steps[0];
      SafeExactly(s, t, a);
      StepInv(s, t, a);
      if Guard(s, t, a) { SurvivesExactly(Next(s, t, a), steps[1..]); } else { assert !AllCommitSafe(Next(s, t, a), steps[1..]); }
    }
  }

  ghost function Final(s: State, steps: Steps): State
    requires IsRun(s, steps)
    decreases |steps|
  {
    if steps == [] then s else Final(Next(s, steps[0].0, steps[0].1), steps[1..])
  }

  /** In every state that a guarded run reaches, every crash image is consistent. */
  lemma {:induction false} SurvivesCrashes(s: State, steps: Steps)
    requires Inv(s) && Safe(s) && IsRun(s, steps) && AllGuarded(s, steps)
    ensures Inv(Final(s, steps)) && Safe(Final(s, steps)) && CrashSafe(Final(s, steps))
    decreases |steps|
  {
    if steps == [] {
      SafeIsCrashSafe(s);
    } else {
      StepInv(s, steps[0].0, steps[0].1);
      SurvivesCrashes(Next(s, steps[0].0, steps[0].1), steps[1..]);
    }
  }

  /** A loaded index without inserts in progress is a starting point. */
  lemma InitInv(s: State)
    requires (forall t :: 0 <= t < |s.threads| ==> s.threads[t].Idle?) && s.queue == []
    requires 0 in s.published && forall id :: id in s.published <==> id in s.cells
    requires forall id :: id in s.cells ==> s.cells[id].start.Some? && s.cells[id].later == []
    requires forall id :: id in s.cells ==> Readable(id, s.cells[id].start.value) && Good(s, id, s.cells[id].start.value)
    requires forall id, y: nat :: id in s.cells && s.ckpt <= y < id ==> y in s.cells
    ensures Inv(s) && Safe(s)
  {
    forall id: nat | MayLoad(s.cells, id) ensures PresentFrom(s.cells, s.ckpt, id) { assert id in s.cells; }
    forall id: nat, l: nat | Referenced(s, id, l) ensures Good(s, id, l) && Readable(id, l) {
      assert s.cells[id].start == Some(l);
    }
  }

  // ---------------------------------------------------------------- an insert that runs alone

  ghost predicate Doing(e: State, t: nat, x: nat, ns: seq<nat>, locs: seq<nat>, pc: Pc) {
    Inv(e) && t < |e.threads| && e.threads[t] == Insert(x, ns, locs, pc)
  }

  /** Slots keep their records. */
  ghost predicate SameNodes(e: State, f: State) { forall l :: l in e.slots ==> l in f.slots && f.slots[l].node == e.slots[l].node }

  /** What a finished insert leaves: the new id is published and leads to its record, which names its
      neighbours, and every neighbour leads to its new version. */
  ghost predicate Finished(e: State, f: State, t: nat, x: nat, ns: seq<nat>, locs: seq<nat>, i: nat)
    requires i <= |ns| < |locs|
  {
    && SameNodes(e, f) && t < |f.threads| && f.threads[t].Idle? && f.published == e.published + {x}
    && (forall k :: i <= k < |ns| ==> ns[k] in f.current && f.current[ns[k]] == locs[k])
    && (forall id :: id in e.current && id !in ns[i..] ==> id in f.current && f.current[id] == e.current[id])
  }

  lemma {:induction false} PublishAll(e: State, t: nat, x: nat, ns: seq<nat>, locs: seq<nat>, i: nat, queued: bool) returns (steps: Steps)
    requires i <= |ns| < |locs| && Distinct(ns) && Doing(e, t, x, ns, locs, Publish(i))
    ensures IsRun(e, steps) && Finished(e, Final(e, steps), t, x, ns, locs, i)
    decreases |ns| - i
  {
    var e' := Next(e, t, DoPublish(queued));
    StepInv(e, t, DoPublish(queued));
    steps := [];
    if i < |ns| {
      steps := PublishAll(e', t, x, ns, locs, i + 1, queued);
      assert ns[i..] == [ns[i]] + ns[i + 1..];
      assert ns[i] in e'.current && e'.current[ns[i]] == locs[i] && ns[i] !in ns[i + 1..];
    }
    steps := Prepend(e, t, DoPublish(queued), e', steps);
  }

  lemma {:induction false} FlushAll(e: State, t: nat, x: nat, ns: seq<nat>, locs: seq<nat>, i: nat, queued: bool) returns (steps: Steps)
    requires i <= |ns| < |locs| && Distinct(ns) && Doing(e, t, x, ns, locs, FlushPc(i, |ns|))
    ensures IsRun(e, steps) && Finished(e, Final(e, steps), t, x, ns, locs, 0)
    decreases |ns| - i
  {
    var a := if i < |ns| then FlushCopy else DoFence;
    var e' := Next(e, t, a);
    StepInv(e, t, a);
    if i < |ns| { steps := FlushAll(e', t, x, ns, locs, i + 1, queued); } else { steps := PublishAll(e', t, x, ns, locs, 0, queued); }
    assert SameNodes(e, e');
    steps := Prepend(e, t, a, e', steps);
  }

  /** The records that the insert has written. */
  ghost predicate Wrote(f: State, ns: seq<nat>, locs: seq<nat>, copies: seq<seq<nat>>, n: nat)
    requires n <= |ns| == |copies| < |locs|
  {
    forall k :: 0 <= k < n ==> locs[k] in f.slots && f.slots[locs[k]].node == Node(ns[k], copies[k])
  }

  lemma {:induction false} CopyAll(e: State, t: nat, x: nat, ns: seq<nat>, locs: seq<nat>, copies: seq<seq<nat>>, i: nat, queued: bool) returns (steps: Steps)
    requires i <= |ns| == |copies| < |locs| && Distinct(ns) && Doing(e, t, x, ns, locs, CopyPc(i, |ns|)) && Wrote(e, ns, locs, copies, i)
    requires x !in ns && forall k :: 0 <= k < |copies| ==> forall y :: y in copies[k] ==> y in e.published || y == x
    ensures IsRun(e, steps)
    ensures var f := Final(e, steps);
      && t < |f.threads| && f.threads[t].Idle? && f.published == e.published + {x} && Wrote(f, ns, locs, copies, |ns|)
      && x in f.current && f.current[x] == locs[|ns|] && (forall k :: 0 <= k < |ns| ==> ns[k] in f.current && f.current[ns[k]] == locs[k])
      && (locs[|ns|] in e.slots ==> locs[|ns|] in f.slots && f.slots[locs[|ns|]].node == e.slots[locs[|ns|]].node)
    decreases |ns| - i
  {
    assert ThreadOk(e, e.threads[t], Tid(t));
    if i < |ns| {
      var a := StoreCopy(copies[i]);
      var e' := Next(e, t, a);
      StepInv(e, t, a);
      steps := CopyAll(e', t, x, ns, locs, copies, i + 1, queued);
      steps := Prepend(e, t, a, e', steps);
    } else {
      var e' := Next(e, t, StoreEntry);
      StepInv(e, t, StoreEntry);
      steps := FlushAll(e', t, x, ns, locs, 0, queued);
      assert SameNodes(e', Final(e', steps)) && e'.current[x] == locs[|ns|] && ns[0..] == ns;
      steps := Prepend(e, t, StoreEntry, e', steps);
    }
  }

  /** An insert that runs alone, from any state of the protocol and for any copies of the neighbours'
      records, ends: the new id is published and leads to a record that names its neighbours, and
      each neighbour leads to its copy. */
  lemma FinishesAlone(s: State, t: nat, x: nat, ns: seq<nat>, locs: seq<nat>, copies: seq<seq<nat>>, queued: bool) returns (steps: Steps)
    requires Inv(s) && CanBegin(s, t, x, ns, locs) && Distinct(ns) && |copies| == |ns|
    requires forall k :: 0 <= k < |copies| ==> forall y :: y in copies[k] ==> y in s.published || y == x
    ensures IsRun(s, steps)
    ensures var f := Final(s, steps);
      && t < |f.threads| && f.threads[t].Idle? && f.published == s.published + {x} && Wrote(f, ns, locs, copies, |ns|)
      && x in f.current && f.current[x] == locs[|ns|] && (forall k :: 0 <= k < |ns| ==> ns[k] in f.current && f.current[ns[k]] == locs[k])
      && locs[|ns|] in f.slots && f.slots[locs[|ns|]].node == Node(x, ns)
  {
    var s1 := Next(s, t, Begin(x, ns, locs));
    StepInv(s, t, Begin(x, ns, locs));
    var s2 := Next(s1, t, StoreTarget);
    StepInv(s1, t, StoreTarget);
    var s3 := Next(s2, t, DoFence);
    StepInv(s2, t, DoFence);
    steps := CopyAll(s3, t, x, ns, locs, copies, 0, queued);
    steps := Prepend(s2, t, DoFence, s3, steps);
    steps := Prepend(s1, t, StoreTarget, s2, steps);
    steps := Prepend(s, t, Begin(x, ns, locs), s1, steps);
  }

  lemma Prepend(s: State, t: nat, a: Action, s': State, rest: Steps) returns (steps: Steps)
    requires StepsTo(s, t, a, s') && IsRun(s', rest)
    ensures IsRun(s, steps) && Final(s, steps) == Final(s', rest)
  {
    steps := [(t, a)] + rest;
    assert steps[1..] == rest;
  }

  // ---------------------------------------------------------------- flushing a record

  /** The cache lines that flush_dax writes back for `size` bytes from p on. */
  predicate LineFlushed(p: nat, size: nat, line: nat) { p / 64 <= line < p / 64 + (size + 63) / 64 }

  /** The condition under which the flush of a record with `size` bytes of vector and adjacency
      reaches the whole record, which also has a count word. */
  predicate FlushReaches(p: nat, size: nat) { p % 64 + size + 4 <= 64 * ((size + 63) / 64) }

  lemma FlushCoversRecord(p: nat, size: nat)
    ensures (forall a: nat :: p <= a < p + size + 4 ==> LineFlushed(p, size, a / 64)) <==> FlushReaches(p, size)
  {
    var last := p + size + 3;
    if forall a: nat :: p <= a < p + size + 4 ==> LineFlushed(p, size, a / 64) { assert LineFlushed(p, size, last / 64); }
  }

  /** Coverage of the records of a graph file; the file is mapped at a page boundary. */
  function FlushCovers(f: Relocation.Format): (nat, Node) -> bool {
    (l: nat, n: Node) => FlushReaches(f.OffsetOf(l), f.coordLen + 4 * |n.nbrs|)
  }

  /** A record of 128 floats and 32 neighbours is not covered, wherever it is. */
  lemma FlushMissesLastLine(f: Relocation.Format, l: nat, n: Node)
    requires f.coordLen == 512 && |n.nbrs| == 32
    ensures !FlushCovers(f)(l, n)
  {
    assert (640 + 63) / 64 == 10;
  }

  // ---------------------------------------------------------------- two runs that a crash harms

  /** The allocator's view: no id in DRAM points there, and no insert in progress has it. */
  ghost predicate FreeInDram(s: State, l: nat) {
    (forall id :: id in s.current ==> s.current[id] != l) && forall t: nat :: Active(s, t) ==> l !in s.threads[t].locs
  }

  /** Vectors of 512 floats and up to 96 neighbours, one node a sector. */
  function Wide(): (nat, Node) -> bool { FlushCovers(Relocation.Format(1, 2048, 96)) }

  /** There every record with one neighbour is covered. */
  lemma WideCovers(l: nat, n: Node)
    requires |n.nbrs| == 1
    ensures Wide()(l, n)
  {
    assert l % 1 == 0;
    AlignedRecord(Relocation.Format(1, 2048, 96).SectorOf(l));
  }

  lemma AlignedRecord(q: nat)
    ensures FlushReaches(q * Relocation.SECTOR_LEN, 2052)
  {
    assert (q * Relocation.SECTOR_LEN) % 64 == 0;
  }

  /** One point, id 0 at location 0; the first thread is idle. */
  function Small(other: Thread): State {
    State(Slots(1, None, None), Cells0(), {0}, [], [Idle, other], map[0 := 0], Wide(), 0)
  }

  /** Id x goes to location 2, and its neighbour, id 0, from 0 to 1. */
  function Slots(x: nat, v0: Option<Phase>, vx: Option<Phase>): map<nat, SlotMem> {
    var base := map[0 := SlotMem(Node(0, []), Clean)];
    var withX := if vx.Some? then base[2 := SlotMem(Node(x, [0]), vx.value)] else base;
    if v0.Some? then withX[1 := SlotMem(Node(0, [x]), v0.value)] else withX
  }

  /** Entries before and after the second fence, and after publishing. */
  function Cells0(): map<nat, Cell> { map[0 := Cell(Some(0), [])] }

  function Cells1(x: nat): map<nat, Cell> { Cells0()[x := Cell(None, [Write(2, 1)])] }

  function Cells2(x: nat, queued: bool): map<nat, Cell> {
    map[0 := Cell(Some(0), if queued then [] else [Write(1, 1)])][x := Cell(Some(2), [])]
  }

  function Queue1(queued: bool): seq<(nat, nat)> { if queued then [(0, 1)] else [] }

  function By(x: nat, pc: Pc, other: Thread): seq<Thread> { [Insert(x, [0], [1, 2], pc), other] }

  /** The insert of x by the first thread, step by step. */
  function Stage(n: nat, x: nat, queued: bool, other: Thread): State {
    var m0, m1 := map[0 := 0], map[0 := 0][x := 2];
    if n == 0 then Small(other)
    else if n == 1 then State(Slots(x, None, None), Cells0(), {0}, [], By(x, Target, other), m0, Wide(), 0)
    else if n == 2 then State(Slots(x, None, Some(Flushed(1))), Cells0(), {0}, [], By(x, Fence1, other), m0, Wide(), 0)
    else if n == 3 then State(Slots(x, None, Some(Clean)), Cells0(), {0}, [], By(x, Copy(0), other), m0, Wide(), 0)
    else if n == 4 then State(Slots(x, Some(Stored(1)), Some(Clean)), Cells0(), {0}, [], By(x, Entry, other), m0, Wide(), 0)
    else if n == 5 then State(Slots(x, Some(Stored(1)), Some(Clean)), Cells1(x), {0}, [], By(x, Flush(0), other), m1, Wide(), 0)
    else if n == 6 then State(Slots(x, Some(Flushed(1)), Some(Clean)), Cells1(x), {0}, [], By(x, Fence2, other), m1, Wide(), 0)
    else if n == 7 then State(Slots(x, Some(Clean), Some(Clean)), Cells2(x, true), {0, x}, [], By(x, Publish(0), other), m1, Wide(), 0)
    else if n == 8 then
      State(Slots(x, Some(Clean), Some(Clean)), Cells2(x, queued), {0, x}, Queue1(queued), By(x, Publish(1), other), m1[0 := 1], Wide(), 0)
    else Grown(x, queued, other)
  }

  /** The index after that insert. */
  function Grown(x: nat, queued: bool, other: Thread): State {
    State(Slots(x, Some(Clean), Some(Clean)), Cells2(x, queued), {0, x}, Queue1(queued), [Idle, other], map[0 := 0][x := 2][0 := 1], Wide(), 0)
  }

  function Act(n: nat, x: nat, queued: bool): Action {
    if n == 0 then Begin(x, [0], [1, 2]) else if n == 1 then StoreTarget else if n == 2 || n == 6 then DoFence
    else if n == 3 then StoreCopy([x]) else if n == 4 then StoreEntry else if n == 5 then FlushCopy else DoPublish(queued)
  }

  ghost predicate StepsTo(s: State, t: nat, a: Action, s': State) { ShapeOk(s) && Enabled(s, t, a) && Next(s, t, a) == s' }

  /** What the second thread may be doing meanwhile: nothing, or starting with another id. */
  ghost predicate Beside(other: Thread, x: nat) {
    x > 0 && (other.Idle? || (other == Insert(other.x, [0], [3, 4], Target) && other.x != x))
  }

  lemma FirstFence(x: nat)
    ensures FenceCells(Cells0(), 1) == Cells0() && FenceSlots(Slots(x, None, Some(Flushed(1))), 1, Wide()) == Slots(x, None, Some(Clean))
  {
    WideCovers(2, Node(x, [0]));
  }

  lemma SecondFenceSlots(x: nat)
    ensures FenceSlots(Slots(x, Some(Flushed(1)), Some(Clean)), 1, Wide()) == Slots(x, Some(Clean), Some(Clean))
  {
    WideCovers(1, Node(0, [x]));
  }

  lemma SecondFenceCells(x: nat)
    requires x > 0
    ensures FenceCells(Cells1(x), 1) == Cells2(x, true)
  {
    assert LastBy([Write(2, 1)], 1) == 1 && [Write(2, 1)][1..] == [];
  }

  lemma FirstEntry(x: nat)
    requires x > 0
    ensures StoreCell(Cells0(), x, 2, 1) == Cells1(x)
  {
    assert [] + [Write(2, 1)] == [Write(2, 1)];
  }

  lemma SecondEntry(x: nat)
    requires x > 0
    ensures StoreCell(Cells2(x, true), 0, 1, 1) == Cells2(x, false)
  {
    assert [] + [Write(1, 1)] == [Write(1, 1)];
  }

  lemma Stages01(x: nat, queued: bool, other: Thread)
    requires Beside(other, x)
    ensures StepsTo(Stage(0, x, queued, other), 0, Act(0, x, queued), Stage(1, x, queued, other))
    ensures StepsTo(Stage(1, x, queued, other), 0, Act(1, x, queued), Stage(2, x, queued, other))
  {
  }

  lemma Stage2(x: nat, queued: bool, other: Thread)
    requires Beside(other, x)
    ensures StepsTo(Stage(2, x, queued, other), 0, Act(2, x, queued), Stage(3, x, queued, other))
  {
    FirstFence(x);
  }

  lemma Stage3(x: nat, queued: bool, other: Thread)
    requires Beside(other, x)
    ensures StepsTo(Stage(3, x, queued, other), 0, Act(3, x, queued), Stage(4, x, queued, other))
  {
    assert Slots(x, None, Some(Clean))[1 := SlotMem(Node(0, [x]), Stored(1))] == Slots(x, Some(Stored(1)), Some(Clean));
  }

  lemma Stage4(x: nat, queued: bool, other: Thread)
    requires Beside(other, x)
    ensures StepsTo(Stage(4, x, queued, other), 0, Act(4, x, queued), Stage(5, x, queued, other))
  {
    FirstEntry(x);
  }

  lemma Stage5(x: nat, queued: bool, other: Thread)
    requires Beside(other, x)
    ensures StepsTo(Stage(5, x, queued, other), 0, Act(5, x, queued), Stage(6, x, queued, other))
  {
    assert Slots(x, Some(Stored(1)), Some(Clean))[1 := SlotMem(Node(0, [x]), Flushed(1))] == Slots(x, Some(Flushed(1)), Some(Clean));
  }

  lemma Stage6(x: nat, queued: bool, other: Thread)
    requires Beside(other, x)
    ensures StepsTo(Stage(6, x, queued, other), 0, Act(6, x, queued), Stage(7, x, queued, other))
  {
    SecondFenceCells(x);
    SecondFenceSlots(x);
  }

  lemma Stage7Queued(x: nat, other: Thread)
    requires Beside(other, x)
    ensures StepsTo(Stage(7, x, true, other), 0, Act(7, x, true), Stage(8, x, true, other))
  {
    assert [] + [(0, 1)] == Queue1(true);
  }

  lemma Stage7Direct(x: nat, other: Thread)
    requires Beside(other, x)
    ensures StepsTo(Stage(7, x, false, other), 0, Act(7, x, false), Stage(8, x, false, other))
  {
    SecondEntry(x);
  }

  lemma Stage8(x: nat, queued: bool, other: Thread)
    requires Beside(other, x)
    ensures StepsTo(Stage(8, x, queued, other), 0, Act(8, x, queued), Stage(9, x, queued, other))
  {
  }

  lemma StageStep(n: nat, x: nat, queued: bool, other: Thread)
    requires n < 9 && Beside(other, x)
    ensures StepsTo(Stage(n, x, queued, other), 0, Act(n, x, queued), Stage(n + 1, x, queued, other))
  {
    if n < 2 { Stages01(x, queued, other); }
    else if n == 2 { Stage2(x, queued, other); }
    else if n == 3 { Stage3(x, queued, other); }
    else if n == 4 { Stage4(x, queued, other); }
    else if n == 5 { Stage5(x, queued, other); }
    else if n == 6 { Stage6(x, queued, other); }
    else if n == 7 { if queued { Stage7Queued(x, other); } else { Stage7Direct(x, other); } }
    else { Stage8(x, queued, other); }
  }

  /** From each stage the rest of the run goes on. */
  lemma {:induction false} GrownIsReached(n: nat, x: nat, queued: bool, other: Thread, rest: Steps) returns (steps: Steps)
    requires n <= 9 && Beside(other, x) && IsRun(Grown(x, queued, other), rest)
    ensures IsRun(Stage(n, x, queued, other), steps)
    ensures Final(Stage(n, x, queued, other), steps) == Final(Grown(x, queued, other), rest)
    decreases 9 - n
  {
    steps := rest;
    if n < 9 {
      var later := GrownIsReached(n + 1, x, queued, other, rest);
      StageStep(n, x, queued, other);
      steps := Prepend(Stage(n, x, queued, other), 0, Act(n, x, queued), Stage(n + 1, x, queued, other), later);
    }
  }

  lemma SmallInv()
    ensures Inv(Small(Idle)) && Safe(Small(Idle))
  {
    assert Good(Small(Idle), 0, 0);
    InitInv(Small(Idle));
  }

  /** Two inserts side by side, of which the one with the larger id finishes first: at that moment
      a crash leaves an array that holds the larger id and not the smaller one. */
  lemma LaterIdFirst(queued: bool) returns (steps: Steps, records: map<nat, Content>)
    ensures Inv(Small(Idle)) && Safe(Small(Idle)) && IsRun(Small(Idle), steps)
    ensures 2 in Final(Small(Idle), steps).published && IsImage(Final(Small(Idle), steps), [0, 0, 2], records)
    ensures Loaded([0, 0, 2]) == map[0 := 0, 2 := 2]
  {
    SmallInv();
    var rest := GrownIsReached(0, 2, queued, Starting(), []);
    OtherStarts();
    steps := Prepend(Small(Idle), 1, Begin(1, [0], [3, 4]), Small(Starting()), rest);
    records := SkippedImage(queued);
  }

  function Starting(): Thread { Insert(1, [0], [3, 4], Target) }

  lemma OtherStarts()
    ensures StepsTo(Small(Idle), 1, Begin(1, [0], [3, 4]), Small(Starting()))
  {
  }

  lemma SkippedImage(queued: bool) returns (records: map<nat, Content>)
    ensures IsImage(Grown(2, queued, Starting()), [0, 0, 2], records) && Loaded([0, 0, 2]) == map[0 := 0, 2 := 2]
  {
    var s := Grown(2, queued, Starting());
    records := map l | l in s.slots :: Whole(s.slots[l].node);
    assert Possible(s.cells, 0, 0) && Possible(s.cells, 2, 2) && MaybeUnset(s.cells, 1);
  }

  // The next insert, of id 2 beside id 1, whose new version gets location 0.

  function Later(n: nat, queued: bool): State {
    var s := Grown(1, queued, Idle);
    var m := SlotMem(Node(2, [1]), if n == 2 then Flushed(2) else Clean);
    s.(threads := [Idle, Insert(2, [1], [0, 3], if n == 1 then Target else if n == 2 then Fence1 else Copy(0))],
       slots := if n == 1 then s.slots else s.slots[3 := m])
  }

  lemma LaterSteps(queued: bool)
    ensures StepsTo(Grown(1, queued, Idle), 1, Begin(2, [1], [0, 3]), Later(1, queued))
    ensures StepsTo(Later(1, queued), 1, StoreTarget, Later(2, queued))
  {
  }

  lemma LaterFence(queued: bool)
    ensures StepsTo(Later(2, queued), 1, DoFence, Later(3, queued))
  {
    WideCovers(3, Node(2, [1]));
    var s, s' := Later(2, queued), Later(3, queued);
    assert LastBy(s.cells[0].later, 2) == 0 && LastBy(s.cells[1].later, 2) == 0;
    assert FenceCells(s.cells, 2) == s'.cells;
    assert FenceSlots(s.slots, 2, Wide()) == s'.slots;
  }

  /** The allocator frees a moved neighbour's old slot while the persistent entry may still lead
      there.  With both ways of publishing, the next insert can be given that slot, and its first
      store there makes a crash lose the neighbour. */
  lemma OldSlotReused(queued: bool) returns (steps: Steps)
    ensures Inv(Small(Idle)) && Safe(Small(Idle)) && IsRun(Small(Idle), steps)
    ensures FreeInDram(Grown(1, queued, Idle), 0) && Final(Small(Idle), steps) == Later(3, queued)
    ensures StoresAt(Later(3, queued), 1, StoreCopy([0, 2]), 0) && Leads(Later(3, queued), 0, 0)
    ensures ShapeOk(Later(3, queued)) && Enabled(Later(3, queued), 1, StoreCopy([0, 2]))
    ensures !CrashSafe(Next(Later(3, queued), 1, StoreCopy([0, 2])))
  {
    SmallInv();
    LaterSteps(queued);
    LaterFence(queued);
    var rest := Prepend(Later(2, queued), 1, DoFence, Later(3, queued), []);
    rest := Prepend(Later(1, queued), 1, StoreTarget, Later(2, queued), rest);
    rest := Prepend(Grown(1, queued, Idle), 1, Begin(2, [1], [0, 3]), Later(1, queued), rest);
    steps := GrownIsReached(0, 1, queued, Idle, rest);
    LaterStore(queued);
  }

  lemma LaterStore(queued: bool)
    ensures StoresAt(Later(3, queued), 1, StoreCopy([0, 2]), 0) && Leads(Later(3, queued), 0, 0)
    ensures ShapeOk(Later(3, queued)) && Enabled(Later(3, queued), 1, StoreCopy([0, 2]))
    ensures !CrashSafe(Next(Later(3, queued), 1, StoreCopy([0, 2])))
  {
    var s := Later(3, queued);
    assert Possible(s.cells, 0, 0);
    DirtyImage(Next(s, 1, StoreCopy([0, 2])), 0, 0);
  }
}
