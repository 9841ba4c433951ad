/**
  The optimistic-ticket dequeue of one producer's queue (include/mpmc.h).

  `dequeue` and `dequeue_bulk` of both producer kinds run the same protocol on the shared
  counters; a plain `dequeue` asks for at most one element.  Every load and every fetch-add
  is one step of one thread and a run is any interleaving of steps, with the producer
  publishing elements at any time.  Indices are unbounded.

  `log` and `handed` are history: the tickets drawn from dequeueOptimisticCount in order,
  and the index ranges claimed from headIndex in order.
 */
module DequeueTickets {
  import opened Basics

  /** A reservation of `want` units, drawn by a thread that had read dequeueOvercommit as
      `over`.  Once decided, `got` units are granted and the others fail. */
  datatype Ticket = Ticket(want: nat, over: nat, decided: bool, got: nat)

  datatype Range = Range(first: nat, count: nat)

  datatype Pc =
    | Idle
    | LoadTail(max: nat)
    | LoadOver(tail: nat, max: nat)
    | LoadCount(tail: nat, over: nat, max: nat)
    | Reserve(over: nat, want: nat)
    | Reload(ticket: nat, my: nat, over: nat, want: nat)
    | Refund(extra: nat, got: nat, claim: bool)
    | Claim(got: nat)
    | Done(range: Range)                          // count == 0 means reported empty

  datatype State = State(tail: nat, head: nat, count: nat, over: nat, threads: seq<Pc>,
                         log: seq<Ticket>, handed: seq<Range>)

  datatype Action = Enqueue(n: nat) | Call(t: nat, max: nat) | Run(t: nat)

  function Goto(s: State, t: nat, pc: Pc): State
    requires t < |s.threads|
  {
    s.(threads := s.threads[t := pc])
  }

  function RunThread(s: State, t: nat): State
    requires t < |s.threads|
  {
    match s.threads[t]
    case Idle => s
    case LoadTail(max) => Goto(s, t, LoadOver(s.tail, max))
    case LoadOver(tail, max) => Goto(s, t, LoadCount(tail, s.over, max))
    case LoadCount(tail, over, max) =>
      var desired := tail - (s.count - over);
      if desired > 0 then Goto(s, t, Reserve(over, Min(desired, max)))
      else Goto(s, t, Done(Range(0, 0)))
    case Reserve(over, want) =>
      Goto(s, t, Reload(|s.log|, s.count, over, want))
        .(count := s.count + want, log := s.log + [Ticket(want, over, false, 0)])
    case Reload(i, my, over, want) =>
      var actual := s.tail - (my - over);
      var got := if actual > 0 then Min(want, actual) else 0;
      var s' := if i < |s.log| then s.(log := s.log[i := s.log[i].(decided := true, got := got)]) else s;
      if actual <= 0 then Goto(s', t, Refund(want, 0, false))
      else if got < want then Goto(s', t, Refund(want - got, got, true))
      else Goto(s', t, Claim(got))
    case Refund(extra, got, claim) =>
      Goto(s, t, if claim then Claim(got) else Done(Range(0, 0))).(over := s.over + extra)
    case Claim(got) =>
      Goto(s, t, Done(Range(s.head, got))).(head := s.head + got, handed := s.handed + [Range(s.head, got)])
    case Done(_) => s
  }

  function Step(s: State, a: Action): State {
    match a
    case Enqueue(n) => s.(tail := s.tail + n)
    case Call(t, max) =>
      if t < |s.threads| && (s.threads[t].Idle? || s.threads[t].Done?) then Goto(s, t, LoadTail(max)) else s
    case Run(t) => if t < |s.threads| then RunThread(s, t) else s
  }

  function Exec(s: State, run: seq<Action>): State
    decreases |run|
  {
    if run == [] then s else Exec(Step(s, run[0]), run[1..])
  }

  predicate Init(s: State) {
    && s.tail == s.head == s.count == s.over == 0 && s.log == [] && s.handed == []
    && forall t :: 0 <= t < |s.threads| ==> s.threads[t] == Idle
  }

  predicate Quiescent(s: State) {
    forall t :: 0 <= t < |s.threads| ==> s.threads[t].Idle? || s.threads[t].Done?
  }

  // ---------------------------------------------------------------- sums over tickets and threads

  datatype Unit = Wanted | Failed | Got

  function Units(u: Unit, k: Ticket): int {
    match u
    case Wanted => k.want
    case Failed => if k.decided then k.want - k.got else 0
    case Got => if k.decided then k.got else 0
  }

  function Sum(u: Unit, log: seq<Ticket>): int {
    if log == [] then 0 else Sum(u, log[..|log| - 1]) + Units(u, log[|log| - 1])
  }

  /** What a thread still has to settle: undecided units, units to refund, units to claim. */
  datatype Due = Undecided | ToRefund | ToClaim

  function Owes(d: Due, pc: Pc): nat {
    match d
    case Undecided => if pc.Reload? then pc.want else 0
    case ToRefund => if pc.Refund? then pc.extra else 0
    case ToClaim => if pc.Refund? || pc.Claim? then pc.got else 0
  }

  function Total(d: Due, ths: seq<Pc>): nat {
    if ths == [] then 0 else Owes(d, ths[0]) + Total(d, ths[1..])
  }

  lemma {:induction false} TotalUpdate(d: Due, ths: seq<Pc>, t: nat, pc: Pc)
    requires t < |ths|
    ensures Total(d, ths[t := pc]) + Owes(d, ths[t]) == Total(d, ths) + Owes(d, pc)
  {
    if t == 0 {
      assert ths[t := pc][1..] == ths[1..];
    } else {
      assert ths[t := pc][1..] == ths[1..][t - 1 := pc];
      TotalUpdate(d, ths[1..], t - 1, pc);
    }
  }

  lemma Totals(ths: seq<Pc>, t: nat, pc: Pc)
    requires t < |ths|
    ensures Total(Undecided, ths[t := pc]) + Owes(Undecided, ths[t]) == Total(Undecided, ths) + Owes(Undecided, pc)
    ensures Total(ToRefund, ths[t := pc]) + Owes(ToRefund, ths[t]) == Total(ToRefund, ths) + Owes(ToRefund, pc)
    ensures Total(ToClaim, ths[t := pc]) + Owes(ToClaim, ths[t]) == Total(ToClaim, ths) + Owes(ToClaim, pc)
  {
    TotalUpdate(Undecided, ths, t, pc);
    TotalUpdate(ToRefund, ths, t, pc);
    TotalUpdate(ToClaim, ths, t, pc);
  }

  lemma {:induction false} TotalQuiescent(d: Due, ths: seq<Pc>)
    requires forall t :: 0 <= t < |ths| ==> ths[t].Idle? || ths[t].Done?
    ensures Total(d, ths) == 0
  {
    if ths != [] { TotalQuiescent(d, ths[1..]); }
  }

  lemma {:induction false} SumUpdate(u: Unit, log: seq<Ticket>, i: nat, k: Ticket)
    requires i < |log|
    ensures Sum(u, log[i := k]) == Sum(u, log) - Units(u, log[i]) + Units(u, k)
  {
    var n := |log| - 1;
    if i == n {
      assert log[i := k][..n] == log[..n];
    } else {
      assert log[i := k][..n] == log[..n][i := k];
      SumUpdate(u, log[..n], i, k);
    }
  }

  // ---------------------------------------------------------------- the invariant

  /** Every ticket was drawn with an overcommit that earlier tickets had already refunded, and
      was granted only units below the tail. */
  predicate TicketsOk(log: seq<Ticket>, tail: nat) {
    log == [] ||
    var n := |log| - 1;
    && TicketsOk(log[..n], tail)
    && log[n].got <= log[n].want
    && log[n].over <= Sum(Failed, log[..n])
    && (log[n].decided && log[n].got > 0 ==> Sum(Wanted, log[..n]) - log[n].over + log[n].got <= tail)
  }

  predicate HandedOk(handed: seq<Range>, head: nat) {
    if handed == [] then head == 0
    else
      var n := |handed| - 1;
      handed[n].first + handed[n].count == head && HandedOk(handed[..n], handed[n].first)
  }

  predicate PcInv(s: State, pc: Pc) {
    match pc
    case LoadCount(_, over, _) => over <= s.over
    case Reserve(over, _) => over <= s.over
    case Reload(i, my, over, want) =>
      && i < |s.log| && s.log[i] == Ticket(want, over, false, 0)
      && my == Sum(Wanted, s.log[..i])
    case Refund(_, got, claim) => claim || got == 0
    case Done(r) => r.first + r.count <= s.head
    case _ => true
  }

  predicate Inv(s: State) {
    && TicketsOk(s.log, s.tail)
    && s.count == Sum(Wanted, s.log)
    && s.over + Total(ToRefund, s.threads) == Sum(Failed, s.log)
    && s.head + Total(ToClaim, s.threads) == Sum(Got, s.log)
    && s.count == s.head + s.over + Total(ToRefund, s.threads) + Total(ToClaim, s.threads) + Total(Undecided, s.threads)
    && HandedOk(s.handed, s.head)
    && (forall t :: 0 <= t < |s.threads| ==> PcInv(s, s.threads[t]))
    && (forall t, u :: 0 <= t < u < |s.threads| && s.threads[t].Reload? && s.threads[u].Reload? ==>
          s.threads[t].ticket != s.threads[u].ticket)
  }

  /** Tickets granted in total never exceed the tail: the last granted ticket bounds them all. */
  lemma {:induction false} GrantedBelowTail(log: seq<Ticket>, tail: nat)
    requires TicketsOk(log, tail)
    ensures Sum(Got, log) <= tail
  {
    if log != [] {
      var n := |log| - 1;
      if log[n].decided && log[n].got > 0 {
        SettledBelowWanted(log[..n], tail);
      } else {
        GrantedBelowTail(log[..n], tail);
      }
    }
  }

  lemma {:induction false} SettledBelowWanted(log: seq<Ticket>, tail: nat)
    requires TicketsOk(log, tail)
    ensures Sum(Got, log) + Sum(Failed, log) <= Sum(Wanted, log)
  {
    if log != [] { SettledBelowWanted(log[..|log| - 1], tail); }
  }

  lemma {:induction false} TailGrows(log: seq<Ticket>, tail: nat, tail': nat)
    requires TicketsOk(log, tail) && tail <= tail'
    ensures TicketsOk(log, tail')
  {
    if log != [] { TailGrows(log[..|log| - 1], tail, tail'); }
  }

  /** Deciding a ticket keeps the log in order, also for the tickets drawn after it. */
  lemma {:induction false} Decide(log: seq<Ticket>, tail: nat, i: nat, got: nat)
    requires TicketsOk(log, tail) && i < |log| && !log[i].decided && log[i].got == 0 && got <= log[i].want
    requires got > 0 ==> Sum(Wanted, log[..i]) - log[i].over + got <= tail
    ensures TicketsOk(log[i := log[i].(decided := true, got := got)], tail)
  {
    var k := log[i].(decided := true, got := got);
    var n := |log| - 1;
    if i == n {
      assert log[i := k][..n] == log[..n];
    } else {
      assert log[i := k][..n] == log[..n][i := k];
      assert log[..n][..i] == log[..i];
      Decide(log[..n], tail, i, got);
      SumUpdate(Failed, log[..n], i, k);
      SumUpdate(Wanted, log[..n], i, k);
    }
  }

  lemma DecideSums(log: seq<Ticket>, tail: nat, i: nat, got: nat)
    requires i < |log| && !log[i].decided && got <= log[i].want
    ensures var log' := log[i := log[i].(decided := true, got := got)];
      && Sum(Wanted, log') == Sum(Wanted, log)
      && Sum(Failed, log') == Sum(Failed, log) + log[i].want - got
      && Sum(Got, log') == Sum(Got, log) + got
  {
    var k := log[i].(decided := true, got := got);
    SumUpdate(Wanted, log, i, k);
    SumUpdate(Failed, log, i, k);
    SumUpdate(Got, log, i, k);
  }

  // ---------------------------------------------------------------- preservation

  /** A step that only moves a thread between states with the same obligations. */
  lemma GotoInv(s: State, t: nat, pc: Pc)
    requires Inv(s) && t < |s.threads| && !pc.Reload? && PcInv(s, pc)
    requires forall d :: Owes(d, s.threads[t]) == Owes(d, pc)
    ensures Inv(Goto(s, t, pc))
  {
    Totals(s.threads, t, pc);
    forall u | 0 <= u < |s.threads| ensures PcInv(Goto(s, t, pc), Goto(s, t, pc).threads[u]) {
      assert PcInv(s, s.threads[u]);
    }
  }

  lemma ReserveInv(s: State, t: nat)
    requires Inv(s) && t < |s.threads| && s.threads[t].Reserve?
    ensures Inv(RunThread(s, t))
  {
    var s' := RunThread(s, t);
    var n := |s.log|;
    assert PcInv(s, s.threads[t]);
    assert s'.log[..n] == s.log;
    Totals(s.threads, t, s'.threads[t]);
    forall u | 0 <= u < |s.threads| ensures PcInv(s', s'.threads[u]) {
      assert PcInv(s, s.threads[u]);
      if u != t && s.threads[u].Reload? { assert s'.log[..s.threads[u].ticket] == s.log[..s.threads[u].ticket]; }
    }
    forall u, v | 0 <= u < v < |s.threads| && s'.threads[u].Reload? && s'.threads[v].Reload?
      ensures s'.threads[u].ticket != s'.threads[v].ticket
    {
      assert PcInv(s, s.threads[u]) && PcInv(s, s.threads[v]);
    }
  }

  /** The other undecided tickets are untouched by deciding ticket i. */
  lemma ReloadPcs(s: State, t: nat, u: nat)
    requires Inv(s) && t < |s.threads| && s.threads[t].Reload? && u < |s.threads| && u != t
    ensures PcInv(RunThread(s, t), s.threads[u])
  {
    var s', i := RunThread(s, t), s.threads[t].ticket;
    assert PcInv(s, s.threads[t]) && PcInv(s, s.threads[u]);
    if s.threads[u].Reload? {
      var j := s.threads[u].ticket;
      assert i != j;
      if i < j {
        assert s'.log[..j] == s.log[..j][i := s'.log[i]];
        SumUpdate(Wanted, s.log[..j], i, s'.log[i]);
      } else {
        assert s'.log[..j] == s.log[..j];
      }
    }
  }

  function Granted(s: State, pc: Pc): nat
    requires pc.Reload?
  {
    var actual := s.tail - (pc.my - pc.over);
    if actual > 0 then Min(pc.want, actual) else 0
  }

  lemma ReloadTotals(s: State, t: nat)
    requires t < |s.threads| && s.threads[t].Reload?
    ensures var ths, want, got := RunThread(s, t).threads, s.threads[t].want, Granted(s, s.threads[t]);
      && Total(Undecided, ths) == Total(Undecided, s.threads) - want
      && Total(ToRefund, ths) == Total(ToRefund, s.threads) + want - got
      && Total(ToClaim, ths) == Total(ToClaim, s.threads) + got
  {
    Totals(s.threads, t, RunThread(s, t).threads[t]);
  }

  lemma ReloadLog(s: State, t: nat)
    requires Inv(s) && t < |s.threads| && s.threads[t].Reload?
    ensures var log, want, got := RunThread(s, t).log, s.threads[t].want, Granted(s, s.threads[t]);
      && TicketsOk(log, s.tail)
      && Sum(Wanted, log) == Sum(Wanted, s.log)
      && Sum(Failed, log) == Sum(Failed, s.log) + want - got
      && Sum(Got, log) == Sum(Got, s.log) + got
  {
    var i, got := s.threads[t].ticket, Granted(s, s.threads[t]);
    assert PcInv(s, s.threads[t]);
    DecideSums(s.log, s.tail, i, got);
    Decide(s.log, s.tail, i, got);
  }

  lemma ReloadInv(s: State, t: nat)
    requires Inv(s) && t < |s.threads| && s.threads[t].Reload?
    ensures Inv(RunThread(s, t))
  {
    var s' := RunThread(s, t);
    ReloadTotals(s, t);
    ReloadLog(s, t);
    assert PcInv(s, s.threads[t]);
    forall u | 0 <= u < |s.threads| ensures PcInv(s', s'.threads[u]) {
      if u != t { ReloadPcs(s, t, u); }
    }
  }

  lemma RefundInv(s: State, t: nat)
    requires Inv(s) && t < |s.threads| && s.threads[t].Refund?
    ensures Inv(RunThread(s, t))
  {
    var s' := RunThread(s, t);
    Totals(s.threads, t, s'.threads[t]);
    forall u | 0 <= u < |s.threads| ensures PcInv(s', s'.threads[u]) {
      assert PcInv(s, s.threads[u]);
    }
  }

  lemma ClaimInv(s: State, t: nat)
    requires Inv(s) && t < |s.threads| && s.threads[t].Claim?
    ensures Inv(RunThread(s, t))
  {
    var s' := RunThread(s, t);
    Totals(s.threads, t, s'.threads[t]);
    assert s'.handed[..|s.handed|] == s.handed;
    forall u | 0 <= u < |s.threads| ensures PcInv(s', s'.threads[u]) {
      assert PcInv(s, s.threads[u]);
    }
  }

  lemma StepInv(s: State, a: Action)
    requires Inv(s)
    ensures Inv(Step(s, a))
  {
    match a
    case Enqueue(n) =>
      TailGrows(s.log, s.tail, s.tail + n);
      forall t | 0 <= t < |s.threads| ensures PcInv(Step(s, a), s.threads[t]) { assert PcInv(s, s.threads[t]); }
    case Call(t, max) =>
      if t < |s.threads| && (s.threads[t].Idle? || s.threads[t].Done?) { GotoInv(s, t, LoadTail(max)); }
    case Run(t) =>
      if t < |s.threads| {
        assert PcInv(s, s.threads[t]);
        match s.threads[t]
        case Idle =>
        case LoadTail(max) => GotoInv(s, t, LoadOver(s.tail, max));
        case LoadOver(tail, max) => GotoInv(s, t, LoadCount(tail, s.over, max));
        case LoadCount(tail, over, max) => GotoInv(s, t, RunThread(s, t).threads[t]);
        case Reserve(_, _) => ReserveInv(s, t);
        case Reload(_, _, _, _) => ReloadInv(s, t);
        case Refund(_, _, _) => RefundInv(s, t);
        case Claim(_) => ClaimInv(s, t);
        case Done(_) =>
      }
  }

  lemma {:induction false} ExecInv(s: State, run: seq<Action>)
    requires Inv(s)
    ensures Inv(Exec(s, run))
    decreases |run|
  {
    if run != [] {
      StepInv(s, run[0]);
      ExecInv(Step(s, run[0]), run[1..]);
    }
  }

  lemma InitInv(s: State)
    requires Init(s)
    ensures Inv(s)
  {
    TotalQuiescent(Undecided, s.threads);
    TotalQuiescent(ToRefund, s.threads);
    TotalQuiescent(ToClaim, s.threads);
  }

  // ---------------------------------------------------------------- whole runs

  /** In every reachable state the head, even counting all grants not yet claimed, is at most
      the tail: no consumer is ever given an index that was not published. */
  lemma HeadNeverPassesTail(s: State, run: seq<Action>)
    requires Init(s)
    ensures var r := Exec(s, run); r.head + Total(ToClaim, r.threads) <= r.tail
  {
    InitInv(s);
    ExecInv(s, run);
    var r := Exec(s, run);
    GrantedBelowTail(r.log, r.tail);
  }

  predicate In(x: nat, r: Range) { r.first <= x < r.first + r.count }

  /** The ranges handed out so far cover each index below the head exactly once. */
  lemma {:induction false} Tiles(handed: seq<Range>, head: nat, x: nat)
    requires HandedOk(handed, head)
    ensures x < head <==> exists k :: 0 <= k < |handed| && In(x, handed[k])
    ensures forall k, l :: 0 <= k < l < |handed| ==> !(In(x, handed[k]) && In(x, handed[l]))
    ensures forall k :: 0 <= k < |handed| ==> handed[k].first + handed[k].count <= head
  {
    if handed != [] {
      var n := |handed| - 1;
      var rest := handed[..n];
      Tiles(rest, handed[n].first, x);
      assert forall k :: 0 <= k < n ==> rest[k] == handed[k];
      if x < handed[n].first {
        var k :| 0 <= k < |rest| && In(x, rest[k]);
        assert In(x, handed[k]);
      } else if x < head {
        assert In(x, handed[n]);
      }
    }
  }

  /** Over every run, each index below the head has been handed to exactly one dequeue, and no
      index at or above it to any. */
  lemma EachIndexOnce(s: State, run: seq<Action>, x: nat)
    requires Init(s)
    ensures var r := Exec(s, run);
      && (x < r.head <==> exists k :: 0 <= k < |r.handed| && In(x, r.handed[k]))
      && (forall k, l :: 0 <= k < l < |r.handed| ==> !(In(x, r.handed[k]) && In(x, r.handed[l])))
  {
    InitInv(s);
    ExecInv(s, run);
    Tiles(Exec(s, run).handed, Exec(s, run).head, x);
  }

  /** Whenever no dequeue is in flight the counters agree with the head exactly. */
  lemma QuiescentCounters(s: State, run: seq<Action>)
    requires Init(s)
    ensures var r := Exec(s, run); Quiescent(r) ==> r.count - r.over == r.head <= r.tail
  {
    InitInv(s);
    ExecInv(s, run);
    var r := Exec(s, run);
    GrantedBelowTail(r.log, r.tail);
    if Quiescent(r) {
      TotalQuiescent(Undecided, r.threads);
      TotalQuiescent(ToRefund, r.threads);
      TotalQuiescent(ToClaim, r.threads);
    }
  }

  // ---------------------------------------------------------------- how many elements a call gets

  /** What a thread has or may still get is within the number that its call asked for. */
  predicate Within(pc: Pc, max: nat) {
    match pc
    case Idle => true
    case LoadTail(m) => m <= max
    case LoadOver(_, m) => m <= max
    case LoadCount(_, _, m) => m <= max
    case Reserve(_, want) => want <= max
    case Reload(_, _, _, want) => want <= max
    case Refund(_, got, _) => got <= max
    case Claim(got) => got <= max
    case Done(r) => r.count <= max
  }

  ghost predicate NotCalled(run: seq<Action>, t: nat) { forall i :: 0 <= i < |run| ==> !(run[i].Call? && run[i].t == t) }

  lemma {:induction false} WithinKept(s: State, t: nat, max: nat, run: seq<Action>)
    requires t < |s.threads| && Within(s.threads[t], max) && NotCalled(run, t)
    ensures t < |Exec(s, run).threads| && Within(Exec(s, run).threads[t], max)
    decreases |run|
  {
    if run != [] {
      assert !(run[0].Call? && run[0].t == t);
      forall i | 0 <= i < |run[1..]| ensures !(run[1..][i].Call? && run[1..][i].t == t) { assert run[1..][i] == run[i + 1]; }
      WithinKept(Step(s, run[0]), t, max, run[1..]);
    }
  }

  /** Over every run and interleaving: a call ends with at most as many elements as it asked for. */
  lemma NeverMoreThanAsked(s: State, t: nat, max: nat, run: seq<Action>)
    requires t < |s.threads| && (s.threads[t].Idle? || s.threads[t].Done?) && NotCalled(run, t)
    ensures var q := Exec(Step(s, Call(t, max)), run); t < |q.threads| && (q.threads[t].Done? ==> q.threads[t].range.count <= max)
  {
    WithinKept(Step(s, Call(t, max)), t, max, run);
  }

  /** Thread t is the only dequeuer, and asked for max elements when the head was h and the tail beyond
      it; it gets at least what there was then. */
  predicate Solo(s: State, t: nat, h: nat, tail: nat, max: nat) {
    && t < |s.threads| && h < tail <= s.tail && Within(s.threads[t], max)
    && match s.threads[t]
       case Idle => false
       case LoadTail(m) => m == max && s.count - s.over == s.head == h
       case LoadOver(tl, m) => m == max && s.count - s.over == s.head == h && tail <= tl <= s.tail
       case LoadCount(tl, over, m) => m == max && over == s.over && s.count - s.over == s.head == h && tail <= tl <= s.tail
       case Reserve(over, want) => over == s.over && s.count - s.over == s.head == h && Min(max, tail - h) <= want <= s.tail - h
       case Reload(_, my, over, want) => my - over == s.head == h && Min(max, tail - h) <= want <= s.tail - h
       case Refund(_, _, _) => false
       case Claim(got) => s.head == h && Min(max, tail - h) <= got <= s.tail - h
       case Done(r) => r.first == h && Min(max, tail - h) <= r.count <= s.tail - h && s.head == h + r.count
  }

  predicate OnlyBy(run: seq<Action>, t: nat) {
    forall i :: 0 <= i < |run| ==> run[i].Enqueue? || run[i] == Run(t)
  }

  lemma {:induction false} SoloKept(s: State, t: nat, h: nat, tail: nat, max: nat, run: seq<Action>)
    requires Solo(s, t, h, tail, max) && OnlyBy(run, t)
    ensures Solo(Exec(s, run), t, h, tail, max)
    decreases |run|
  {
    if run != [] {
      assert run[0].Enqueue? || run[0] == Run(t);
      SoloKept(Step(s, run[0]), t, h, tail, max, run[1..]);
    }
  }

  /** A quiescent non-empty queue is never reported empty: a dequeue that starts there, with only the
      producer running beside it, can only finish with elements from the head on, at most as many as
      it asked for, and at least that many or all that there were. */
  lemma QuiescentNonEmptySucceeds(s: State, before: seq<Action>, t: nat, max: nat, after: seq<Action>)
    requires Init(s) && OnlyBy(after, t)
    ensures var r := Exec(s, before);
      Quiescent(r) && t < |r.threads| && r.head < r.tail ==>
        var q := Exec(Step(r, Call(t, max)), after);
        t < |q.threads| && (q.threads[t].Done? ==>
          && q.threads[t].range.first == r.head && Min(max, r.tail - r.head) <= q.threads[t].range.count <= max
          && q.head == r.head + q.threads[t].range.count)
  {
    QuiescentCounters(s, before);
    var r := Exec(s, before);
    if Quiescent(r) && t < |r.threads| && r.head < r.tail {
      SoloKept(Step(r, Call(t, max)), t, r.head, r.tail, max, after);
    }
  }

  /** Thread t runs alone, with the tail standing still, and will have got `want` elements. */
  predicate Alone(s: State, t: nat, h: nat, max: nat) {
    && t < |s.threads| && h <= s.tail
    && var want := Min(max, s.tail - h);
       match s.threads[t]
       case LoadTail(m) => m == max && s.count - s.over == s.head == h
       case LoadOver(tl, m) => m == max && s.count - s.over == s.head == h && tl == s.tail
       case LoadCount(tl, over, m) => m == max && over == s.over && s.count - s.over == s.head == h && tl == s.tail
       case Reserve(over, w) => h < s.tail && over == s.over && s.count - s.over == s.head == h && w == want
       case Reload(_, my, over, w) => h < s.tail && my - over == s.head == h && w == want
       case Claim(got) => s.head == h && got == want
       case Done(r) => r.count == want && s.head == h + want && (want > 0 ==> r.first == h)
       case _ => false
  }

  /** Instructions that are left, at most. */
  function Rank(pc: Pc): nat {
    match pc
    case LoadTail(_) => 6
    case LoadOver(_, _) => 5
    case LoadCount(_, _, _) => 4
    case Reserve(_, _) => 3
    case Reload(_, _, _, _) => 2
    case Claim(_) => 1
    case _ => 0
  }

  lemma {:induction false} AloneEnds(s: State, t: nat, h: nat, max: nat, run: seq<Action>)
    requires Alone(s, t, h, max) && |run| >= Rank(s.threads[t]) && forall i :: 0 <= i < |run| ==> run[i] == Run(t)
    ensures Alone(Exec(s, run), t, h, max) && Exec(s, run).tail == s.tail && Exec(s, run).threads[t].Done?
    decreases |run|
  {
    if run != [] { AloneEnds(Step(s, run[0]), t, h, max, run[1..]); }
  }

  /** A call that runs alone from a quiescent state ends, with exactly as many elements as it asked for
      or as there are, from the head on. */
  lemma AloneGetsWhatItAsks(s: State, before: seq<Action>, t: nat, max: nat, run: seq<Action>)
    requires Init(s) && |run| >= 6 && forall i :: 0 <= i < |run| ==> run[i] == Run(t)
    ensures var r := Exec(s, before);
      Quiescent(r) && t < |r.threads| ==>
        var q := Exec(Step(r, Call(t, max)), run);
        && t < |q.threads| && q.threads[t].Done? && r.head <= r.tail && q.threads[t].range.count == Min(max, r.tail - r.head)
        && q.head == r.head + q.threads[t].range.count && (q.threads[t].range.count > 0 ==> q.threads[t].range.first == r.head)
  {
    QuiescentCounters(s, before);
    var r := Exec(s, before);
    if Quiescent(r) && t < |r.threads| { AloneEnds(Step(r, Call(t, max)), t, r.head, max, run); }
  }
}
