/**
  Alpha-pruning of a candidate list (src/index.cpp, `occlude_list` and `prune_neighbors`), in
  real arithmetic.
 */
module Prune {
  import opened Basics
  import opened Pool

  /** An occlusion factor; Huge is both the largest float and infinity. */
  datatype Factor = Fin(r: real) | Huge

  predicate Above(f: Factor, x: real) { f.Huge? || f.r > x }

  predicate AtMost(f: Factor, f': Factor) { f'.Huge? || (f.Fin? && f.r <= f'.r) }

  /** d / x; nought by nought is not a number, and `max` then keeps its other argument. */
  function Ratio(d: real, x: real): Factor {
    if x > 0.0 then Fin(d / x) else if d > 0.0 then Huge else Fin(0.0)
  }

  function Max(f: Factor, f': Factor): Factor { if AtMost(f, f') then f' else f }

  lemma RatioMeans(d: real, x: real, alpha: real)
    requires d >= 0.0 && x >= 0.0 && alpha >= 0.0
    ensures Above(Ratio(d, x), alpha) <==> d > alpha * x
    ensures Ratio(d, x).Fin? ==> Ratio(d, x).r >= 0.0
  {
    if x > 0.0 {
      var q := d / x;
      assert q * x == d;
      if q > alpha { assert q * x > alpha * x; }
      if q <= alpha { assert q * x <= alpha * x; }
      if q < 0.0 { assert q * x < 0.0; }
    }
  }

  type Metric = (nat, nat) -> real

  /** How strongly the candidate s occludes the candidate t. */
  function Occlusion(pool: seq<Neighbor>, djk: Metric, t: nat, s: nat): Factor
    requires t < |pool| && s < |pool|
  {
    Ratio(pool[t].distance, djk(pool[t].id, pool[s].id))
  }

  ghost predicate NonNegative(pool: seq<Neighbor>, djk: Metric) {
    (forall i :: 0 <= i < |pool| ==> pool[i].distance >= 0.0) && (forall a: nat, b: nat :: djk(a, b) >= 0.0)
  }

  ghost predicate Chosen(chosen: seq<nat>, lim: nat) {
    && (forall i :: 0 <= i < |chosen| ==> chosen[i] < lim)
    && Distinct(chosen)
  }

  ghost predicate Occluded(pool: seq<Neighbor>, djk: Metric, chosen: seq<nat>, t: nat, f: Factor)
    requires t < |pool|
  {
    exists s :: s in chosen && s < t && Occlusion(pool, djk, t, s) == f
  }

  /** A candidate's factor: that of its worst occluder among the chosen ones before it, as far as
      factors above alpha are told apart. */
  ghost predicate FactorOk(pool: seq<Neighbor>, djk: Metric, alpha: real, chosen: seq<nat>, t: nat, f: Factor)
    requires t < |pool|
  {
    if t in chosen then f == Huge
    else
      && (f == Fin(0.0) || Occluded(pool, djk, chosen, t, f))
      && (Above(f, alpha) || forall s :: s in chosen && s < t ==> AtMost(Occlusion(pool, djk, t, s), f))
  }

  ghost predicate FactorsOk(pool: seq<Neighbor>, djk: Metric, alpha: real, chosen: seq<nat>, fs: seq<Factor>, lim: nat) {
    lim <= |pool| == |fs| && forall t :: 0 <= t < lim ==> FactorOk(pool, djk, alpha, chosen, t, fs[t])
  }

  /** The candidate t is at most alpha times as far from the node as from s. */
  ghost predicate Apart(pool: seq<Neighbor>, djk: Metric, alpha: real, t: nat, s: nat)
    requires t < |pool| && s < |pool|
  {
    pool[t].distance <= alpha * djk(pool[t].id, pool[s].id)
  }

  lemma ApartMeans(pool: seq<Neighbor>, djk: Metric, alpha: real, t: nat, s: nat)
    requires NonNegative(pool, djk) && alpha >= 0.0 && t < |pool| && s < |pool|
    ensures Apart(pool, djk, alpha, t, s) <==> !Above(Occlusion(pool, djk, t, s), alpha)
  {
    RatioMeans(pool[t].distance, djk(pool[t].id, pool[s].id), alpha);
  }

  /** Of two chosen candidates, the later one with the larger index is not occluded beyond alpha. */
  ghost predicate Spread(pool: seq<Neighbor>, djk: Metric, alpha: real, chosen: seq<nat>, lim: nat)
    requires lim <= |pool| && Chosen(chosen, lim)
  {
    forall i, j :: 0 <= i < j < |chosen| && chosen[i] < chosen[j] ==> Apart(pool, djk, alpha, chosen[j], chosen[i])
  }

  lemma ChooseSpread(pool: seq<Neighbor>, djk: Metric, alpha: real, chosen: seq<nat>, lim: nat, t: nat, f: Factor)
    requires NonNegative(pool, djk) && alpha >= 0.0 && lim <= |pool| && Chosen(chosen, lim) && Spread(pool, djk, alpha, chosen, lim)
    requires t < lim && t !in chosen && FactorOk(pool, djk, alpha, chosen, t, f) && !Above(f, alpha)
    ensures Chosen(chosen + [t], lim) && Spread(pool, djk, alpha, chosen + [t], lim)
  {
    forall i | 0 <= i < |chosen| && chosen[i] < t ensures Apart(pool, djk, alpha, t, chosen[i]) {
      assert chosen[i] in chosen;
      ApartMeans(pool, djk, alpha, t, chosen[i]);
    }
  }

  lemma FactorMore(pool: seq<Neighbor>, djk: Metric, alpha: real, chosen: seq<nat>, s: nat, t: nat, f: Factor)
    requires t < |pool| && s < |pool| && t != s && FactorOk(pool, djk, alpha, chosen, t, f)
    ensures t < s ==> FactorOk(pool, djk, alpha, chosen + [s], t, f)
    ensures t > s && t !in chosen && !Above(f, alpha) ==> FactorOk(pool, djk, alpha, chosen + [s], t, Max(f, Occlusion(pool, djk, t, s)))
    ensures t > s && Above(f, alpha) ==> FactorOk(pool, djk, alpha, chosen + [s], t, f)
  {
    var c := chosen + [s];
    assert forall x :: x in c <==> x in chosen || x == s;
    if t !in chosen && f != Fin(0.0) {
      var w :| w in chosen && w < t && Occlusion(pool, djk, t, w) == f;
      assert w in c;
      assert Occluded(pool, djk, c, t, f);
    }
    if t > s {
      assert s in c;
      assert Occluded(pool, djk, c, t, Occlusion(pool, djk, t, s));
    }
  }

  /** The candidate at `start` is chosen, and raises the factors of the candidates after it. */
  method Occlude(pool: seq<Neighbor>, djk: Metric, alpha: real, start: nat, lim: nat, fs: array<Factor>, ghost chosen: seq<nat>)
    requires start < lim && FactorsOk(pool, djk, alpha, chosen, fs[..], lim) && start !in chosen
    modifies fs
    ensures FactorsOk(pool, djk, alpha, chosen + [start], fs[..], lim) && fs[..start] == old(fs[..start])
  {
    ghost var before, c := fs[..], chosen + [start];
    fs[start] := Huge;
    forall u | 0 <= u < start ensures FactorOk(pool, djk, alpha, c, u, fs[u]) {
      FactorMore(pool, djk, alpha, chosen, start, u, before[u]);
    }
    var t := start + 1;
    while t < lim
      invariant start < t <= lim && fs[..start] == before[..start]
      invariant forall u :: 0 <= u < t ==> FactorOk(pool, djk, alpha, c, u, fs[u])
      invariant forall u :: t <= u < lim ==> fs[u] == before[u]
    {
      FactorMore(pool, djk, alpha, chosen, start, t, before[t]);
      assert t in chosen ==> before[t] == Huge;
      if !Above(fs[t], alpha) {
        fs[t] := Max(fs[t], Occlusion(pool, djk, t, start));
      }
      t := t + 1;
    }
  }

  /** The candidates picked so far, in order. */
  ghost predicate Picks(pool: seq<Neighbor>, djk: Metric, alpha: real, lim: nat, result: seq<Neighbor>, chosen: seq<nat>) {
    && lim <= |pool| && Chosen(chosen, lim) && Spread(pool, djk, alpha, chosen, lim)
    && |result| == |chosen| && forall i :: 0 <= i < |result| ==> result[i] == pool[chosen[i]]
  }

  /** A chosen, no more distant candidate before t occludes it beyond x. */
  ghost predicate OccludedBeyond(pool: seq<Neighbor>, djk: Metric, x: real, chosen: seq<nat>, t: nat)
    requires t < |pool|
  {
    exists s :: s in chosen && s < t && pool[s].distance <= pool[t].distance && !Apart(pool, djk, x, t, s)
  }

  /** The rising thresholds of the passes. */
  ghost function Threshold(n: nat): real { if n == 0 then 1.0 else Threshold(n - 1) * 1.2 }

  lemma {:induction false} ThresholdAtLeast(n: nat)
    ensures Threshold(n) >= 1.0
  {
    if n > 0 { ThresholdAtLeast(n - 1); }
  }

  lemma {:induction false} ThresholdMono(m: nat, n: nat)
    requires m <= n
    ensures Threshold(m) <= Threshold(n)
  {
    if m < n {
      ThresholdMono(m, n - 1);
      ThresholdAtLeast(n - 1);
    }
  }

  /** Every candidate up to lim is picked or occluded beyond x by the picks. */
  ghost predicate AllBeyond(pool: seq<Neighbor>, djk: Metric, x: real, chosen: seq<nat>, lim: nat) {
    lim <= |pool| && forall t :: 0 <= t < lim && t !in chosen ==> OccludedBeyond(pool, djk, x, chosen, t)
  }

  /** How t was picked in pass n, after the picks `before`: it is not occluded beyond the pass's
      threshold, every candidate before it is, and every candidate at all is picked or occluded
      beyond the threshold of the pass before. */
  ghost predicate PickedIn(pool: seq<Neighbor>, djk: Metric, lim: nat, before: seq<nat>, t: nat, n: nat) {
    && t < lim <= |pool| && t !in before && !OccludedBeyond(pool, djk, Threshold(n), before, t)
    && AllBeyond(pool, djk, Threshold(n), before, t)
    && (n > 0 ==> AllBeyond(pool, djk, Threshold(n - 1), before, lim))
  }

  /** The picks in order, each with its pass. */
  ghost predicate Graded(pool: seq<Neighbor>, djk: Metric, lim: nat, chosen: seq<nat>, passes: seq<nat>) {
    |passes| == |chosen| && forall i :: 0 <= i < |chosen| ==> PickedIn(pool, djk, lim, chosen[..i], chosen[i], passes[i])
  }

  lemma GradedMore(pool: seq<Neighbor>, djk: Metric, lim: nat, chosen: seq<nat>, passes: seq<nat>, t: nat, n: nat)
    requires Graded(pool, djk, lim, chosen, passes) && PickedIn(pool, djk, lim, chosen, t, n)
    ensures Graded(pool, djk, lim, chosen + [t], passes + [n])
  {
    var c, p := chosen + [t], passes + [n];
    forall i | 0 <= i < |c| ensures PickedIn(pool, djk, lim, c[..i], c[i], p[i]) {
      if i < |chosen| { assert c[..i] == chosen[..i]; } else { assert c[..i] == chosen; }
    }
  }

  /** More picks occlude no less. */
  lemma BeyondMore(pool: seq<Neighbor>, djk: Metric, x: real, chosen: seq<nat>, lim: nat, s: nat)
    requires AllBeyond(pool, djk, x, chosen, lim)
    ensures AllBeyond(pool, djk, x, chosen + [s], lim)
  {
    forall t | 0 <= t < lim && t !in chosen + [s] ensures OccludedBeyond(pool, djk, x, chosen + [s], t) {
      var w :| w in chosen && w < t && pool[w].distance <= pool[t].distance && !Apart(pool, djk, x, t, w);
      assert w in chosen + [s];
    }
  }

  ghost predicate Beyond(fs: seq<Factor>, chosen: seq<nat>, n: nat, x: real) {
    n <= |fs| && forall t :: 0 <= t < n && t !in chosen ==> Above(fs[t], x)
  }

  /** In pass n: the picks so far with their passes, and the factors. */
  ghost predicate Passing(pool: seq<Neighbor>, djk: Metric, alpha: real, lim: nat, result: seq<Neighbor>, chosen: seq<nat>,
                          passes: seq<nat>, n: nat, fs: seq<Factor>) {
    && Picks(pool, djk, alpha, lim, result, chosen) && FactorsOk(pool, djk, alpha, chosen, fs, lim)
    && Graded(pool, djk, lim, chosen, passes) && (forall k :: 0 <= k < |passes| ==> passes[k] <= n)
    && (n > 0 ==> AllBeyond(pool, djk, Threshold(n - 1), chosen, lim))
  }

  /** One pass: every candidate whose factor is not above the threshold is chosen. */
  method Pass(pool: seq<Neighbor>, djk: Metric, alpha: real, cur: real, degree: nat, lim: nat, fs: array<Factor>,
              result0: seq<Neighbor>, ghost chosen0: seq<nat>, ghost passes0: seq<nat>, ghost n: nat)
    returns (result: seq<Neighbor>, ghost chosen: seq<nat>, ghost passes: seq<nat>)
    requires NonNegative(pool, djk) && Sorted(pool) && 1.0 <= cur <= alpha && cur == Threshold(n) && |result0| <= degree
    requires Passing(pool, djk, alpha, lim, result0, chosen0, passes0, n, fs[..])
    modifies fs
    ensures Passing(pool, djk, alpha, lim, result, chosen, passes, n, fs[..]) && |result| <= degree
    ensures |result| < degree ==> AllBeyond(pool, djk, cur, chosen, lim)
  {
    result, chosen, passes := result0, chosen0, passes0;
    var start := 0;
    while |result| < degree && start < lim
      invariant 0 <= start <= lim && |result| <= degree && Beyond(fs[..], chosen, start, cur)
      invariant Passing(pool, djk, alpha, lim, result, chosen, passes, n, fs[..])
    {
      result, chosen, passes := Look(pool, djk, alpha, cur, start, lim, fs, result, chosen, passes, n);
      start := start + 1;
    }
    if |result| < degree { AllBeyondMeans(pool, djk, alpha, cur, chosen, fs[..], lim, lim); }
  }

  /** The candidate at `start` is taken if its factor is not above the threshold. */
  method Look(pool: seq<Neighbor>, djk: Metric, alpha: real, cur: real, start: nat, lim: nat, fs: array<Factor>, result0: seq<Neighbor>,
              ghost chosen0: seq<nat>, ghost passes0: seq<nat>, ghost n: nat)
    returns (result: seq<Neighbor>, ghost chosen: seq<nat>, ghost passes: seq<nat>)
    requires NonNegative(pool, djk) && Sorted(pool) && 1.0 <= cur <= alpha && cur == Threshold(n) && start < lim
    requires Passing(pool, djk, alpha, lim, result0, chosen0, passes0, n, fs[..]) && Beyond(fs[..], chosen0, start, cur)
    modifies fs
    ensures Passing(pool, djk, alpha, lim, result, chosen, passes, n, fs[..]) && Beyond(fs[..], chosen, start + 1, cur)
    ensures |result0| <= |result| <= |result0| + 1
  {
    result, chosen, passes := result0, chosen0, passes0;
    ghost var before := fs[..];
    assert FactorOk(pool, djk, alpha, chosen, start, before[start]);
    if !Above(fs[start], cur) {
      ChooseSpread(pool, djk, alpha, chosen, lim, start, fs[start]);
      ChoosePicked(pool, djk, alpha, cur, chosen, passes, before, lim, start, n);
      Occlude(pool, djk, alpha, start, lim, fs, chosen);
      BeyondKept(before, fs[..], chosen, start, cur);
      result, chosen, passes := result + [pool[start]], chosen + [start], passes + [n];
    }
  }

  lemma BeyondKept(before: seq<Factor>, after: seq<Factor>, chosen: seq<nat>, start: nat, cur: real)
    requires Beyond(before, chosen, start, cur) && start < |before| == |after| && before[..start] == after[..start]
    ensures Beyond(after, chosen + [start], start + 1, cur)
  {
    forall t | 0 <= t < start && t !in chosen + [start] ensures Above(after[t], cur) {
      assert after[t] == after[..start][t] == before[..start][t] == before[t];
    }
    assert start in chosen + [start];
  }

  lemma BeyondMeans(pool: seq<Neighbor>, djk: Metric, alpha: real, x: real, chosen: seq<nat>, fs: seq<Factor>, lim: nat, t: nat)
    requires NonNegative(pool, djk) && Sorted(pool) && x >= 0.0 && FactorsOk(pool, djk, alpha, chosen, fs, lim)
    requires t < lim && t !in chosen && Above(fs[t], x)
    ensures OccludedBeyond(pool, djk, x, chosen, t)
  {
    assert FactorOk(pool, djk, alpha, chosen, t, fs[t]);
    var s :| s in chosen && s < t && Occlusion(pool, djk, t, s) == fs[t];
    ApartMeans(pool, djk, x, t, s);
  }

  lemma AllBeyondMeans(pool: seq<Neighbor>, djk: Metric, alpha: real, x: real, chosen: seq<nat>, fs: seq<Factor>, lim: nat, n: nat)
    requires NonNegative(pool, djk) && Sorted(pool) && x >= 0.0 && FactorsOk(pool, djk, alpha, chosen, fs, lim)
    requires n <= lim && Beyond(fs, chosen, n, x)
    ensures AllBeyond(pool, djk, x, chosen, n)
  {
    forall t | 0 <= t < n && t !in chosen ensures OccludedBeyond(pool, djk, x, chosen, t) {
      BeyondMeans(pool, djk, alpha, x, chosen, fs, lim, t);
    }
  }

  lemma ChoosePicked(pool: seq<Neighbor>, djk: Metric, alpha: real, cur: real, chosen: seq<nat>, passes: seq<nat>, fs: seq<Factor>,
                     lim: nat, start: nat, n: nat)
    requires NonNegative(pool, djk) && Sorted(pool) && 1.0 <= cur <= alpha && cur == Threshold(n)
    requires FactorsOk(pool, djk, alpha, chosen, fs, lim) && start < lim && start !in chosen
    requires Beyond(fs, chosen, start, cur) && !Above(fs[start], cur)
    requires Graded(pool, djk, lim, chosen, passes) && (n > 0 ==> AllBeyond(pool, djk, Threshold(n - 1), chosen, lim))
    ensures Graded(pool, djk, lim, chosen + [start], passes + [n])
    ensures n > 0 ==> AllBeyond(pool, djk, Threshold(n - 1), chosen + [start], lim)
  {
    if n > 0 { BeyondMore(pool, djk, Threshold(n - 1), chosen, lim, start); }
    AllBeyondMeans(pool, djk, alpha, cur, chosen, fs, lim, start);
    NotBeyond(pool, djk, alpha, cur, chosen, start, fs[start]);
    GradedMore(pool, djk, lim, chosen, passes, start, n);
  }

  lemma NotBeyond(pool: seq<Neighbor>, djk: Metric, alpha: real, cur: real, chosen: seq<nat>, t: nat, f: Factor)
    requires NonNegative(pool, djk) && 0.0 <= cur <= alpha && t < |pool| && t !in chosen
    requires FactorOk(pool, djk, alpha, chosen, t, f) && !Above(f, cur)
    ensures !OccludedBeyond(pool, djk, cur, chosen, t)
  {
    forall s | s in chosen && s < t ensures Apart(pool, djk, cur, t, s) {
      assert AtMost(Occlusion(pool, djk, t, s), f);
      ApartMeans(pool, djk, cur, t, s);
    }
  }

  /** The parameters of pruning. */
  datatype Rule = Rule(djk: Metric, range: nat, maxc: nat, alpha: real)

  /** What pruning keeps of a sorted pool: the entries, their positions in the order picked, the
      pass in which each was picked, and the number of the last pass. */
  datatype Selection = Selection(pool: seq<Neighbor>, result: seq<Neighbor>, chosen: seq<nat>, passes: seq<nat>, last: nat)

  /** At most `range` entries, each once, and none occluded by an earlier pick beyond alpha; each was
      picked as its pass says, at a threshold of at most alpha; and if there is room left, every other
      candidate is occluded beyond the last threshold up to alpha. */
  ghost predicate Selected(s: Selection, rule: Rule) {
    var lim := Min(|s.pool|, rule.maxc);
    && Sorted(s.pool) && |s.result| <= rule.range && (rule.alpha < 1.0 ==> s.result == [])
    && Picks(s.pool, rule.djk, rule.alpha, lim, s.result, s.chosen) && Graded(s.pool, rule.djk, lim, s.chosen, s.passes)
    && (forall k :: 0 <= k < |s.passes| ==> Threshold(s.passes[k]) <= rule.alpha)
    && (rule.alpha >= 1.0 && s.pool != [] && |s.result| < rule.range ==>
          && Threshold(s.last) <= rule.alpha < Threshold(s.last + 1)
          && AllBeyond(s.pool, rule.djk, Threshold(s.last), s.chosen, lim))
  }

  lemma NoneBeyond(pool: seq<Neighbor>, djk: Metric, x: real, lim: nat)
    requires 0 < lim <= |pool|
    ensures !AllBeyond(pool, djk, x, [], lim)
  {
    assert !OccludedBeyond(pool, djk, x, [], 0);
  }

  /** Something is picked, unless the limits forbid it. */
  lemma SomePick(s: Selection, rule: Rule)
    requires Selected(s, rule) && s.pool != [] && rule.range >= 1 && rule.maxc >= 1 && rule.alpha >= 1.0
    ensures s.result != [] && s.result[0] in s.pool
  {
    NoneBeyond(s.pool, rule.djk, Threshold(s.last), Min(|s.pool|, rule.maxc));
    assert s.result[0] == s.pool[s.chosen[0]];
  }

  /** occlude_list */
  method OccludeList(pool: seq<Neighbor>, rule: Rule) returns (result: seq<Neighbor>, ghost chosen: seq<nat>, ghost passes: seq<nat>, ghost last: nat)
    requires NonNegative(pool, rule.djk) && Sorted(pool)
    ensures |result| <= rule.range && Selected(Selection(pool, result, chosen, passes, last), rule)
  {
    result, chosen, passes, last := [], [], [], 0;
    if pool == [] { return; }
    var fs := new Factor[|pool|](_ => Fin(0.0));
    var cur := 1.0;
    ghost var n := 0;
    NoPasses(pool, rule, fs[..]);
    while cur <= rule.alpha && |result| < rule.range
      invariant cur >= 1.0 && cur == Threshold(n) && fresh(fs) && Rising(Selection(pool, result, chosen, passes, last), rule, n, fs[..])
      decreases 5.0 * (rule.alpha - cur)
    {
      result, chosen, passes := NextPass(pool, rule, cur, fs, result, chosen, passes, last, n);
      last, n := n, n + 1;
      cur := cur * 1.2;
    }
    AllPassed(Selection(pool, result, chosen, passes, last), rule, n, fs[..]);
  }

  method NextPass(pool: seq<Neighbor>, rule: Rule, cur: real, fs: array<Factor>, result0: seq<Neighbor>,
                  ghost chosen0: seq<nat>, ghost passes0: seq<nat>, ghost last: nat, ghost n: nat)
    returns (result: seq<Neighbor>, ghost chosen: seq<nat>, ghost passes: seq<nat>)
    requires NonNegative(pool, rule.djk) && Sorted(pool) && 1.0 <= cur <= rule.alpha && cur == Threshold(n) && |result0| < rule.range
    requires Rising(Selection(pool, result0, chosen0, passes0, last), rule, n, fs[..])
    modifies fs
    ensures Rising(Selection(pool, result, chosen, passes, n), rule, n + 1, fs[..])
  {
    result, chosen, passes := Pass(pool, rule.djk, rule.alpha, cur, rule.range, Min(|pool|, rule.maxc), fs, result0, chosen0, passes0, n);
  }

  lemma NoPasses(pool: seq<Neighbor>, rule: Rule, fs: seq<Factor>)
    requires |fs| == |pool| && forall t :: 0 <= t < |fs| ==> fs[t] == Fin(0.0)
    ensures Rising(Selection(pool, [], [], [], 0), rule, 0, fs)
  {
  }

  /** After n passes. */
  ghost predicate Rising(s: Selection, rule: Rule, n: nat, fs: seq<Factor>) {
    && Passing(s.pool, rule.djk, rule.alpha, Min(|s.pool|, rule.maxc), s.result, s.chosen, s.passes, s.last, fs) && |s.result| <= rule.range
    && (if n == 0 then s.last == 0 && s.result == [] else s.last == n - 1 && Threshold(s.last) <= rule.alpha)
    && (n > 0 && |s.result| < rule.range ==> AllBeyond(s.pool, rule.djk, Threshold(s.last), s.chosen, Min(|s.pool|, rule.maxc)))
  }

  lemma AllPassed(s: Selection, rule: Rule, n: nat, fs: seq<Factor>)
    requires Sorted(s.pool) && s.pool != [] && Rising(s, rule, n, fs)
    requires Threshold(n) > rule.alpha || |s.result| >= rule.range
    ensures Selected(s, rule)
  {
    ThresholdAtLeast(s.last);
    forall k | 0 <= k < |s.passes| ensures Threshold(s.passes[k]) <= rule.alpha { ThresholdMono(s.passes[k], s.last); }
  }

  ghost predicate IsIdOf(pool: seq<Neighbor>, id: nat) { exists i :: 0 <= i < |pool| && pool[i].id == id }

  /** Adjacency of a node under construction: candidates, not the node itself, each once. */
  ghost predicate KeptIds(pool: seq<Neighbor>, location: nat, ids: seq<nat>) {
    && (forall i :: 0 <= i < |ids| ==> ids[i] != location && IsIdOf(pool, ids[i]))
    && Distinct(ids)
  }

  /** Adds a candidate that is not there yet. */
  lemma KeepMore(pool: seq<Neighbor>, location: nat, ids: seq<nat>, i: nat)
    requires KeptIds(pool, location, ids) && i < |pool| && pool[i].id != location && pool[i].id !in ids
    ensures KeptIds(pool, location, ids + [pool[i].id])
  {
  }

  lemma PickedOnce(pool: seq<Neighbor>, djk: Metric, alpha: real, lim: nat, result: seq<Neighbor>, chosen: seq<nat>)
    requires DistinctIds(pool) && Picks(pool, djk, alpha, lim, result, chosen)
    ensures DistinctIds(result) && forall i :: 0 <= i < |result| ==> IsIdOf(pool, result[i].id)
  {
    forall i, j | 0 <= i < j < |result| ensures result[i].id != result[j].id {
      assert result[i] == pool[chosen[i]] && result[j] == pool[chosen[j]] && chosen[i] != chosen[j];
    }
  }

  lemma SortedPool(pool: seq<Neighbor>, djk: Metric)
    requires NonNegative(pool, djk) && DistinctIds(pool)
    ensures NonNegative(SortSeq(pool), djk) && DistinctIds(SortSeq(pool)) && Sorted(SortSeq(pool))
    ensures forall id :: IsIdOf(SortSeq(pool), id) <==> IsIdOf(pool, id)
  {
    var t := SortSeq(pool);
    SortKeeps(pool);
    SortOrdered(pool);
    forall i | 0 <= i < |t| ensures t[i].distance >= 0.0 { assert t[i] in pool; }
    forall id ensures IsIdOf(t, id) <==> IsIdOf(pool, id) {
      if IsIdOf(t, id) {
        var i :| 0 <= i < |t| && t[i].id == id;
        assert t[i] in pool;
      }
      if IsIdOf(pool, id) {
        var i :| 0 <= i < |pool| && pool[i].id == id;
        assert pool[i] in t;
      }
    }
  }

  /** The ids of a list in order, without the entry at p, which is the node itself; p is the length
      if the node is not in the list. */
  ghost predicate OthersAt(result: seq<Neighbor>, location: nat, ids: seq<nat>, p: nat) {
    && p <= |result| && (p < |result| ==> result[p].id == location)
    && |ids| == (if p < |result| then |result| - 1 else |result|)
    && forall k :: 0 <= k < |ids| ==> ids[k] != location && ids[k] == result[if k < p then k else k + 1].id
  }

  ghost predicate OthersOf(result: seq<Neighbor>, location: nat, ids: seq<nat>) { exists p: nat :: OthersAt(result, location, ids, p) }

  /** What that means, entry by entry: the same ids but the node's own, in the same order. */
  lemma OthersMean(result: seq<Neighbor>, location: nat, ids: seq<nat>)
    requires OthersOf(result, location, ids) && DistinctIds(result)
    ensures forall x :: x in ids <==> x != location && IsIdOf(result, x)
    ensures |ids| == |result| - if IsIdOf(result, location) then 1 else 0
    ensures forall k, l, i, j :: 0 <= k < l < |ids| && 0 <= i < |result| && 0 <= j < |result| && result[i].id == ids[k] && result[j].id == ids[l] ==> i < j
  {
    var p: nat :| OthersAt(result, location, ids, p);
    if p == |result| {
      forall i | 0 <= i < |result| ensures result[i].id != location { assert ids[i] == result[i].id; }
    }
    assert IsIdOf(result, location) <==> p < |result|;
    forall x | x != location && IsIdOf(result, x) ensures x in ids {
      var i :| 0 <= i < |result| && result[i].id == x;
      assert ids[if i < p then i else i - 1] == x;
    }
  }

  lemma OthersSome(result: seq<Neighbor>, location: nat, ids: seq<nat>)
    requires OthersOf(result, location, ids) && result != [] && result[0].id != location
    ensures ids != []
  {
    var p: nat :| OthersAt(result, location, ids, p);
    assert p > 0;
  }

  method WithoutSelf(pool: seq<Neighbor>, result: seq<Neighbor>, location: nat) returns (ids: seq<nat>)
    requires DistinctIds(result) && forall i :: 0 <= i < |result| ==> IsIdOf(pool, result[i].id)
    ensures OthersOf(result, location, ids) && KeptIds(pool, location, ids) && |ids| <= |result|
  {
    ids := [];
    var i := 0;
    ghost var p := 0;
    while i < |result|
      invariant 0 <= i <= |result| && OthersAt(result[..i], location, ids, p)
    {
      if result[i].id != location {
        ids := ids + [result[i].id];
        if p == i { p := p + 1; }
      }
      i := i + 1;
    }
    assert result[..i] == result;
    forall k, l | 0 <= k < l < |ids| ensures ids[k] != ids[l] { }
  }

  /** With saturation, what was left out is added nearest first until the list is full. */
  ghost predicate Saturated(pool: seq<Neighbor>, location: nat, range: nat, kept: seq<nat>, pruned: seq<nat>) {
    && kept <= pruned && (|pruned| < range ==> forall i :: 0 <= i < |pool| ==> pool[i].id == location || pool[i].id in pruned)
    && forall i, j :: 0 <= i < j < |pool| && pool[j].id in pruned && pool[j].id !in kept ==> pool[i].id == location || pool[i].id in pruned
  }

  method Saturate(pool: seq<Neighbor>, location: nat, range: nat, kept: seq<nat>) returns (pruned: seq<nat>)
    requires DistinctIds(pool) && KeptIds(pool, location, kept) && |kept| <= range
    ensures |pruned| <= range && KeptIds(pool, location, pruned) && Saturated(pool, location, range, kept, pruned)
  {
    pruned := kept;
    var i := 0;
    while i < |pool| && |pruned| < range
      invariant 0 <= i <= |pool| && kept <= pruned && |pruned| <= range && KeptIds(pool, location, pruned)
      invariant forall j :: 0 <= j < i ==> pool[j].id == location || pool[j].id in pruned
      invariant forall j :: i <= j < |pool| && pool[j].id in pruned ==> pool[j].id in kept
    {
      if pool[i].id !in pruned && pool[i].id != location {
        KeepMore(pool, location, pruned, i);
        pruned := pruned + [pool[i].id];
      }
      i := i + 1;
    }
  }

  /** What prune_neighbors makes of a pool: the selected candidates without the node itself, in the
      order picked, and with saturation the nearest others behind them. */
  ghost predicate PrunedTo(location: nat, pool0: seq<Neighbor>, rule: Rule, saturate: bool, pruned: seq<nat>, sel: Selection) {
    && Selected(sel, rule) && sel.pool == SortSeq(pool0) && |pruned| <= rule.range && KeptIds(pool0, location, pruned)
    && exists n :: 0 <= n <= |pruned| && OthersOf(sel.result, location, pruned[..n])
         && if saturate && rule.alpha > 1.0 then Saturated(sel.pool, location, rule.range, pruned[..n], pruned) else n == |pruned|
  }

  /** Pruning leaves something, unless the limits forbid it. */
  lemma PrunedSome(location: nat, pool0: seq<Neighbor>, rule: Rule, saturate: bool, pruned: seq<nat>, sel: Selection)
    requires PrunedTo(location, pool0, rule, saturate, pruned, sel) && pool0 != [] && !IsIdOf(pool0, location)
    requires rule.range >= 1 && rule.maxc >= 1 && rule.alpha >= 1.0
    ensures pruned != []
  {
    SortKeeps(pool0);
    SomePick(sel, rule);
    assert sel.result[0] in pool0 && IsIdOf(pool0, sel.result[0].id);
    var n :| 0 <= n <= |pruned| && OthersOf(sel.result, location, pruned[..n]);
    OthersSome(sel.result, location, pruned[..n]);
  }

  /** prune_neighbors, which crashes on an empty pool. */
  method PruneNeighbors(location: nat, pool0: seq<Neighbor>, rule: Rule, saturate: bool)
    returns (ok: bool, pruned: seq<nat>, ghost sel: Selection)
    requires NonNegative(pool0, rule.djk) && DistinctIds(pool0)
    ensures ok <==> pool0 != []
    ensures ok ==> PrunedTo(location, pool0, rule, saturate, pruned, sel) && DistinctIds(sel.result)
    ensures ok && !(saturate && rule.alpha > 1.0) ==> forall x :: x in pruned <==> x != location && IsIdOf(sel.result, x)
    ensures ok && !(saturate && rule.alpha > 1.0) ==> |pruned| == |sel.result| - if IsIdOf(sel.result, location) then 1 else 0
  {
    if pool0 == [] { return false, [], Selection([], [], [], [], 0); }
    SortedPool(pool0, rule.djk);
    var pool := SortSeq(pool0);
    var result, chosen, passes, last := OccludeList(pool, rule);
    sel := Selection(pool, result, chosen, passes, last);
    PickedOnce(pool, rule.djk, rule.alpha, Min(|pool|, rule.maxc), result, chosen);
    var kept := WithoutSelf(pool, result, location);
    OthersMean(result, location, kept);
    pruned := kept;
    if saturate && rule.alpha > 1.0 {
      pruned := Saturate(pool, location, rule.range, kept);
    }
    assert pruned[..|kept|] == kept;
    ok := true;
  }
}
