/** The fair scheduler: virtual run time, CFS and EEVDF dispatch, and how far any thread can get ahead. */
module Fair {
  import Division

  const TIME_SLICE: nat := 4
  const VRUNTIME_SCALE: nat := 1024
  const INT64_MAX: int := 0x7FFF_FFFF_FFFF_FFFF

  /** Weights by nice + 20. */
  const FAIR_WEIGHT: seq<int> :=
    [88761, 71755, 56483, 46273, 36291, 29154, 23254, 18705, 14949, 11916,
     9548, 7620, 6100, 4904, 3906, 3121, 2501, 1991, 1586, 1277,
     1024, 820, 655, 526, 423, 335, 272, 215, 172, 137,
     110, 87, 70, 56, 45, 36, 29, 23, 18, 15,
     12]

  datatype Thread = Thread(nice: int, vruntime: int, deadline: int)

  function Weight(nice: int): (w: int)
    ensures 12 <= w <= 88761
  {
    var i := if nice + 20 < 0 then 0 else if nice + 20 > 40 then 40 else nice + 20;
    FAIR_WEIGHT[i]
  }

  /** Virtual time of `ticks` at the thread's weight. */
  function Virtual(ticks: nat, nice: int): nat { ticks * VRUNTIME_SCALE * 1024 / Weight(nice) }

  /** A full slice: floor(4 * 2^20 / weight). */
  function Slice(nice: int): nat { Virtual(TIME_SLICE, nice) }

  /** fair_update_vruntime. */
  function Charge(t: Thread, ticks: nat): Thread {
    if ticks == 0 then t
    else
      var v := t.vruntime + Virtual(ticks, t.nice);
      t.(vruntime := v, deadline := v + Slice(t.nice))
  }

  lemma DivMono(a: nat, b: nat, w: nat)
    requires a <= b && w > 0
    ensures a / w <= b / w
  {
    Division.Cancel(a / w, b / w + 1, w);
  }

  /** A charge of at most a slice moves the virtual run time forward by at most a slice. */
  lemma ChargeBounds(t: Thread, ticks: nat)
    requires ticks <= TIME_SLICE
    ensures t.vruntime <= Charge(t, ticks).vruntime <= t.vruntime + Slice(t.nice)
    ensures Slice(t.nice) <= 349525
  {
    DivMono(ticks * VRUNTIME_SCALE * 1024, TIME_SLICE * VRUNTIME_SCALE * 1024, Weight(t.nice));
    var w := Weight(t.nice);
    assert TIME_SLICE * VRUNTIME_SCALE * 1024 / w <= 349525;
  }

  // ---------------------------------------------------------------- dispatch

  predicate IsMin(ts: seq<Thread>, m: int) {
    (exists i :: 0 <= i < |ts| && ts[i].vruntime == m) && forall i :: 0 <= i < |ts| ==> m <= ts[i].vruntime
  }

  predicate Representable(ts: seq<Thread>) {
    forall i :: 0 <= i < |ts| ==> ts[i].vruntime < INT64_MAX && ts[i].deadline < INT64_MAX
  }

  /** The eligibility threshold does not wrap around either. */
  predicate ThresholdFits(s: State) {
    && Division.I64(s.minV) && Division.I64(s.minV + VRUNTIME_SCALE)
    && forall i :: 0 <= i < |s.ts| ==> s.ts[i].vruntime + VRUNTIME_SCALE <= INT64_MAX
  }

  /** thread_schedule_cfs: the first thread of least virtual run time. */
  method PickCfs(ready: seq<Thread>) returns (k: nat)
    requires ready != [] && Representable(ready)
    ensures k < |ready| && IsMin(ready, ready[k].vruntime)
    ensures forall i :: 0 <= i < k ==> ready[i].vruntime > ready[k].vruntime
  {
    var min := INT64_MAX;
    k := |ready|;
    for i := 0 to |ready|
      invariant k <= |ready| && (k == |ready| <==> min == INT64_MAX)
      invariant k < |ready| ==> k < i && min == ready[k].vruntime
      invariant i > 0 ==> k < |ready|
      invariant forall j :: 0 <= j < i ==> min <= ready[j].vruntime
      invariant forall j :: 0 <= j < k && j < i ==> ready[j].vruntime > min
    {
      assert ready[i].vruntime < INT64_MAX;
      if ready[i].vruntime < min { min, k := ready[i].vruntime, i; }
    }
  }

  predicate Eligible(t: Thread, minV: int) { t.vruntime <= minV + VRUNTIME_SCALE }

  /** What EEVDF dispatch promises: a thread within the slack of the least virtual run time, with the earliest
      deadline among those. */
  predicate EevdfChoice(ts: seq<Thread>, minV: int, k: nat) {
    && k < |ts| && Eligible(ts[k], minV)
    && forall i :: 0 <= i < |ts| && Eligible(ts[i], minV) ==> ts[k].deadline <= ts[i].deadline
  }

  function Max(a: int, b: int): int { if a > b then a else b }

  method LeastVruntime(ready: seq<Thread>) returns (m: int)
    requires ready != [] && Representable(ready)
    ensures IsMin(ready, m)
  {
    m := INT64_MAX;
    for i := 0 to |ready|
      invariant forall j :: 0 <= j < i ==> m <= ready[j].vruntime
      invariant if i == 0 then m == INT64_MAX else exists j :: 0 <= j < i && ready[j].vruntime == m
    {
      if ready[i].vruntime < m { m := ready[i].vruntime; }
    }
  }

  /** Among the threads at or below the threshold, the first with the earliest deadline; none if there is no such thread. */
  method EarliestBelow(ready: seq<Thread>, threshold: int) returns (k: nat)
    requires Representable(ready)
    ensures k <= |ready| && (k < |ready| ==> ready[k].vruntime <= threshold)
    ensures k < |ready| ==> forall i :: 0 <= i < |ready| && ready[i].vruntime <= threshold ==> ready[k].deadline <= ready[i].deadline
    ensures k == |ready| ==> forall i :: 0 <= i < |ready| ==> ready[i].vruntime > threshold
  {
    var earliest := INT64_MAX;
    k := |ready|;
    for i := 0 to |ready|
      invariant k < |ready| ==> k < i && ready[k].vruntime <= threshold && earliest == ready[k].deadline
      invariant k == |ready| ==> earliest == INT64_MAX && forall j :: 0 <= j < i ==> ready[j].vruntime > threshold
      invariant k <= |ready| && forall j :: 0 <= j < i && ready[j].vruntime <= threshold ==> earliest <= ready[j].deadline
    {
      if ready[i].vruntime <= threshold && ready[i].deadline < earliest {
        earliest, k := ready[i].deadline, i;
      }
    }
  }

  method FirstWith(ready: seq<Thread>, v: int) returns (k: nat)
    requires exists i :: 0 <= i < |ready| && ready[i].vruntime == v
    ensures k < |ready| && ready[k].vruntime == v && forall i :: 0 <= i < k ==> ready[i].vruntime != v
  {
    k := 0;
    while ready[k].vruntime != v
      invariant k < |ready| && forall i :: 0 <= i < k ==> ready[i].vruntime != v
      decreases |ready| - k
    {
      assert exists i :: k < i < |ready| && ready[i].vruntime == v;
      k := k + 1;
    }
  }

  /** thread_schedule_eevdf. The earliest eligible deadline is found while the threshold fits in 64 bits. If it wraps
      around, which makes it negative, threads of run time zero or more are dispatched by the fallback instead: the
      first of least virtual run time. */
  method PickEevdf(ready: seq<Thread>, minV: int) returns (k: nat, minV': int)
    requires ready != [] && Representable(ready) && Division.I64(minV)
    ensures k < |ready| && exists m :: IsMin(ready, m) && minV' == Max(minV, m)
    ensures minV' + VRUNTIME_SCALE <= INT64_MAX ==> EevdfChoice(ready, minV', k)
    ensures minV' + VRUNTIME_SCALE > INT64_MAX && (forall i :: 0 <= i < |ready| ==> ready[i].vruntime >= 0) ==>
      IsMin(ready, ready[k].vruntime) && forall i :: 0 <= i < k ==> ready[i].vruntime > ready[k].vruntime
  {
    var least := LeastVruntime(ready);
    minV' := if least > minV then least else minV;
    Threshold(minV');
    k := EarliestBelow(ready, Division.ToI64(minV' + VRUNTIME_SCALE));
    assert minV' + VRUNTIME_SCALE <= INT64_MAX ==> exists i :: 0 <= i < |ready| && Eligible(ready[i], minV');
    if k == |ready| { k := FirstWith(ready, least); }
  }

  lemma Threshold(minV: int)
    requires Division.I64(minV)
    ensures minV + VRUNTIME_SCALE > INT64_MAX ==> Division.ToI64(minV + VRUNTIME_SCALE) < 0
    ensures minV + VRUNTIME_SCALE <= INT64_MAX ==> Division.ToI64(minV + VRUNTIME_SCALE) == minV + VRUNTIME_SCALE
  {
  }

  // ---------------------------------------------------------------- runs

  /** All runnable threads at a moment of dispatch, and the scheduler's record of the least virtual run time. */
  datatype State = State(ts: seq<Thread>, minV: int)

  /** Thread `k` is dispatched, runs for `ticks`, and is charged and queued again. */
  function Ran(ts: seq<Thread>, k: nat, ticks: nat): seq<Thread>
    requires k < |ts|
  {
    ts[k := Charge(ts[k], ticks)]
  }

  ghost predicate CfsStep(a: State, b: State) {
    exists k: nat, ticks: nat ::
      k < |a.ts| && ticks <= TIME_SLICE && IsMin(a.ts, a.ts[k].vruntime) && b == a.(ts := Ran(a.ts, k, ticks))
  }

  ghost predicate EevdfStep(a: State, b: State) {
    exists k: nat, ticks: nat, m: int ::
      k < |a.ts| && ticks <= TIME_SLICE && IsMin(a.ts, m) && EevdfChoice(a.ts, Max(a.minV, m), k)
      && b == State(Ran(a.ts, k, ticks), Max(a.minV, m))
  }

  /** Nobody is ahead of the least by more than a slice of its own plus `slack`. */
  predicate LagWithin(s: State, slack: nat) {
    forall i, j :: 0 <= i < |s.ts| && 0 <= j < |s.ts| ==> s.ts[i].vruntime - s.ts[j].vruntime <= Slice(s.ts[i].nice) + slack
  }

  /** One dispatch from a thread at most `slack` above the least keeps the lag bound. */
  lemma RanLag(s: State, k: nat, ticks: nat, slack: nat)
    requires LagWithin(s, slack) && k < |s.ts| && ticks <= TIME_SLICE
    requires forall j :: 0 <= j < |s.ts| ==> s.ts[k].vruntime <= s.ts[j].vruntime + slack
    ensures LagWithin(s.(ts := Ran(s.ts, k, ticks)), slack)
    ensures forall j :: 0 <= j < |s.ts| ==> s.ts[j].vruntime <= Ran(s.ts, k, ticks)[j].vruntime
  {
    ChargeBounds(s.ts[k], ticks);
  }

  predicate StartsEqual(s: State) {
    forall i :: 0 <= i < |s.ts| ==> s.ts[i].vruntime == s.minV
  }

  ghost predicate CfsRun(ss: seq<State>) {
    |ss| > 0 && StartsEqual(ss[0]) && forall k :: 0 <= k < |ss| - 1 ==> CfsStep(ss[k], ss[k + 1])
  }

  ghost predicate EevdfRun(ss: seq<State>) {
    |ss| > 0 && StartsEqual(ss[0]) && forall k :: 0 <= k < |ss| - 1 ==> EevdfStep(ss[k], ss[k + 1])
  }

  /** CFS: at every dispatch no thread is ahead of another by more than floor(4 * 2^20 / weight). */
  lemma {:induction false} CfsLag(ss: seq<State>, k: nat)
    requires CfsRun(ss) && k < |ss|
    ensures LagWithin(ss[k], 0)
    decreases k
  {
    if k > 0 {
      CfsLag(ss, k - 1);
      var a := ss[k - 1];
      assert CfsStep(a, ss[k - 1 + 1]);
      var i: nat, ticks: nat :| i < |a.ts| && ticks <= TIME_SLICE && IsMin(a.ts, a.ts[i].vruntime) && ss[k] == a.(ts := Ran(a.ts, i, ticks));
      RanLag(a, i, ticks, 0);
    }
  }

  /** EEVDF: the bound grows by the eligibility slack; the recorded minimum is a lower bound of every thread's
      virtual run time and never decreases. */
  ghost predicate EevdfInv(s: State) {
    LagWithin(s, VRUNTIME_SCALE) && forall i :: 0 <= i < |s.ts| ==> s.minV <= s.ts[i].vruntime
  }

  lemma EevdfKeeps(a: State, b: State)
    requires EevdfInv(a) && EevdfStep(a, b)
    ensures EevdfInv(b) && a.minV <= b.minV && IsMin(a.ts, b.minV)
  {
    var k: nat, ticks: nat, m: int :| k < |a.ts| && ticks <= TIME_SLICE && IsMin(a.ts, m) && EevdfChoice(a.ts, Max(a.minV, m), k)
      && b == State(Ran(a.ts, k, ticks), Max(a.minV, m));
    RanLag(a, k, ticks, VRUNTIME_SCALE);
    forall j | 0 <= j < |b.ts| ensures b.minV <= b.ts[j].vruntime {
      assert a.ts[j].vruntime <= Ran(a.ts, k, ticks)[j].vruntime;
    }
  }

  lemma {:induction false} EevdfLag(ss: seq<State>, k: nat)
    requires EevdfRun(ss) && k < |ss|
    ensures EevdfInv(ss[k])
    decreases k
  {
    if k > 0 {
      EevdfLag(ss, k - 1);
      assert EevdfStep(ss[k - 1], ss[k - 1 + 1]);
      EevdfKeeps(ss[k - 1], ss[k]);
    }
  }

  /** The recorded minimum never decreases over a run. */
  lemma {:induction false} MinVruntimeMonotone(ss: seq<State>, j: nat, k: nat)
    requires EevdfRun(ss) && j <= k < |ss|
    ensures ss[j].minV <= ss[k].minV
    decreases k - j
  {
    if j < k {
      MinVruntimeMonotone(ss, j, k - 1);
      EevdfLag(ss, k - 1);
      assert EevdfStep(ss[k - 1], ss[k - 1 + 1]);
      EevdfKeeps(ss[k - 1], ss[k]);
    }
  }

  // ---------------------------------------------------------------- 64-bit range

  const MAX_SLICE: nat := 349525

  /** After `k` dispatches from virtual time `v0`. */
  predicate Reached(s: State, v0: int, k: nat) {
    forall i :: 0 <= i < |s.ts| ==> s.ts[i].vruntime <= v0 + k * MAX_SLICE && s.ts[i].deadline <= v0 + k * MAX_SLICE + MAX_SLICE
  }

  lemma RanReached(s: State, i: nat, ticks: nat, v0: int, k: nat, s': State)
    requires Reached(s, v0, k) && i < |s.ts| && ticks <= TIME_SLICE && s'.ts == Ran(s.ts, i, ticks)
    ensures Reached(s', v0, k + 1)
  {
    ChargeBounds(s.ts[i], ticks);
  }

  /** No run of up to 2^43 dispatches leaves the 64-bit range, so the dispatch loops always find a winner. */
  lemma {:induction false} EevdfRepresentable(ss: seq<State>, k: nat, v0: int)
    requires EevdfRun(ss) && k < |ss| && v0 <= 0x4000_0000_0000_0000 && Reached(ss[0], v0, 0)
    ensures Reached(ss[k], v0, k) && (k <= 0x800_0000_0000 ==> Representable(ss[k].ts)) && |ss[k].ts| == |ss[0].ts|
    decreases k
  {
    if k > 0 {
      EevdfRepresentable(ss, k - 1, v0);
      var a := ss[k - 1];
      assert EevdfStep(a, ss[k - 1 + 1]);
      var i: nat, ticks: nat, m: int :| i < |a.ts| && ticks <= TIME_SLICE && IsMin(a.ts, m) && EevdfChoice(a.ts, Max(a.minV, m), i)
        && ss[k] == State(Ran(a.ts, i, ticks), Max(a.minV, m));
      RanReached(a, i, ticks, v0, k - 1, ss[k]);
    }
  }

  /** Nor does the eligibility threshold, so EEVDF never falls back on the least virtual run time. */
  lemma EevdfThreshold(ss: seq<State>, k: nat, v0: int)
    requires EevdfRun(ss) && k < |ss| && v0 <= 0x4000_0000_0000_0000 && Reached(ss[0], v0, 0)
    requires Division.I64(ss[0].minV) && ss[0].ts != [] && k <= 0x800_0000_0000
    ensures ThresholdFits(ss[k])
  {
    EevdfRepresentable(ss, k, v0);
    EevdfLag(ss, k);
    MinVruntimeMonotone(ss, 0, k);
    assert ss[k].minV <= ss[k].ts[0].vruntime;
  }

  lemma {:induction false} CfsRepresentable(ss: seq<State>, k: nat, v0: int)
    requires CfsRun(ss) && k < |ss| && v0 <= 0x4000_0000_0000_0000 && Reached(ss[0], v0, 0)
    ensures Reached(ss[k], v0, k) && (k <= 0x800_0000_0000 ==> Representable(ss[k].ts))
    decreases k
  {
    if k > 0 {
      CfsRepresentable(ss, k - 1, v0);
      var a := ss[k - 1];
      assert CfsStep(a, ss[k - 1 + 1]);
      var i: nat, ticks: nat :| i < |a.ts| && ticks <= TIME_SLICE && IsMin(a.ts, a.ts[i].vruntime) && ss[k] == a.(ts := Ran(a.ts, i, ticks));
      RanReached(a, i, ticks, v0, k - 1, ss[k]);
    }
  }

  // ---------------------------------------------------------------- the run queue

  predicate Distinct(s: seq<nat>) { forall i, j :: 0 <= i < j < |s| ==> s[i] != s[j] }

  /** Every number below `n` is listed, once. */
  ghost predicate Lists(ready: seq<nat>, n: nat) {
    Distinct(ready) && (forall k :: 0 <= k < |ready| ==> ready[k] < n) && forall i: nat :: i < n ==> i in ready
  }

  function Listed(threads: seq<Thread>, ready: seq<nat>): (ts: seq<Thread>)
    requires forall k :: 0 <= k < |ready| ==> ready[k] < |threads|
    ensures |ts| == |ready| && forall i :: 0 <= i < |ts| ==> ts[i] == threads[ready[i]]
  {
    seq(|ready|, i requires 0 <= i < |ready| => threads[ready[i]])
  }

  lemma ListedAt(threads: seq<Thread>, ready: seq<nat>, i: nat) returns (j: nat)
    requires Lists(ready, |threads|) && i < |threads|
    ensures j < |ready| && ready[j] == i && Listed(threads, ready)[j] == threads[i]
  {
    assert i in ready;
    j :| j < |ready| && ready[j] == i;
  }

  lemma ListedMin(threads: seq<Thread>, ready: seq<nat>, m: int)
    requires Lists(ready, |threads|) && IsMin(Listed(threads, ready), m)
    ensures IsMin(threads, m)
  {
    var ts := Listed(threads, ready);
    var k :| 0 <= k < |ts| && ts[k].vruntime == m;
    assert threads[ready[k]].vruntime == m;
    forall i | 0 <= i < |threads| ensures m <= threads[i].vruntime {
      var j := ListedAt(threads, ready, i);
    }
  }

  lemma ListedChoice(threads: seq<Thread>, ready: seq<nat>, minV: int, k: nat)
    requires Lists(ready, |threads|) && EevdfChoice(Listed(threads, ready), minV, k)
    ensures EevdfChoice(threads, minV, ready[k])
  {
    forall i | 0 <= i < |threads| && Eligible(threads[i], minV) ensures threads[ready[k]].deadline <= threads[i].deadline {
      var j := ListedAt(threads, ready, i);
    }
  }

  lemma ListedRepresentable(threads: seq<Thread>, ready: seq<nat>)
    requires Lists(ready, |threads|) && Representable(threads)
    ensures Representable(Listed(threads, ready))
  {
  }

  /** Taking entry `k` out and putting it at the end lists the same numbers. */
  lemma Requeued(ready: seq<nat>, k: nat, n: nat)
    requires Lists(ready, n) && k < |ready|
    ensures Lists(ready[..k] + ready[k + 1..] + [ready[k]], n)
  {
    var after := ready[..k] + ready[k + 1..] + [ready[k]];
    forall i: nat ensures i in after <==> i in ready {
      assert ready == ready[..k] + [ready[k]] + ready[k + 1..];
    }
  }

  /** Threads by number, and the numbers on the ready list. */
  class RunQueue {
    var threads: seq<Thread>
    var ready: seq<nat>
    var minV: int

    ghost function S(): State
      reads this
    {
      State(threads, minV)
    }

    /** Every thread is on the ready list. */
    ghost predicate AllReady()
      reads this
    {
      threads != [] && Lists(ready, |threads|)
    }

    /** list_remove of the winner, and its later return by thread_yield. */
    method Cycle(k: nat, ticks: nat)
      requires AllReady() && k < |ready| && ready[k] < |threads|
      modifies `threads, `ready
      ensures AllReady() && threads == Ran(old(threads), old(ready[k]), ticks)
    {
      var id := ready[k];
      Requeued(ready, k, |threads|);
      ready := ready[..k] + ready[k + 1..];
      threads := threads[id := Charge(threads[id], ticks)];
      ready := ready + [id];
    }

    /** One CFS dispatch and the slice that follows it. */
    method SliceCfs(ticks: nat)
      requires AllReady() && Representable(threads) && ticks <= TIME_SLICE
      modifies `threads, `ready
      ensures AllReady() && CfsStep(old(S()), S())
    {
      assert 0 in ready;
      ListedRepresentable(threads, ready);
      var k := PickCfs(Listed(threads, ready));
      ListedMin(threads, ready, Listed(threads, ready)[k].vruntime);
      Cycle(k, ticks);
    }

    /** One EEVDF dispatch and the slice that follows it. */
    method SliceEevdf(ticks: nat)
      requires AllReady() && Representable(threads) && ThresholdFits(S()) && ticks <= TIME_SLICE
      modifies this
      ensures AllReady() && EevdfStep(old(S()), S())
    {
      assert 0 in ready;
      ListedRepresentable(threads, ready);
      var k;
      k, minV := PickEevdf(Listed(threads, ready), minV);
      ghost var m :| IsMin(Listed(threads, ready), m) && minV == Max(old(minV), m);
      ListedMin(threads, ready, m);
      ListedChoice(threads, ready, minV, k);
      Cycle(k, ticks);
    }
  }
}
