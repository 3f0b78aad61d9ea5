/** Dispatch under the feedback queue. The ready list is ordered by the priority a thread was created with, so the
    computed priorities never decide who runs, and one thread can run long enough to overflow
    thread_get_recent_cpu. */
module MlfqsRun {
  import opened Division
  import opened Mlfqs
  import Donation

  const TIME_SLICE: nat := 4

  /** Threads are numbered; `slice` counts the ticks of the running one. */
  datatype Kernel = Kernel(stats: Stats, ready: seq<nat>, running: nat, slice: nat)

  function Effs(ts: seq<Thread>): map<nat, int> { map i: nat | i < |ts| :: ts[i].eff }

  /** thread_yield: into the ready list by effective priority, and then the head runs. */
  function Yielded(k: Kernel): Kernel {
    var q := Donation.Insert(Effs(k.stats.threads), k.ready, k.running);
    k.(ready := q[1..], running := q[0], slice := 0)
  }

  /** A timer interrupt, and the yield on return from it when the slice is over. */
  function Next(k: Kernel): (k': Kernel)
    requires k.stats.load >= 0
    ensures k'.stats.load >= 0
  {
    var ticked := k.(stats := TickOf(k.stats, k.running, |k.ready| + 1), slice := k.slice + 1);
    if ticked.slice >= TIME_SLICE then Yielded(ticked) else ticked
  }

  function After(k: Kernel, n: nat): (k': Kernel)
    requires k.stats.load >= 0
    ensures k'.stats.load >= 0
  {
    if n == 0 then k else Next(After(k, n - 1))
  }

  // ---------------------------------------------------------------- who runs

  /** A tick leaves every effective priority alone. */
  lemma TickKeepsEff(s: Stats, running: nat, ready: nat)
    requires s.load >= 0
    ensures Effs(TickOf(s, running, ready).threads) == Effs(s.threads)
  {
    var ts, ts' := s.threads, TickOf(s, running, ready).threads;
    assert |ts'| == |ts| && forall i :: 0 <= i < |ts| ==> ts'[i].eff == ts[i].eff;
  }

  ghost predicate SameQueue(a: Kernel, b: Kernel) {
    a.ready == b.ready && a.running == b.running && a.slice == b.slice && Effs(a.stats.threads) == Effs(b.stats.threads)
  }

  /** The feedback is without effect: two systems that differ in nice values, recent use, computed priorities and load,
      but not in the priorities their threads were created with, run the same threads at the same ticks for ever. */
  lemma {:induction false} FeedbackIgnored(a: Kernel, b: Kernel, n: nat)
    requires a.stats.load >= 0 && b.stats.load >= 0 && SameQueue(a, b)
    ensures SameQueue(After(a, n), After(b, n))
  {
    if n > 0 {
      FeedbackIgnored(a, b, n - 1);
      var a', b' := After(a, n - 1), After(b, n - 1);
      TickKeepsEff(a'.stats, a'.running, |a'.ready| + 1);
      TickKeepsEff(b'.stats, b'.running, |b'.ready| + 1);
    }
  }

  /** The running thread was created with a higher priority than every ready one. */
  predicate Highest(k: Kernel) {
    forall i :: 0 <= i < |k.ready| ==> Donation.At(Effs(k.stats.threads), k.ready[i]) < Donation.At(Effs(k.stats.threads), k.running)
  }

  /** It then keeps the processor: at the end of each slice it goes back to the front of the ready list. */
  lemma HighestStays(k: Kernel)
    requires k.stats.load >= 0 && Highest(k)
    ensures Highest(Next(k)) && Next(k).running == k.running && Next(k).ready == k.ready
    ensures Next(k).stats == TickOf(k.stats, k.running, |k.ready| + 1)
    ensures Next(k).slice == if k.slice + 1 >= TIME_SLICE then 0 else k.slice + 1
  {
    TickKeepsEff(k.stats, k.running, |k.ready| + 1);
  }

  // ---------------------------------------------------------------- one thread above 134 others

  const OTHERS: nat := 134

  function Crowd(a: Thread, b: Thread): (ts: seq<Thread>)
    ensures |ts| == OTHERS + 1 && ts[0] == a && forall i :: 0 < i <= OTHERS ==> ts[i] == b
  {
    [a] + seq(OTHERS, i => b)
  }

  function Rest(): (q: seq<nat>)
    ensures |q| == OTHERS && forall i :: 0 <= i < OTHERS ==> q[i] == i + 1
  {
    seq(OTHERS, i requires 0 <= i < OTHERS => i + 1)
  }

  lemma CrowdTicked(a: Thread, b: Thread)
    ensures AfterTick(Crowd(a, b), 0) == Crowd(Ticked(a), b)
    ensures RatedAll(Crowd(a, b)) == Crowd(Rated(a), Rated(b))
  {
  }

  lemma CrowdSecond(load: int, a: Thread, b: Thread)
    requires load >= 0
    ensures Seconds(load, Crowd(a, b)) == Crowd(Second(load, a), Second(load, b))
  {
  }

  /** Load and recent_cpu of the running thread at the start of a second. */
  datatype Mark = Mark(load: nat, recent: int)

  function MarkAt(k: nat): Mark {
    if k == 0 then Mark(0, 0)
    else if k == 1 then Mark(147420, 5361700)
    else if k == 2 then Mark(292381, 10714424)
    else Mark(434924, 16058081)
  }

  predicate Follows(m: Mark, m': Mark) {
    m'.load == IdealLoad(m.load, OTHERS + 1) && m'.recent == IdealRecent(m'.load, m.recent + 100 * F, 0)
  }

  lemma FirstMarks()
    ensures Follows(MarkAt(0), MarkAt(1))
  {
    assert Coefficient(147420) == 53617;
  }

  lemma SecondMarks()
    ensures Follows(MarkAt(1), MarkAt(2))
  {
    assert Coefficient(292381) == 58931;
  }

  lemma ThirdMarks()
    ensures Follows(MarkAt(2), MarkAt(3))
  {
    assert Coefficient(434924) == 60944;
  }

  lemma NextMark(k: nat)
    requires k < 3
    ensures Follows(MarkAt(k), MarkAt(k + 1))
  {
    if k == 0 { FirstMarks(); } else if k == 1 { SecondMarks(); } else { ThirdMarks(); }
  }

  /** The running thread, created with priority 63, `j` ticks into the second that began with `recent`. */
  function Ahead(recent: int, j: nat): Thread {
    Thread(recent + j * F, 0, Priority(recent + (j - j % 4) * F, 0), 63)
  }

  /** Any other thread, created with priority 31, at tick `t`: it never runs. */
  function Behind(t: nat): Thread { Thread(0, 0, if t < 4 then 31 else 63, 31) }

  function StatsAt(k: nat, j: nat): Stats {
    Stats(100 * k + j, MarkAt(k).load, Crowd(Ahead(MarkAt(k).recent, j), Behind(100 * k + j)))
  }

  lemma AheadTick(recent: int, j: nat)
    ensures Ahead(recent, j + 1) == if (j + 1) % 4 == 0 then Rated(Ticked(Ahead(recent, j))) else Ticked(Ahead(recent, j))
  {
    assert (j + 1) % 4 == 0 || (j + 1) - (j + 1) % 4 == j - j % 4;
  }

  lemma BehindTick(t: nat)
    ensures Behind(t + 1) == if (t + 1) % 4 == 0 then Rated(Behind(t)) else Behind(t)
  {
  }

  lemma TickWithin(s: Stats, a: Thread, b: Thread, a': Thread, b': Thread)
    requires s.load >= 0 && s.threads == Crowd(a, b) && (s.ticks + 1) % TIMER_FREQ != 0
    requires a' == if (s.ticks + 1) % 4 == 0 then Rated(Ticked(a)) else Ticked(a)
    requires b' == if (s.ticks + 1) % 4 == 0 then Rated(b) else b
    ensures TickOf(s, 0, OTHERS + 1) == Stats(s.ticks + 1, s.load, Crowd(a', b'))
  {
    CrowdTicked(a, b);
    CrowdTicked(Ticked(a), b);
  }

  lemma TickNumbers(k: nat, j: nat)
    requires k < 4 && j < 99
    ensures (100 * k + j + 1) % TIMER_FREQ != 0 && (100 * k + j + 1) % 4 == (j + 1) % 4
  {
    if k == 0 {} else if k == 1 {} else if k == 2 {} else {}
  }

  lemma StatsTick(k: nat, j: nat)
    requires k < 4 && j < 99
    ensures TickOf(StatsAt(k, j), 0, OTHERS + 1) == StatsAt(k, j + 1)
  {
    var r, t := MarkAt(k).recent, 100 * k + j;
    AheadTick(r, j);
    BehindTick(t);
    TickNumbers(k, j);
    TickWithin(StatsAt(k, j), Ahead(r, j), Behind(t), Ahead(r, j + 1), Behind(t + 1));
  }

  lemma TickAtSecond(s: Stats, a: Thread, b: Thread, load: int, a': Thread, b': Thread)
    requires s.load >= 0 && s.threads == Crowd(a, b) && (s.ticks + 1) % TIMER_FREQ == 0
    requires 0 <= load == IdealLoad(s.load, OTHERS + 1) && a' == Second(load, Ticked(a)) && b' == Second(load, b)
    ensures TickOf(s, 0, OTHERS + 1) == Stats(s.ticks + 1, load, Crowd(a', b'))
  {
    CrowdTicked(a, b);
    CrowdSecond(load, Ticked(a), b);
  }

  lemma SecondOver(m: Mark, m': Mark)
    requires Follows(m, m')
    ensures m'.load == IdealLoad(m.load, OTHERS + 1)
    ensures Ahead(m'.recent, 0) == Second(m'.load, Ticked(Ahead(m.recent, 99)))
  {
  }

  lemma BehindSecond(load: int, t: nat)
    requires load >= 0 && t >= 4
    ensures Behind(t + 1) == Second(load, Behind(t))
  {
    assert Coefficient(load) * 0 == 0;
  }

  lemma SecondEnds(k: nat)
    ensures (100 * k + 99 + 1) % TIMER_FREQ == 0
  {
  }

  lemma StatsSecond(k: nat)
    requires k < 3
    ensures TickOf(StatsAt(k, 99), 0, OTHERS + 1) == StatsAt(k + 1, 0)
  {
    var m, m', t := MarkAt(k), MarkAt(k + 1), 100 * k + 99;
    NextMark(k);
    SecondOver(m, m');
    BehindSecond(m'.load, t);
    SecondEnds(k);
    TickAtSecond(StatsAt(k, 99), Ahead(m.recent, 99), Behind(t), m'.load, Ahead(m'.recent, 0), Behind(t + 1));
  }

  function Moment(t: nat): Kernel { Kernel(StatsAt(t / 100, t % 100), Rest(), 0, t % 4) }

  lemma NextTick(t: nat)
    ensures t % 100 < 99 ==> (t + 1) / 100 == t / 100 && (t + 1) % 100 == t % 100 + 1
    ensures t % 100 == 99 ==> (t + 1) / 100 == t / 100 + 1 && (t + 1) % 100 == 0
    ensures (t + 1) % 4 == if t % 4 + 1 >= 4 then 0 else t % 4 + 1
  {
    assert t + 1 == 100 * (t / 100) + (t % 100 + 1);
  }

  lemma MomentTick(t: nat)
    requires t < 399
    ensures TickOf(Moment(t).stats, 0, OTHERS + 1) == Moment(t + 1).stats
  {
    NextTick(t);
    if t % 100 < 99 { StatsTick(t / 100, t % 100); } else { StatsSecond(t / 100); }
  }

  lemma MomentHighest(t: nat)
    ensures Highest(Moment(t))
  {
  }

  lemma MomentNext(t: nat)
    requires t < 399
    ensures Next(Moment(t)) == Moment(t + 1)
  {
    MomentTick(t);
    MomentHighest(t);
    HighestStays(Moment(t));
    NextTick(t);
  }

  lemma {:induction false} Moments(k: Kernel, t: nat)
    requires t <= 399 && k == Moment(0)
    ensures After(k, t) == Moment(t)
  {
    if t > 0 {
      Moments(k, t - 1);
      MomentNext(t - 1);
    }
  }

  // ---------------------------------------------------------------- the overflow

  /** The system as its threads are created: none has run, and the ready list is in order. */
  ghost predicate Start(k: Kernel) {
    var ts := k.stats.threads;
    && k.stats.ticks == 0 && k.stats.load == 0 && k.slice == 0 && 0 < |ts| <= N_MAX
    && (forall i :: 0 <= i < |ts| ==> ts[i] == Thread(0, 0, ts[i].eff, ts[i].eff) && 0 <= ts[i].eff <= PRI_MAX)
    && Donation.Distinct([k.running] + k.ready) && Donation.SortedBy(Effs(ts), [k.running] + k.ready)
    && forall i: nat :: i in [k.running] + k.ready <==> i < |ts|
  }

  /** The threads in the order of their numbers. */
  lemma CrowdOrder(a: Thread, b: Thread, q: seq<nat>)
    requires a.eff >= b.eff && |q| == OTHERS + 1 && forall i :: 0 <= i < |q| ==> q[i] == i
    ensures Donation.Distinct(q) && Donation.SortedBy(Effs(Crowd(a, b)), q) && forall i: nat :: i in q <==> i < OTHERS + 1
  {
    forall i: nat ensures i in q <==> i < OTHERS + 1 {
      if i < OTHERS + 1 { assert q[i] == i; }
    }
  }

  lemma CrowdStarts(k: Kernel, a: Thread, b: Thread)
    requires k.stats == Stats(0, 0, Crowd(a, b)) && k.slice == 0 && k.running == 0 && k.ready == Rest()
    requires a == Thread(0, 0, a.eff, a.eff) && b == Thread(0, 0, b.eff, b.eff) && 0 <= b.eff <= a.eff <= PRI_MAX
    ensures Start(k)
  {
    var q := [k.running] + k.ready;
    CrowdOrder(a, b, q);
  }

  lemma FirstStats(t: nat)
    requires t == 0
    ensures Moment(t) == Kernel(Stats(0, 0, Crowd(Thread(0, 0, 63, 63), Thread(0, 0, 31, 31))), Rest(), 0, 0)
  {
    assert Ahead(0, 0) == Thread(0, 0, 63, 63) && Behind(0) == Thread(0, 0, 31, 31);
  }

  lemma FirstMoment(t: nat)
    requires t == 0
    ensures Start(Moment(t))
  {
    FirstStats(t);
    CrowdStarts(Moment(t), Thread(0, 0, 63, 63), Thread(0, 0, 31, 31));
  }

  predicate ReadsNegative(t: Thread) { t.recent > 0 && FixRound(FixScale(t.recent, 100)) < 0 }

  lemma OverflowReads(t: Thread)
    requires t.recent == 21497569
    ensures ReadsNegative(t)
  {
    assert t.recent * 100 == 2149756900;
  }

  /** After `n` ticks the running thread asks for its recent_cpu and is told a negative number. */
  ghost predicate ToldNegative(k: Kernel, n: nat) {
    && Start(k)
    && var k' := After(k, n); k'.running < |k'.stats.threads| && ReadsNegative(k'.stats.threads[k'.running])
  }

  lemma LastMoment(t: nat)
    requires t == 383
    ensures ReadsNegative(Moment(t).stats.threads[0])
  {
    assert Moment(t).stats == StatsAt(3, 83);
    OverflowReads(Ahead(16058081, 83));
  }

  lemma Told(k: Kernel, n: nat, k': Kernel)
    requires Start(k) && k' == After(k, n) && k'.running < |k'.stats.threads| && ReadsNegative(k'.stats.threads[k'.running])
    ensures ToldNegative(k, n)
  {
  }

  /** It happens within four seconds: 135 threads as thread_create leaves them, one with priority 63 and the others
      with 31, and 383 ticks. */
  lemma RecentReadsNegative()
    ensures exists k, n: nat :: n < 4 * TIMER_FREQ && ToldNegative(k, n)
  {
    var t: nat, n: nat := 0, 383;
    FirstMoment(t);
    Moments(Moment(t), n);
    LastMoment(n);
    Told(Moment(t), n, Moment(n));
  }
}
