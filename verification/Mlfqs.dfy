/** The multi-level feedback queue statistics in 16.16 fixed point, driven by the timer interrupt. */
module Mlfqs {
  import opened Division

  const F: int := 65536
  const TIMER_FREQ: nat := 100
  const PRI_MAX: int := 63
  const NICE: int := 20

  /** The most non-idle ready or running threads for which the bounds below fit in 32 bits. */
  const N_MAX: nat := 135

  predicate I32(x: int) { -0x8000_0000 <= x < 0x8000_0000 }

  /** C division. */
  function Trunc(a: int, b: int): int
    requires b > 0
  {
    if a >= 0 then a / b else -((-a) / b)
  }

  // ---------------------------------------------------------------- fixed-point.h, in 32 bits

  function FixInt(n: int): int { ToI32(n * F) }
  function FixFrac(n: int, d: int): int
    requires d > 0
  {
    ToI32(Trunc(n * F, d))
  }
  function FixAdd(x: int, y: int): int { ToI32(x + y) }
  function FixMul(x: int, y: int): int { ToI32(Trunc(x * y, F)) }
  function FixScale(x: int, n: int): int { ToI32(x * n) }
  function FixDiv(x: int, y: int): int
    requires y > 0
  {
    ToI32(Trunc(x * F, y))
  }
  function FixUnscale(x: int, n: int): int
    requires n > 0
  {
    ToI32(Trunc(x, n))
  }
  function FixTrunc(x: int): int { Trunc(x, F) }
  function FixRound(x: int): int { Trunc(ToI32(x + F / 2), F) }

  // ---------------------------------------------------------------- the formulas, without a word size

  /** load_avg = 59/60 * load_avg + 1/60 * ready_threads. */
  function IdealLoad(load: int, ready: int): int { Trunc(59 * F / 60 * load, F) + F / 60 * ready }

  /** 2 * load_avg / (2 * load_avg + 1). */
  function Coefficient(load: int): int
    requires load >= 0
  {
    Trunc(2 * load * F, 2 * load + F)
  }

  /** recent_cpu = coefficient * recent_cpu + nice. */
  function IdealRecent(load: int, recent: int, nice: int): int
    requires load >= 0
  {
    Trunc(Coefficient(load) * recent, F) + nice * F
  }

  /** Largest magnitude of recent_cpu just after an update, with `n` threads. */
  function Settled(n: nat): int { 120 * (2 * n + 1) * F }

  lemma I32Wraps(x: int)
    requires I32(x)
    ensures ToI32(x) == x
  {
  }

  // ---------------------------------------------------------------- load average

  lemma LoadBound(load: int, ready: nat, n: nat)
    requires 0 <= load <= n * F && ready <= n
    ensures 0 <= IdealLoad(load, ready) <= n * F
  {
  }

  // ---------------------------------------------------------------- recent cpu

  lemma CoefficientBound(load: int)
    requires load >= 0
    ensures 0 <= Coefficient(load) < F && Coefficient(load) * (2 * load + F) <= 2 * load * F
  {
  }

  /** The decay beats what a second can add: `x` is the largest value before the update. */
  lemma Decay(c: int, d: int, k: int, x: int)
    requires d >= F && c >= 0 && c * d <= F * (d - F) && 120 * d <= k && x == k + 100 * F
    ensures c * x <= (k - 20 * F) * F
  {
  }

  lemma RecentBound(load: int, recent: int, nice: int, n: nat)
    requires 0 <= load <= n * F && -NICE <= nice <= NICE && -Settled(n) <= recent <= Settled(n) + TIMER_FREQ * F
    ensures -Settled(n) <= IdealRecent(load, recent, nice) <= Settled(n)
    ensures -Settled(n) <= Trunc(Coefficient(load) * recent, F) <= Settled(n)
  {
    var c, k := Coefficient(load), Settled(n);
    CoefficientBound(load);
    Decay(c, 2 * load + F, k, k + 100 * F);
    ScaledWithin(c, recent, k + 100 * F, k - 20 * F);
  }

  lemma ScaledWithin(c: int, r: int, x: int, m: int)
    requires c >= 0 && -x <= r <= x && c * x <= m * F && m >= 0
    ensures -m <= Trunc(c * r, F) <= m
  {
  }

  // ---------------------------------------------------------------- the formulas as fractions

  /** load_avg is 59/60 of the old one and 1/60 of the ready threads, in multiples of 1/65536 and never more: sixty times
      it falls short by less than 60, and what the rounding of the two fractions costs. */
  lemma LoadFormula(load: int, ready: nat)
    requires load >= 0
    ensures var short := 59 * load + F * ready - 60 * IdealLoad(load, ready);
      0 <= short && F * short < 60 * F + 44 * load + 16 * F * ready
  {
    assert 59 * F / 60 == 64443 && F / 60 == 1092;
    var x := 64443 * load / F;
    assert x * F <= 64443 * load < x * F + F;
  }

  /** What is kept of recent_cpu, before nice is added. */
  function Kept(load: int, recent: int): int
    requires load >= 0
  {
    IdealRecent(load, recent, 0)
  }

  /** recent_cpu is (2 * load_avg) / (2 * load_avg + 1) of the old one, rounded toward zero, plus nice: what is kept
      falls short by less than one unit, and one more for each whole of recent_cpu. */
  lemma RecentFormula(load: int, recent: int, nice: int)
    requires load >= 0
    ensures IdealRecent(load, recent, nice) == Kept(load, recent) + nice * F
    ensures var d, short := 2 * load + F, 2 * load * Abs(recent) - (2 * load + F) * Abs(Kept(load, recent));
      0 <= short && F * short < d * (Abs(recent) + F)
    ensures recent >= 0 ==> Kept(load, recent) >= 0
    ensures recent <= 0 ==> Kept(load, recent) <= 0
  {
    var d, c, r := 2 * load + F, Coefficient(load), Abs(recent);
    FloorBy(2 * load * F, d);
    assert c >= 0 && c * r >= 0 by { CoefficientBound(load); }
    var x := c * r / F;
    FloorBy(c * r, F);
    assert Abs(Kept(load, recent)) == x by { AbsTrunc(c, recent); }
    Shortfall(2 * load * F, d, c, r, x);
    assert F * (2 * load * r - d * x) == (2 * load * F) * r - d * (x * F);
  }

  function Abs(x: int): nat { if x < 0 then -x else x }

  lemma FloorBy(n: nat, d: nat)
    requires d > 0
    ensures n / d * d <= n < n / d * d + d
  {
  }

  lemma AbsTrunc(c: int, recent: int)
    requires c >= 0 && c * Abs(recent) >= 0
    ensures Abs(Trunc(c * recent, F)) == c * Abs(recent) / F
    ensures recent >= 0 ==> Trunc(c * recent, F) >= 0
    ensures recent <= 0 ==> Trunc(c * recent, F) <= 0
  {
    if recent < 0 {
      assert c * recent == -(c * Abs(recent));
    }
  }

  lemma Product(a: int, b: int, c: int)
    ensures (a * b) * c == b * (a * c) && (a * b + b) * c == b * (a * c) + b * c
  {
  }

  lemma Spread(d: int, y: int, z: int)
    ensures d * (y + z) == d * y + d * z
  {
  }

  lemma TimesLess(d: int, y: int, z: int)
    requires d > 0 && y < z
    ensures d * y < d * z
  {
  }

  lemma Shortfall(n: nat, d: nat, c: nat, r: nat, x: nat)
    requires c * d <= n < c * d + d && x * F <= c * r < x * F + F
    ensures 0 <= n * r - d * (x * F) < d * (r + F)
  {
    MulLe(c * d, n, r);
    MulLe(n, c * d + d, r);
    Product(c, d, r);
    if x * F < c * r { TimesLess(d, x * F, c * r); }
    TimesLess(d, c * r, x * F + F);
    Spread(d, x * F, F);
    Spread(d, r, F);
  }

  // ---------------------------------------------------------------- 32-bit evaluation

  /** mlfqs_update_load_avg. */
  function NewLoad(load: int, ready: int): int {
    FixAdd(FixMul(FixFrac(59, 60), load), FixMul(FixFrac(1, 60), FixInt(ready)))
  }

  lemma LoadExact(load: int, ready: nat, n: nat)
    requires n <= N_MAX && 0 <= load <= n * F && ready <= n
    ensures NewLoad(load, ready) == IdealLoad(load, ready)
  {
    LoadBound(load, ready, n);
    FracValues();
    ReadyTerm(ready);
    var a, b := Trunc(64443 * load, F), 1092 * ready;
    I32Wraps(a);
    I32Wraps(a + b);
  }

  lemma FracValues()
    ensures FixFrac(59, 60) == 64443 && FixFrac(1, 60) == 1092 && 59 * F / 60 == 64443 && F / 60 == 1092
  {
  }

  lemma ReadyTerm(ready: nat)
    requires ready <= N_MAX
    ensures FixMul(1092, FixInt(ready)) == 1092 * ready
  {
    I32Wraps(ready * F);
    I32Wraps(1092 * ready);
    assert 1092 * (ready * F) / F == 1092 * ready;
  }

  /** mlfqs_update_recent_cpu. */
  function NewRecent(load: int, recent: int, nice: int): int
    requires 0 <= load <= N_MAX * F
  {
    var twice := FixScale(load, 2);
    var coefficient := FixDiv(twice, FixAdd(twice, FixInt(1)));
    FixAdd(FixMul(coefficient, recent), FixInt(nice))
  }

  lemma CoefficientExact(load: int)
    requires 0 <= load <= N_MAX * F
    ensures FixScale(load, 2) == 2 * load && FixAdd(2 * load, FixInt(1)) == 2 * load + F
    ensures FixDiv(2 * load, 2 * load + F) == Coefficient(load)
  {
    I32Wraps(load * 2);
    I32Wraps(F);
    I32Wraps(2 * load + F);
    CoefficientBound(load);
    I32Wraps(Coefficient(load));
  }

  lemma RecentExact(load: int, recent: int, nice: int, n: nat)
    requires n <= N_MAX && 0 <= load <= n * F && -NICE <= nice <= NICE && -Settled(n) <= recent <= Settled(n) + TIMER_FREQ * F
    ensures NewRecent(load, recent, nice) == IdealRecent(load, recent, nice)
  {
    CoefficientExact(load);
    RecentBound(load, recent, nice, n);
    SettledFits(n);
    I32Wraps(Trunc(Coefficient(load) * recent, F));
    I32Wraps(nice * F);
    I32Wraps(IdealRecent(load, recent, nice));
  }

  lemma SettledFits(n: nat)
    requires n <= N_MAX
    ensures 0 <= Settled(n) && I32(Settled(n) + TIMER_FREQ * F) && I32(-Settled(n))
  {
  }

  /** mlfqs_update_priority. */
  function Priority(recent: int, nice: int): (p: int)
    ensures 0 <= p <= PRI_MAX
  {
    var p := PRI_MAX - FixTrunc(FixUnscale(recent, 4)) - nice * 2;
    if p < 0 then 0 else if p > PRI_MAX then PRI_MAX else p
  }

  /** 63 less a point for every four ticks of recent use and two for every point of nice, within 0 and 63: between the
      ends, the priority says within which four ticks recent_cpu lies. */
  lemma PriorityExact(recent: int, nice: int)
    requires I32(recent)
    ensures var p, step := Priority(recent, nice), 4 * F;
      if recent >= 0 then
        && (p < PRI_MAX ==> recent >= (PRI_MAX - p - 2 * nice) * step)
        && (p > 0 ==> recent < (PRI_MAX + 1 - p - 2 * nice) * step)
      else
        && (p < PRI_MAX ==> recent > (PRI_MAX - 1 - p - 2 * nice) * step)
        && (p > 0 ==> recent <= (PRI_MAX - p - 2 * nice) * step)
  {
    I32Wraps(Trunc(recent, 4));
    TruncTwice(recent);
  }

  lemma TruncTwice(x: int)
    ensures Trunc(Trunc(x, 4), F) == Trunc(x, 4 * F)
  {
  }

  // ---------------------------------------------------------------- the timer interrupt

  /** `eff` orders the ready list. It is set when the thread is created and nothing below changes it. */
  datatype Thread = Thread(recent: int, nice: int, priority: int, eff: int)

  /** Bounds on one thread, `j` ticks into the current second. */
  predicate ThreadOk(t: Thread, n: nat, j: nat) {
    -NICE <= t.nice <= NICE && -Settled(n) <= t.recent <= Settled(n) + j * F && 0 <= t.priority <= PRI_MAX
  }

  predicate ThreadsOk(ts: seq<Thread>, n: nat, j: nat) { forall i :: 0 <= i < |ts| ==> ThreadOk(ts[i], n, j) }

  function Ticked(t: Thread): Thread { t.(recent := t.recent + F) }

  function Second(load: int, t: Thread): Thread
    requires load >= 0
  {
    var recent := IdealRecent(load, t.recent, t.nice);
    t.(recent := recent, priority := Priority(recent, t.nice))
  }

  function Rated(t: Thread): Thread { t.(priority := Priority(t.recent, t.nice)) }

  /** A tick charges the running thread. */
  function AfterTick(ts: seq<Thread>, running: nat): seq<Thread> {
    if running < |ts| then ts[running := Ticked(ts[running])] else ts
  }

  datatype Stats = Stats(ticks: nat, load: int, threads: seq<Thread>)

  function Seconds(load: int, ts: seq<Thread>): seq<Thread>
    requires load >= 0
  {
    seq(|ts|, i requires 0 <= i < |ts| => Second(load, ts[i]))
  }

  function RatedAll(ts: seq<Thread>): seq<Thread> {
    seq(|ts|, i requires 0 <= i < |ts| => Rated(ts[i]))
  }

  /** One timer interrupt, in exact arithmetic. */
  function TickOf(s: Stats, running: nat, ready: nat): (s': Stats)
    requires s.load >= 0
    ensures s'.load >= 0
  {
    var ts := AfterTick(s.threads, running);
    if (s.ticks + 1) % TIMER_FREQ == 0 then
      var load := IdealLoad(s.load, ready);
      Stats(s.ticks + 1, load, Seconds(load, ts))
    else Stats(s.ticks + 1, s.load, if (s.ticks + 1) % 4 == 0 then RatedAll(ts) else ts)
  }

  lemma SecondExact(load: int, t: Thread, n: nat)
    requires n <= N_MAX && 0 <= load <= n * F && ThreadOk(t, n, TIMER_FREQ)
    ensures NewRecent(load, t.recent, t.nice) == IdealRecent(load, t.recent, t.nice) && ThreadOk(Second(load, t), n, 0)
  {
    RecentExact(load, t.recent, t.nice, n);
    RecentBound(load, t.recent, t.nice, n);
  }

  class Clock {
    var ticks: nat
    var load: int
    var threads: seq<Thread>

    ghost function State(): Stats
      reads this
    {
      Stats(ticks, load, threads)
    }

    ghost predicate Valid(n: nat)
      reads this
    {
      n <= N_MAX && 0 <= load <= n * F && ThreadsOk(threads, n, ticks % TIMER_FREQ)
    }

    constructor ()
      ensures threads == [] && load == 0 && ticks == 0 && forall n: nat :: n <= N_MAX ==> Valid(n)
    {
      ticks, load, threads := 0, 0, [];
    }

    /** A new thread starts without recent use of the processor, and with nice value 0. */
    method AddThread(priority: int, ghost n: nat)
      requires Valid(n) && 0 <= priority <= PRI_MAX
      modifies `threads
      ensures Valid(n) && threads == old(threads) + [Thread(0, 0, priority, priority)]
    {
      threads := threads + [Thread(0, 0, priority, priority)];
    }

    /** thread_set_nice. */
    method SetNice(i: nat, nice: int, ghost n: nat)
      requires Valid(n) && i < |threads| && -NICE <= nice <= NICE
      modifies `threads
      ensures Valid(n) && threads == old(threads)[i := Rated(old(threads)[i].(nice := nice))]
    {
      assert ThreadOk(threads[i], n, ticks % TIMER_FREQ);
      threads := threads[i := threads[i].(nice := nice, priority := Priority(threads[i].recent, nice))];
    }

    method UpdateStats(ready: nat, ghost n: nat)
      requires n <= N_MAX && 0 <= load <= n * F && ThreadsOk(threads, n, TIMER_FREQ) && ready <= n
      modifies `load, `threads
      ensures load == IdealLoad(old(load), ready) && 0 <= load <= n * F && threads == Seconds(load, old(threads))
      ensures ThreadsOk(threads, n, 0)
    {
      LoadExact(load, ready, n);
      LoadBound(load, ready, n);
      load := NewLoad(load, ready);
      var i := 0;
      while i < |threads|
        invariant 0 <= i <= |threads| == |old(threads)| && load == IdealLoad(old(load), ready)
        invariant forall k :: 0 <= k < i ==> threads[k] == Second(load, old(threads)[k]) && ThreadOk(threads[k], n, 0)
        invariant forall k :: i <= k < |threads| ==> threads[k] == old(threads)[k]
      {
        var t := threads[i];
        SecondExact(load, t, n);
        var recent := NewRecent(load, t.recent, t.nice);
        threads := threads[i := t.(recent := recent, priority := Priority(recent, t.nice))];
        i := i + 1;
      }
    }

    method UpdatePriorities()
      modifies `threads
      ensures threads == RatedAll(old(threads))
    {
      var i := 0;
      while i < |threads|
        invariant 0 <= i <= |threads| == |old(threads)|
        invariant forall k :: 0 <= k < i ==> threads[k] == Rated(old(threads)[k])
        invariant forall k :: i <= k < |threads| ==> threads[k] == old(threads)[k]
      {
        threads := threads[i := threads[i].(priority := Priority(threads[i].recent, threads[i].nice))];
        i := i + 1;
      }
    }

    /** timer_interrupt. `running` is the number of the running thread, past the end for the idle thread, and
        `ready` the number of ready and running threads. Every value stays within 32 bits and the bounds hold again. */
    method Tick(running: nat, ready: nat, ghost n: nat)
      requires Valid(n) && ready <= n
      modifies this
      ensures Valid(n) && State() == TickOf(old(State()), running, ready)
    {
      Phase(ticks);
      Charge(running, n, ticks % TIMER_FREQ);
      ticks := ticks + 1;
      if ticks % TIMER_FREQ == 0 {
        UpdateStats(ready, n);
      } else if ticks % 4 == 0 {
        UpdatePriorities();
      }
    }

    /** thread_mlfqs_tick. */
    method Charge(running: nat, ghost n: nat, ghost j: nat)
      requires n <= N_MAX && j < TIMER_FREQ && ThreadsOk(threads, n, j)
      modifies `threads
      ensures threads == AfterTick(old(threads), running) && ThreadsOk(threads, n, j + 1)
    {
      TickOk(threads, running, n, j);
      if running < |threads| {
        threads := threads[running := threads[running].(recent := FixAdd(threads[running].recent, FixInt(1)))];
      }
    }
  }

  /** The position in the second moves on by one and wraps after 100. */
  lemma Phase(ticks: nat)
    ensures ticks % TIMER_FREQ < TIMER_FREQ
    ensures (ticks + 1) % TIMER_FREQ == if ticks % TIMER_FREQ == TIMER_FREQ - 1 then 0 else ticks % TIMER_FREQ + 1
  {
  }

  /** One tick adds one to the running thread, without overflow. */
  lemma TickOk(ts: seq<Thread>, running: nat, n: nat, j: nat)
    requires n <= N_MAX && j < TIMER_FREQ && ThreadsOk(ts, n, j)
    ensures ThreadsOk(AfterTick(ts, running), n, j + 1)
    ensures running < |ts| ==> FixAdd(ts[running].recent, FixInt(1)) == ts[running].recent + F
  {
  }

  // ---------------------------------------------------------------- reading the values out

  /** Wrapping twice is wrapping once. */
  lemma WrapTwice(x: int, c: int)
    ensures ToI32(ToI32(x) + c) == ToI32(x + c)
  {
  }

  /** A wrapped value that is off is off by a multiple of 2^32, so its integer part is off too. */
  lemma TruncWraps(y: int)
    ensures Trunc(ToI32(y), F) == Trunc(y, F) <==> I32(y)
  {
    if I32(y) { I32Wraps(y); }
  }

  /** thread_get_recent_cpu multiplies by 100 and rounds in 32 bits. Neither step overflows exactly on the first
      interval, of about plus or minus 327; the number returned is right exactly on the second, a little larger, where
      the addition wraps back what the multiplication wrapped. */
  lemma GetRecentExact(recent: int)
    requires I32(recent)
    ensures I32(recent * 100) && I32(recent * 100 + F / 2) <==> -21474836 <= recent <= 21474508
    ensures FixRound(FixScale(recent, 100)) == Trunc(recent * 100 + F / 2, F) <==> -21475164 <= recent <= 21474508
  {
    WrapTwice(recent * 100, F / 2);
    TruncWraps(recent * 100 + F / 2);
  }
}
