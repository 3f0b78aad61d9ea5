/** Proportional share: over any run of the fair scheduler the processor time of two threads, each divided by its
    weight, stays within a bound that does not depend on how long the run is, but for rounding. */
module FairShare {
  import opened Fair

  const UNIT: nat := 0x10_0000

  // ---------------------------------------------------------------- weights and charges

  /** Nice 0 weighs 1024; each step of nice takes a sixth to a quarter off; out of range counts as the nearest end. */
  lemma WeightTable(nice: int)
    ensures Weight(0) == 1024
    ensures -20 <= nice < 20 ==> 120 * Weight(nice + 1) <= 100 * Weight(nice) <= 130 * Weight(nice + 1)
    ensures nice < -20 ==> Weight(nice) == Weight(-20)
    ensures nice > 20 ==> Weight(nice) == Weight(20)
  {
  }

  lemma {:induction false} WeightFalls(a: int, b: int)
    requires -20 <= a < b <= 20
    ensures Weight(a) > Weight(b)
    decreases b - a
  {
    WeightTable(b - 1);
    if a < b - 1 { WeightFalls(a, b - 1); }
  }

  /** `v` is `n` divided by `w`, rounded down. */
  predicate IsFloor(v: int, n: nat, w: int) { v * w <= n < v * w + w }

  lemma DivFloor(n: nat, w: nat)
    requires w > 0
    ensures IsFloor(n / w, n, w)
  {
  }

  /** Running for `ticks` adds ticks * 2^20 / weight to the virtual run time, rounded down, and sets the deadline one
      weighted slice later; a thread that has not run is not charged. */
  lemma ChargeExact(t: Thread, ticks: nat)
    ensures var c := Charge(t, ticks);
      && c.nice == t.nice
      && IsFloor(c.vruntime - t.vruntime, ticks * UNIT, Weight(t.nice))
      && (ticks > 0 ==> IsFloor(c.deadline - c.vruntime, 4 * UNIT, Weight(t.nice)))
      && (ticks == 0 ==> c == t)
  {
    DivFloor(ticks * VRUNTIME_SCALE * 1024, Weight(t.nice));
    DivFloor(TIME_SLICE * VRUNTIME_SCALE * 1024, Weight(t.nice));
  }

  // ---------------------------------------------------------------- who ran for how long

  datatype Turn = Turn(thread: nat, ticks: nat)

  /** The states are those of the given turns. */
  ghost predicate Trace(ss: seq<State>, turns: seq<Turn>) {
    |ss| == |turns| + 1 && forall k :: 0 <= k < |turns| ==> TurnOf(ss[k], turns[k], ss[k + 1])
  }

  predicate TurnOf(a: State, d: Turn, b: State) {
    d.thread < |a.ts| && d.ticks <= TIME_SLICE && b.ts == Ran(a.ts, d.thread, d.ticks)
  }

  /** Processor time of thread `i`, in ticks, and how often it was dispatched. */
  function Time(turns: seq<Turn>, i: nat): nat {
    if turns == [] then 0
    else
      var n := |turns| - 1;
      Time(turns[..n], i) + if turns[n].thread == i then turns[n].ticks else 0
  }

  function Dispatches(turns: seq<Turn>, i: nat): nat {
    if turns == [] then 0
    else
      var n := |turns| - 1;
      Dispatches(turns[..n], i) + if turns[n].thread == i then 1 else 0
  }

  /** Virtual time gained is processor time over weight, short of it by less than one unit per dispatch. */
  predicate Accounts(v: int, w: int, time: nat, dispatches: nat) {
    v * w <= time * UNIT <= (v + dispatches) * w
  }

  lemma AccountsNext(v: int, w: int, time: nat, dispatches: nat, gain: int, ticks: nat)
    requires Accounts(v, w, time, dispatches) && IsFloor(gain, ticks * UNIT, w)
    ensures Accounts(v + gain, w, time + ticks, dispatches + 1)
  {
  }

  lemma TracePrefix(ss: seq<State>, turns: seq<Turn>)
    requires Trace(ss, turns) && turns != []
    ensures Trace(ss[..|turns|], turns[..|turns| - 1])
  {
    var n := |turns| - 1;
    forall k | 0 <= k < n ensures TurnOf(ss[..n + 1][k], turns[..n][k], ss[..n + 1][k + 1]) {
      assert TurnOf(ss[k], turns[k], ss[k + 1]);
    }
  }

  lemma {:induction false} TimeAccounts(ss: seq<State>, turns: seq<Turn>, i: nat)
    requires Trace(ss, turns) && i < |ss[0].ts|
    ensures var n := |turns|;
      && |ss[n].ts| == |ss[0].ts| && ss[n].ts[i].nice == ss[0].ts[i].nice
      && Accounts(ss[n].ts[i].vruntime - ss[0].ts[i].vruntime, Weight(ss[0].ts[i].nice), Time(turns, i), Dispatches(turns, i))
    decreases |turns|
  {
    if turns != [] {
      var n := |turns| - 1;
      TracePrefix(ss, turns);
      TimeAccounts(ss[..n + 1], turns[..n], i);
      var a, d, b := ss[n], turns[n], ss[n + 1];
      assert TurnOf(ss[n], turns[n], ss[n + 1]);
      if d.thread == i {
        ChargeExact(a.ts[i], d.ticks);
        AccountsNext(a.ts[i].vruntime - ss[0].ts[i].vruntime, Weight(ss[0].ts[i].nice), Time(turns[..n], i), Dispatches(turns[..n], i),
                     b.ts[i].vruntime - a.ts[i].vruntime, d.ticks);
      }
    }
  }

  // ---------------------------------------------------------------- shares

  /** Processor time over weight, in units of virtual time. */
  function Share(turns: seq<Turn>, i: nat, nice: int): real { (Time(turns, i) * UNIT) as real / Weight(nice) as real }

  lemma ShareBounds(v: int, w: int, time: nat, dispatches: nat)
    requires w > 0 && Accounts(v, w, time, dispatches)
    ensures v as real <= (time * UNIT) as real / w as real <= (v + dispatches) as real
  {
    var x, y := (time * UNIT) as real, w as real;
    assert (v * w) as real == v as real * y && ((v + dispatches) * w) as real == (v + dispatches) as real * y;
    RealQuot(v as real, x, y, (v + dispatches) as real);
  }

  lemma RealCancel(a: real, b: real, y: real)
    requires y > 0.0 && a * y <= b * y
    ensures a <= b
  {
  }

  lemma RealQuot(a: real, x: real, y: real, b: real)
    requires y > 0.0 && a * y <= x <= b * y
    ensures a <= x / y <= b
  {
    var q := x / y;
    assert q * y == x;
    RealCancel(a, q, y);
    RealCancel(q, b, y);
  }

  /** The shares of two threads differ by at most a slice of the one ahead, the slack of the policy, and one unit of
      rounding for each of its dispatches. */
  ghost predicate FairWithin(s: State, turns: seq<Turn>, slack: nat) {
    forall i: nat, j: nat :: i < |s.ts| && j < |s.ts| ==>
      Share(turns, i, s.ts[i].nice) - Share(turns, j, s.ts[j].nice) <= (Slice(s.ts[i].nice) + slack + Dispatches(turns, i)) as real
  }

  lemma LagIsShare(ss: seq<State>, turns: seq<Turn>, slack: nat)
    requires Trace(ss, turns) && StartsEqual(ss[0]) && LagWithin(ss[|turns|], slack)
    ensures FairWithin(ss[|turns|], turns, slack)
  {
    var s, s0 := ss[|turns|], ss[0];
    SameThreads(ss, turns);
    forall i: nat, j: nat | i < |s.ts| && j < |s.ts|
      ensures Share(turns, i, s.ts[i].nice) - Share(turns, j, s.ts[j].nice) <= (Slice(s.ts[i].nice) + slack + Dispatches(turns, i)) as real
    {
      TimeAccounts(ss, turns, i);
      TimeAccounts(ss, turns, j);
      ShareBounds(s.ts[i].vruntime - s0.minV, Weight(s.ts[i].nice), Time(turns, i), Dispatches(turns, i));
      ShareBounds(s.ts[j].vruntime - s0.minV, Weight(s.ts[j].nice), Time(turns, j), Dispatches(turns, j));
    }
  }

  lemma {:induction false} SameThreads(ss: seq<State>, turns: seq<Turn>)
    requires Trace(ss, turns)
    ensures |ss[|turns|].ts| == |ss[0].ts|
    decreases |turns|
  {
    if turns != [] {
      var n := |turns| - 1;
      TracePrefix(ss, turns);
      SameThreads(ss[..n + 1], turns[..n]);
      assert TurnOf(ss[n], turns[n], ss[n + 1]);
    }
  }

  lemma CfsTurn(a: State, b: State) returns (d: Turn)
    requires CfsStep(a, b)
    ensures TurnOf(a, d, b)
  {
    var k: nat, ticks: nat :| k < |a.ts| && ticks <= TIME_SLICE && IsMin(a.ts, a.ts[k].vruntime) && b == a.(ts := Ran(a.ts, k, ticks));
    d := Turn(k, ticks);
  }

  lemma EevdfTurn(a: State, b: State) returns (d: Turn)
    requires EevdfStep(a, b)
    ensures TurnOf(a, d, b)
  {
    var k: nat, ticks: nat, m: int :| k < |a.ts| && ticks <= TIME_SLICE && IsMin(a.ts, m) && EevdfChoice(a.ts, Max(a.minV, m), k)
      && b == State(Ran(a.ts, k, ticks), Max(a.minV, m));
    d := Turn(k, ticks);
  }

  /** CFS is fair: whatever turns lead through the states of a run, at every dispatch the shares of any two threads are
      within a slice, but for rounding. */
  lemma CfsShare(ss: seq<State>, turns: seq<Turn>)
    requires CfsRun(ss) && Trace(ss, turns)
    ensures FairWithin(ss[|turns|], turns, 0)
  {
    CfsLag(ss, |turns|);
    LagIsShare(ss, turns, 0);
  }

  /** And so is EEVDF, with 1024 more. */
  lemma EevdfShare(ss: seq<State>, turns: seq<Turn>)
    requires EevdfRun(ss) && Trace(ss, turns)
    ensures FairWithin(ss[|turns|], turns, VRUNTIME_SCALE)
  {
    EevdfLag(ss, |turns|);
    LagIsShare(ss, turns, VRUNTIME_SCALE);
  }

  lemma TraceNext(ss: seq<State>, turns: seq<Turn>, d: Turn)
    requires |ss| == |turns| + 2 && Trace(ss[..|turns| + 1], turns) && TurnOf(ss[|turns|], d, ss[|turns| + 1])
    ensures Trace(ss, turns + [d])
  {
    var n := |turns|;
    forall k | 0 <= k < n + 1 ensures TurnOf(ss[k], (turns + [d])[k], ss[k + 1]) {
      if k < n { assert TurnOf(ss[..n + 1][k], turns[k], ss[..n + 1][k + 1]); }
    }
  }

  lemma {:induction false} CfsTurns(ss: seq<State>) returns (turns: seq<Turn>)
    requires CfsRun(ss)
    ensures Trace(ss, turns)
    decreases |ss|
  {
    turns := [];
    if |ss| > 1 {
      var n := |ss| - 2;
      turns := CfsTurns(ss[..n + 1]);
      assert CfsStep(ss[n], ss[n + 1]);
      var d := CfsTurn(ss[n], ss[n + 1]);
      TraceNext(ss, turns, d);
      turns := turns + [d];
    }
  }

  lemma {:induction false} EevdfTurns(ss: seq<State>) returns (turns: seq<Turn>)
    requires EevdfRun(ss)
    ensures Trace(ss, turns)
    decreases |ss|
  {
    turns := [];
    if |ss| > 1 {
      var n := |ss| - 2;
      turns := EevdfTurns(ss[..n + 1]);
      assert EevdfStep(ss[n], ss[n + 1]);
      var d := EevdfTurn(ss[n], ss[n + 1]);
      TraceNext(ss, turns, d);
      turns := turns + [d];
    }
  }
}
