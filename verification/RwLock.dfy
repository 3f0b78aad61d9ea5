/** The writer-preferring readers-writers lock: a monitor with signal-and-continue condition variables, used by
    any number of threads. Each acquisition of the guard, test of a loop condition and release is one step. */
module RwLock {

  datatype Pc =
    | Out
    | WantAcquire(reader: bool)
    | Testing(reader: bool)
    | Asleep(reader: bool)
    | Signalled(reader: bool)
    | Granted(reader: bool)
    | Active(reader: bool)
    | WantRelease(reader: bool)
    | Releasing(reader: bool)
    | Leaving

  /** The four counters of struct rw_lock, and where every thread is. */
  datatype Sys = Sys(pcs: map<nat, Pc>, ar: int, wr: int, aw: int, ww: int)

  predicate HoldsGuard(pc: Pc) { pc.Testing? || pc.Granted? || pc.Releasing? || pc.Leaving? }

  /** Which counter a thread is counted in. */
  datatype Role = ActiveReader | WaitingReader | ActiveWriter | WaitingWriter | Uncounted

  function RoleOf(pc: Pc): Role {
    if pc.Granted? || pc.Active? || pc.WantRelease? || pc.Releasing? then (if pc.reader then ActiveReader else ActiveWriter)
    else if pc.Asleep? || pc.Signalled? then (if pc.reader then WaitingReader else WaitingWriter)
    else Uncounted
  }

  ghost predicate GuardFree(c: Sys) { forall t :: t in c.pcs ==> !HoldsGuard(c.pcs[t]) }

  // ---------------------------------------------------------------- steps

  function Goto(c: Sys, t: nat, pc: Pc): Sys { c.(pcs := c.pcs[t := pc]) }

  /** cond_signal moves one sleeper, if there is one; which one depends on the scheduling policy. */
  ghost predicate Signals(pcs: map<nat, Pc>, reader: bool, pcs': map<nat, Pc>) {
    || (pcs' == pcs && forall t :: t in pcs ==> pcs[t] != Asleep(reader))
    || exists t :: t in pcs && pcs[t] == Asleep(reader) && pcs' == pcs[t := Signalled(reader)]
  }

  /** cond_broadcast moves every sleeper. */
  function Broadcast(pcs: map<nat, Pc>, reader: bool): map<nat, Pc> {
    map t | t in pcs :: if pcs[t] == Asleep(reader) then Signalled(reader) else pcs[t]
  }

  ghost predicate Test(c: Sys, t: nat, reader: bool, c': Sys)
    requires t in c.pcs
  {
    if reader then
      if c.aw + c.ww > 0 then c' == Goto(c, t, Asleep(true)).(wr := c.wr + 1)
      else c' == Goto(c, t, Granted(true)).(ar := c.ar + 1)
    else
      if c.ar + c.aw > 0 then c' == Goto(c, t, Asleep(false)).(ww := c.ww + 1)
      else c' == Goto(c, t, Granted(false)).(aw := c.aw + 1)
  }

  ghost predicate Release(c: Sys, t: nat, reader: bool, c': Sys)
    requires t in c.pcs
  {
    if reader then
      var c1 := Goto(c, t, Leaving).(ar := c.ar - 1);
      if c1.ar == 0 && c1.ww > 0 then Signals(c1.pcs, false, c'.pcs) && c' == c1.(pcs := c'.pcs)
      else c' == c1
    else
      var c1 := Goto(c, t, Leaving).(aw := c.aw - 1);
      if c1.ww > 0 then Signals(c1.pcs, false, c'.pcs) && c' == c1.(pcs := c'.pcs)
      else if c1.wr > 0 then c' == c1.(pcs := Broadcast(c1.pcs, true))
      else c' == c1
  }

  ghost predicate Step(c: Sys, t: nat, c': Sys)
    requires t in c.pcs
  {
    match c.pcs[t]
    case Out => exists reader :: c' == Goto(c, t, WantAcquire(reader))
    case WantAcquire(reader) => GuardFree(c) && c' == Goto(c, t, Testing(reader))
    case Testing(reader) => Test(c, t, reader, c')
    case Asleep(reader) => false
    case Signalled(reader) =>
      GuardFree(c) && c' == (if reader then Goto(c, t, Testing(true)).(wr := c.wr - 1) else Goto(c, t, Testing(false)).(ww := c.ww - 1))
    case Granted(reader) => c' == Goto(c, t, Active(reader))
    case Active(reader) => c' == Goto(c, t, WantRelease(reader))
    case WantRelease(reader) => GuardFree(c) && c' == Goto(c, t, Releasing(reader))
    case Releasing(reader) => Release(c, t, reader, c')
    case Leaving => c' == Goto(c, t, Out)
  }

  ghost predicate Init(c: Sys) {
    (forall t :: t in c.pcs ==> c.pcs[t] == Out) && c.ar == 0 && c.wr == 0 && c.aw == 0 && c.ww == 0
  }

  ghost predicate Run(cs: seq<Sys>) {
    |cs| > 0 && Init(cs[0]) && forall k :: 0 <= k < |cs| - 1 ==> Next(cs[k], cs[k + 1])
  }

  ghost predicate Next(c: Sys, c': Sys) { exists t :: t in c.pcs && Step(c, t, c') }

  // ---------------------------------------------------------------- invariant

  ghost function InRole(pcs: map<nat, Pc>, role: Role): set<nat> {
    set t | t in pcs && RoleOf(pcs[t]) == role
  }

  /** The counters count. */
  ghost predicate Counts(c: Sys) {
    && c.ar == |InRole(c.pcs, ActiveReader)| && c.wr == |InRole(c.pcs, WaitingReader)|
    && c.aw == |InRole(c.pcs, ActiveWriter)| && c.ww == |InRole(c.pcs, WaitingWriter)|
  }

  ghost predicate OneGuard(c: Sys) {
    forall t, u :: t in c.pcs && u in c.pcs && HoldsGuard(c.pcs[t]) && HoldsGuard(c.pcs[u]) ==> t == u
  }

  predicate Excludes(c: Sys) { c.aw <= 1 && (c.aw > 0 ==> c.ar == 0) }

  ghost predicate Has(c: Sys, pc: Pc) { exists t :: t in c.pcs && c.pcs[t] == pc }

  /** Sleepers have a reason, or a writer on its way to settle the matter. */
  ghost predicate Wakeful(c: Sys) {
    !Has(c, Testing(false)) ==>
      && (Has(c, Asleep(true)) ==> c.aw + c.ww > 0)
      && (Has(c, Asleep(false)) && c.ar + c.aw == 0 ==> Has(c, Signalled(false)))
  }

  ghost predicate Inv(c: Sys) { Counts(c) && OneGuard(c) && Excludes(c) && Wakeful(c) }

  // ---------------------------------------------------------------- counting

  lemma CardSplit(s: set<nat>, t: nat)
    ensures |s| == |s - {t}| + (if t in s then 1 else 0)
  {
    if t in s { assert s == s - {t} + {t}; } else { assert s == s - {t}; }
  }

  /** Moving one thread changes each count by at most one. */
  lemma Recount(pcs: map<nat, Pc>, t: nat, pc: Pc, role: Role)
    requires t in pcs
    ensures |InRole(pcs[t := pc], role)| == |InRole(pcs, role)| + Adds(pc, role) - Adds(pcs[t], role)
  {
    CardSplit(InRole(pcs, role), t);
    CardSplit(InRole(pcs[t := pc], role), t);
    SameOthers(pcs, t, pc, role);
  }

  lemma SameOthers(pcs: map<nat, Pc>, t: nat, pc: Pc, role: Role)
    ensures InRole(pcs[t := pc], role) - {t} == InRole(pcs, role) - {t}
  {
    var pcs' := pcs[t := pc];
    forall u | u != t ensures u in InRole(pcs', role) <==> u in InRole(pcs, role) {
      assert u in pcs' <==> u in pcs;
    }
  }

  function Adds(pc: Pc, role: Role): int { if RoleOf(pc) == role then 1 else 0 }

  /** `pcs'` is `pcs` with some sleepers signalled. */
  ghost predicate Woke(pcs: map<nat, Pc>, pcs': map<nat, Pc>) {
    && pcs'.Keys == pcs.Keys
    && forall t :: t in pcs ==> pcs'[t] == pcs[t] || (pcs[t].Asleep? && pcs'[t] == Signalled(pcs[t].reader))
  }

  /** Waking sleepers changes no count. */
  lemma WakeCounts(pcs: map<nat, Pc>, pcs': map<nat, Pc>, role: Role)
    requires Woke(pcs, pcs')
    ensures InRole(pcs', role) == InRole(pcs, role)
  {
  }

  /** The counters after one thread has moved, whatever else they count. */
  lemma MoveCounts(c: Sys, t: nat, pc: Pc, c': Sys)
    requires t in c.pcs && Counts(c) && c'.pcs == c.pcs[t := pc]
    requires c'.ar == c.ar + Adds(pc, ActiveReader) - Adds(c.pcs[t], ActiveReader)
    requires c'.wr == c.wr + Adds(pc, WaitingReader) - Adds(c.pcs[t], WaitingReader)
    requires c'.aw == c.aw + Adds(pc, ActiveWriter) - Adds(c.pcs[t], ActiveWriter)
    requires c'.ww == c.ww + Adds(pc, WaitingWriter) - Adds(c.pcs[t], WaitingWriter)
    ensures Counts(c')
  {
    Recount(c.pcs, t, pc, ActiveReader);
    Recount(c.pcs, t, pc, WaitingReader);
    Recount(c.pcs, t, pc, ActiveWriter);
    Recount(c.pcs, t, pc, WaitingWriter);
  }

  /** Moves that take or give up no role and leave the sleepers alone. */
  lemma QuietKeeps(c: Sys, t: nat, pc: Pc)
    requires Inv(c) && t in c.pcs && RoleOf(pc) == RoleOf(c.pcs[t])
    requires HoldsGuard(pc) ==> HoldsGuard(c.pcs[t]) || GuardFree(c)
    requires !c.pcs[t].Asleep? && !c.pcs[t].Signalled? && !c.pcs[t].Testing? && !pc.Asleep? && !pc.Signalled?
    ensures Inv(Goto(c, t, pc))
  {
    var c' := Goto(c, t, pc);
    MoveCounts(c, t, pc, c');
    HasElsewhere(c, c', t, Testing(false));
    HasElsewhere(c, c', t, Asleep(true));
    HasElsewhere(c, c', t, Asleep(false));
    HasElsewhere(c, c', t, Signalled(false));
  }

  lemma HasElsewhere(c: Sys, c': Sys, t: nat, pc: Pc)
    requires t in c.pcs && t in c'.pcs && c'.pcs == c.pcs[t := c'.pcs[t]]
    ensures Has(c, pc) && c.pcs[t] != pc ==> Has(c', pc)
    ensures Has(c', pc) && c'.pcs[t] != pc ==> Has(c, pc)
  {
    if Has(c, pc) {
      var u :| u in c.pcs && c.pcs[u] == pc;
      assert u != t ==> c'.pcs[u] == pc;
    }
  }

  /** A role nobody is in has no thread at any of its program counters. */
  lemma NoneInRole(c: Sys, role: Role, pc: Pc)
    requires |InRole(c.pcs, role)| == 0 && RoleOf(pc) == role
    ensures !Has(c, pc)
  {
    forall t | t in c.pcs ensures c.pcs[t] != pc { assert t !in InRole(c.pcs, role); }
  }

  lemma SomeInRole(c: Sys, role: Role, t: nat)
    requires t in c.pcs && RoleOf(c.pcs[t]) == role
    ensures |InRole(c.pcs, role)| > 0
  {
    assert t in InRole(c.pcs, role);
  }

  /** The other program counters that Wakeful mentions, when only `t` has moved. */
  lemma SameSleepers(c: Sys, t: nat, c': Sys)
    requires t in c.pcs && t in c'.pcs && c'.pcs == c.pcs[t := c'.pcs[t]]
    ensures forall pc :: c.pcs[t] != pc && c'.pcs[t] != pc ==> Has(c, pc) == Has(c', pc)
  {
    forall pc { HasElsewhere(c, c', t, pc); }
  }

  lemma TestKeeps(c: Sys, t: nat, c': Sys)
    requires Inv(c) && t in c.pcs && c.pcs[t].Testing? && Step(c, t, c')
    ensures Inv(c')
  {
    MoveCounts(c, t, c'.pcs[t], c');
    SameSleepers(c, t, c');
    assert forall u :: u in c.pcs && u != t ==> !HoldsGuard(c.pcs[u]);
    assert !c.pcs[t].reader ==> Has(c, Testing(false));
  }

  lemma ResumeKeeps(c: Sys, t: nat, c': Sys)
    requires Inv(c) && t in c.pcs && c.pcs[t].Signalled? && Step(c, t, c')
    ensures Inv(c')
  {
    MoveCounts(c, t, c'.pcs[t], c');
    SameSleepers(c, t, c');
    assert c'.pcs[t] == Testing(c.pcs[t].reader);
    assert !c.pcs[t].reader ==> Has(c', Testing(false));
  }

  /** The counters and the guard when the holder of a role gives it up. */
  lemma GiveUp(c: Sys, t: nat, c1: Sys)
    requires Inv(c) && t in c.pcs && c.pcs[t].Releasing? && c1.pcs == c.pcs[t := Leaving] && c1.wr == c.wr && c1.ww == c.ww
    requires if c.pcs[t].reader then c1.ar == c.ar - 1 && c1.aw == c.aw else c1.aw == c.aw - 1 && c1.ar == c.ar
    ensures Counts(c1) && OneGuard(c1) && Excludes(c1) && !Has(c1, Testing(false))
    ensures forall reader :: Has(c1, Asleep(reader)) ==> Has(c, Asleep(reader))
    ensures Has(c, Signalled(false)) ==> Has(c1, Signalled(false))
    ensures !Has(c, Testing(false)) && (!c.pcs[t].reader ==> c1.aw == 0 && c1.ar == 0)
  {
    MoveCounts(c, t, Leaving, c1);
    SameSleepers(c, t, c1);
    SomeInRole(c, RoleOf(c.pcs[t]), t);
  }

  lemma WakeKeeps(c1: Sys, c': Sys)
    requires Counts(c1) && OneGuard(c1) && Excludes(c1) && !Has(c1, Testing(false))
    requires Woke(c1.pcs, c'.pcs) && c' == c1.(pcs := c'.pcs)
    ensures Counts(c') && OneGuard(c') && Excludes(c') && !Has(c', Testing(false))
    ensures forall reader :: Has(c', Asleep(reader)) ==> Has(c1, Asleep(reader))
  {
    forall role { WakeCounts(c1.pcs, c'.pcs, role); }
    forall reader | Has(c', Asleep(reader)) ensures Has(c1, Asleep(reader)) {
      var u :| u in c'.pcs && c'.pcs[u] == Asleep(reader);
      assert c1.pcs[u] == Asleep(reader);
    }
  }

  /** After a signal, a sleeping writer implies a signalled one. */
  lemma SignalWakes(c1: Sys, c': Sys)
    requires Signals(c1.pcs, false, c'.pcs)
    ensures Woke(c1.pcs, c'.pcs) && (Has(c', Asleep(false)) ==> Has(c', Signalled(false)))
  {
    if c'.pcs != c1.pcs {
      var u :| u in c1.pcs && c1.pcs[u] == Asleep(false) && c'.pcs == c1.pcs[u := Signalled(false)];
      assert c'.pcs[u] == Signalled(false);
    }
  }

  lemma BroadcastWakes(c1: Sys, c': Sys)
    requires c'.pcs == Broadcast(c1.pcs, true)
    ensures Woke(c1.pcs, c'.pcs) && !Has(c', Asleep(true))
  {
  }

  lemma ReleaseReaderKeeps(c: Sys, t: nat, c': Sys)
    requires Inv(c) && t in c.pcs && c.pcs[t] == Releasing(true) && Release(c, t, true, c')
    ensures Inv(c')
  {
    var c1 := Goto(c, t, Leaving).(ar := c.ar - 1);
    GiveUp(c, t, c1);
    if c1.ar == 0 && c1.ww > 0 {
      SignalWakes(c1, c');
      WakeKeeps(c1, c');
    } else if c1.ar == 0 {
      NoneInRole(c1, WaitingWriter, Asleep(false));
    }
  }

  lemma ReleaseWriterKeeps(c: Sys, t: nat, c': Sys)
    requires Inv(c) && t in c.pcs && c.pcs[t] == Releasing(false) && Release(c, t, false, c')
    ensures Inv(c')
  {
    var c1 := Goto(c, t, Leaving).(aw := c.aw - 1);
    GiveUp(c, t, c1);
    if c1.ww > 0 {
      SignalWakes(c1, c');
      WakeKeeps(c1, c');
    } else {
      NoneInRole(c1, WaitingWriter, Asleep(false));
      if c1.wr > 0 {
        BroadcastWakes(c1, c');
        WakeKeeps(c1, c');
      } else {
        NoneInRole(c1, WaitingReader, Asleep(true));
      }
    }
  }

  lemma LockStepKeeps(c: Sys, t: nat, c': Sys)
    requires Inv(c) && t in c.pcs && Step(c, t, c')
    ensures Inv(c')
  {
    var pc := c.pcs[t];
    if pc.Testing? {
      TestKeeps(c, t, c');
    } else if pc.Signalled? {
      ResumeKeeps(c, t, c');
    } else if pc.Releasing? {
      if pc.reader { ReleaseReaderKeeps(c, t, c'); } else { ReleaseWriterKeeps(c, t, c'); }
    } else {
      QuietKeeps(c, t, c'.pcs[t]);
      assert c' == Goto(c, t, c'.pcs[t]);
    }
  }

  lemma InitInv(c: Sys)
    requires Init(c)
    ensures Inv(c)
  {
    forall role | role != Uncounted ensures InRole(c.pcs, role) == {} {}
  }

  lemma {:induction false} LockRunKeeps(cs: seq<Sys>, k: nat)
    requires Run(cs) && k < |cs|
    ensures Inv(cs[k])
    decreases k
  {
    if k == 0 {
      InitInv(cs[0]);
    } else {
      LockRunKeeps(cs, k - 1);
      assert Next(cs[k - 1], cs[k - 1 + 1]);
      var t :| t in cs[k - 1].pcs && Step(cs[k - 1], t, cs[k]);
      LockStepKeeps(cs[k - 1], t, cs[k]);
    }
  }

  // ---------------------------------------------------------------- what it means

  lemma OnlyOne(s: set<nat>, t: nat, u: nat)
    requires |s| <= 1 && t in s && u in s
    ensures t == u
  {
    CardSplit(s, t);
    if u != t { CardSplit(s - {t}, u); }
  }

  /** Whenever a thread is inside as a writer, no other thread is inside at all. */
  lemma MutualExclusion(cs: seq<Sys>, k: nat, t: nat, u: nat)
    requires Run(cs) && k < |cs| && t in cs[k].pcs && u in cs[k].pcs && t != u
    requires cs[k].pcs[t] == Active(false)
    ensures !cs[k].pcs[u].Active?
  {
    LockRunKeeps(cs, k);
    var c := cs[k];
    SomeInRole(c, ActiveWriter, t);
    if c.pcs[u] == Active(true) { SomeInRole(c, ActiveReader, u); }
    if c.pcs[u] == Active(false) { OnlyOne(InRole(c.pcs, ActiveWriter), t, u); }
  }

  ghost predicate NobodyActive(c: Sys) {
    forall t :: t in c.pcs ==> RoleOf(c.pcs[t]) != ActiveReader && RoleOf(c.pcs[t]) != ActiveWriter
  }

  /** No lost wake-up: with nobody inside and the guard free, a sleeper implies a writer already signalled. */
  lemma NoLostWakeUp(c: Sys, reader: bool)
    requires Inv(c) && NobodyActive(c) && GuardFree(c) && Has(c, Asleep(reader))
    ensures Has(c, Signalled(false))
  {
    assert InRole(c.pcs, ActiveReader) == {} && InRole(c.pcs, ActiveWriter) == {};
    assert c.ar == 0 && c.aw == 0 && !Has(c, Testing(false));
    if reader {
      assert c.ww > 0;
      var u :| u in InRole(c.pcs, WaitingWriter);
      assert Has(c, c.pcs[u]);
    }
  }

  ghost predicate CanStep(c: Sys, t: nat) { t in c.pcs && c.pcs[t] != Out && exists c' :: Step(c, t, c') }

  lemma HolderSteps(c: Sys, t: nat)
    requires t in c.pcs && HoldsGuard(c.pcs[t])
    ensures CanStep(c, t)
  {
    match c.pcs[t]
    case Testing(r) =>
      var c' := if r then (if c.aw + c.ww > 0 then Goto(c, t, Asleep(true)).(wr := c.wr + 1) else Goto(c, t, Granted(true)).(ar := c.ar + 1))
                else (if c.ar + c.aw > 0 then Goto(c, t, Asleep(false)).(ww := c.ww + 1) else Goto(c, t, Granted(false)).(aw := c.aw + 1));
      assert Step(c, t, c');
    case Granted(r) => assert Step(c, t, Goto(c, t, Active(r)));
    case Releasing(r) =>
      var c1 := if r then Goto(c, t, Leaving).(ar := c.ar - 1) else Goto(c, t, Leaving).(aw := c.aw - 1);
      var pcs' := SomeSignal(c1.pcs);
      if (r && c1.ar == 0 && c1.ww > 0) || (!r && c1.ww > 0) {
        assert Step(c, t, c1.(pcs := pcs'));
      } else if !r && c1.wr > 0 {
        assert Step(c, t, c1.(pcs := Broadcast(c1.pcs, true)));
      } else {
        assert Step(c, t, c1);
      }
    case Leaving => assert Step(c, t, Goto(c, t, Out));
  }

  lemma SomeSignal(pcs: map<nat, Pc>) returns (pcs': map<nat, Pc>)
    ensures Signals(pcs, false, pcs')
  {
    pcs' := pcs;
    if t :| t in pcs && pcs[t] == Asleep(false) { pcs' := pcs[t := Signalled(false)]; }
  }

  lemma OutsiderSteps(c: Sys, t: nat)
    requires t in c.pcs && GuardFree(c)
    requires var pc := c.pcs[t]; pc.WantAcquire? || pc.Signalled? || pc.Active? || pc.WantRelease?
    ensures CanStep(c, t)
  {
    match c.pcs[t]
    case WantAcquire(r) => assert Step(c, t, Goto(c, t, Testing(r)));
    case Signalled(r) =>
      assert Step(c, t, if r then Goto(c, t, Testing(true)).(wr := c.wr - 1) else Goto(c, t, Testing(false)).(ww := c.ww - 1));
    case Active(r) => assert Step(c, t, Goto(c, t, WantRelease(r)));
    case WantRelease(r) => assert Step(c, t, Goto(c, t, Releasing(r)));
  }

  predicate Awake(pc: Pc) { pc != Out && !pc.Asleep? }

  lemma SomeoneAwake(c: Sys, t: nat)
    requires Inv(c) && t in c.pcs && c.pcs[t] != Out
    ensures exists u :: u in c.pcs && Awake(c.pcs[u])
  {
    if c.pcs[t].Asleep? && NobodyActive(c) && GuardFree(c) {
      assert Has(c, Asleep(c.pcs[t].reader));
      NoLostWakeUp(c, c.pcs[t].reader);
    }
  }

  /** As long as a thread is using the lock, some thread using it can move. */
  lemma LockNeverDeadlocks(c: Sys, t: nat)
    requires Inv(c) && t in c.pcs && c.pcs[t] != Out
    ensures exists u :: CanStep(c, u)
  {
    SomeoneAwake(c, t);
    if u :| u in c.pcs && HoldsGuard(c.pcs[u]) {
      HolderSteps(c, u);
    } else {
      var u :| u in c.pcs && Awake(c.pcs[u]);
      OutsiderSteps(c, u);
    }
  }
}
