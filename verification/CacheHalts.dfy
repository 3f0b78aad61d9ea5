/** When the buffer cache stops the kernel. Two threads that want one sector at the same time can fail an assertion,
    or read the wrong sector; threads that keep to different sectors, no more of them than slots, never do. */
module CacheHalts {
  import opened Cache
  import opened CacheSlots

  // ---------------------------------------------------------------- runs that go wrong

  ghost predicate Reachable(c: Sys) { exists cs :: Run(cs) && cs[|cs| - 1] == c }

  lemma ReachStart(c: Sys)
    requires Init(c)
    ensures Reachable(c)
  {
    assert Run([c]);
  }

  lemma ReachStep(c: Sys, t: nat, c': Sys)
    requires Reachable(c) && !c.halted && t in c.pcs && Step(c, t, c')
    ensures Reachable(c')
  {
    var cs :| Run(cs) && cs[|cs| - 1] == c;
    assert Next(c, c');
    assert Run(cs + [c']);
  }

  /** Two threads, 0 and 1, and one slot. */
  function Two(a: Pc, b: Pc, e: Entry): Sys { Sys(map[0 := a, 1 := b], [e], false) }

  lemma GotoTwo(a: Pc, b: Pc, e: Entry, pc: Pc)
    ensures Goto(Two(a, b, e), 0, pc) == Two(pc, b, e) && Goto(Two(a, b, e), 1, pc) == Two(a, pc, e)
  {
  }

  lemma First(a: Pc, b: Pc, e: Entry, a': Pc)
    requires Reachable(Two(a, b, e)) && Step(Two(a, b, e), 0, Goto(Two(a, b, e), 0, a'))
    ensures Reachable(Two(a', b, e))
  {
    ReachStep(Two(a, b, e), 0, Goto(Two(a, b, e), 0, a'));
    GotoTwo(a, b, e, a');
  }

  lemma Second(a: Pc, b: Pc, e: Entry, b': Pc)
    requires Reachable(Two(a, b, e)) && Step(Two(a, b, e), 1, Goto(Two(a, b, e), 1, b'))
    ensures Reachable(Two(a, b', e))
  {
    ReachStep(Two(a, b, e), 1, Goto(Two(a, b, e), 1, b'));
    GotoTwo(a, b, e, b');
  }

  lemma FirstReserves(b: Pc, e: Entry, s: nat)
    requires Reachable(Two(Chosen(s, 0), b, e))
    ensures Reachable(Two(Reserved(s, 0), b, Entry(LOADING, s)))
  {
    var c := Two(Chosen(s, 0), b, e);
    var c' := Reserve(c, 0, s, 0);
    ReachStep(c, 0, c');
    assert c' == Two(Reserved(s, 0), b, Entry(LOADING, s));
  }

  lemma FirstFinishes(b: Pc, s: nat)
    requires Reachable(Two(Finishing(s, 0), b, Entry(LOADING, s)))
    ensures Reachable(Two(Idle, Awake(b, 0), Entry(VALID, s)))
  {
    var c := Two(Finishing(s, 0), b, Entry(LOADING, s));
    ReachStep(c, 0, Finished(c, 0, 0));
    FinishedTwo(b, s);
  }

  lemma FinishedTwo(b: Pc, s: nat)
    ensures Finished(Two(Finishing(s, 0), b, Entry(LOADING, s)), 0, 0) == Two(Idle, Awake(b, 0), Entry(VALID, s))
  {
    var c := Two(Finishing(s, 0), b, Entry(LOADING, s));
    assert Goto(Broadcast(c, 0), 0, Idle).pcs == map[0 := Idle, 1 := Awake(b, 0)];
  }

  /** From the choice of a slot to the disk read, by thread 0. */
  lemma FirstLoads(b: Pc, e: Entry, s: nat)
    requires Reachable(Two(Chosen(s, 0), b, e))
    ensures Reachable(Two(Loading(s, 0), b, Entry(LOADING, s)))
  {
    FirstReserves(b, e, s);
    First(Reserved(s, 0), b, Entry(LOADING, s), Loading(s, 0));
  }

  /** From the disk read to the end, by thread 0. */
  lemma FirstCompletes(b: Pc, s: nat)
    requires Reachable(Two(Loading(s, 0), b, Entry(LOADING, s))) && !HoldsEntry(b, 0)
    ensures Reachable(Two(Idle, Awake(b, 0), Entry(VALID, s)))
  {
    var e := Entry(LOADING, s);
    First(Loading(s, 0), b, e, WantFinish(s, 0));
    First(WantFinish(s, 0), b, e, Finishing(s, 0));
    FirstFinishes(b, s);
  }

  lemma FirstLooks()
    ensures Reachable(Two(Looking(Access, 0), Idle, Entry(INVALID, 0)))
  {
    var e := Entry(INVALID, 0);
    ReachStart(Two(Idle, Idle, e));
    First(Idle, Idle, e, WantGlobal(Access, 0));
    First(WantGlobal(Access, 0), Idle, e, Looking(Access, 0));
  }

  /** Thread 0 is reading sector 0 from the disk. */
  lemma FirstMisses()
    ensures Reachable(Two(Loading(0, 0), Idle, Entry(LOADING, 0)))
  {
    var e := Entry(INVALID, 0);
    FirstLooks();
    First(Looking(Access, 0), Idle, e, Missed(0));
    First(Missed(0), Idle, e, Chosen(0, 0));
    FirstLoads(Idle, e, 0);
  }

  lemma SecondFinds()
    ensures Reachable(Two(Loading(0, 0), Found(Access, 0, 0), Entry(LOADING, 0)))
  {
    var a, e := Loading(0, 0), Entry(LOADING, 0);
    FirstMisses();
    Second(a, Idle, e, WantGlobal(Access, 0));
    Second(a, WantGlobal(Access, 0), e, Looking(Access, 0));
    Second(a, Looking(Access, 0), e, Found(Access, 0, 0));
  }

  /** Thread 1 has seen that sector 0 is being loaded, and wants the entry lock. */
  lemma SecondWaits()
    ensures Reachable(Two(Loading(0, 0), WantEntry(0, 0, true), Entry(LOADING, 0)))
  {
    var a, e := Loading(0, 0), Entry(LOADING, 0);
    SecondFinds();
    Second(a, Found(Access, 0, 0), e, NotValid(0, 0));
    Second(a, NotValid(0, 0), e, WantEntry(0, 0, true));
  }

  /** A run that fails an assertion: the load ends between the test of the slot's state and the lock on its entry. */
  lemma HaltingRun()
    ensures exists c :: Reachable(c) && c.halted
  {
    var e := Entry(VALID, 0);
    SecondWaits();
    FirstCompletes(WantEntry(0, 0, true), 0);
    Second(Idle, WantEntry(0, 0, true), e, HasBoth(0, 0, true));
    Second(Idle, HasBoth(0, 0, true), e, Waiting(0, 0, true));
    var c := Two(Idle, Waiting(0, 0, true), e);
    ReachStep(c, 1, Halt(c));
  }

  lemma SecondSleeps()
    ensures Reachable(Two(Loading(0, 0), Sleeping(0, 0), Entry(LOADING, 0)))
  {
    var a, e := Loading(0, 0), Entry(LOADING, 0);
    SecondWaits();
    Second(a, WantEntry(0, 0, true), e, HasBoth(0, 0, true));
    Second(a, HasBoth(0, 0, true), e, Waiting(0, 0, true));
    Second(a, Waiting(0, 0, true), e, Sleeping(0, 0));
  }

  /** Thread 1 sleeps through the load, and is woken. */
  lemma SecondWoken()
    ensures Reachable(Two(Idle, Woken(0, 0), Entry(VALID, 0)))
  {
    SecondSleeps();
    FirstCompletes(Sleeping(0, 0), 0);
  }

  /** Before it gets the entry lock back, thread 0 wants another sector. */
  lemma FirstMissesAgain()
    ensures Reachable(Two(Missed(1), Woken(0, 0), Entry(VALID, 0)))
  {
    var b, e := Woken(0, 0), Entry(VALID, 0);
    SecondWoken();
    First(Idle, b, e, WantGlobal(Access, 1));
    First(WantGlobal(Access, 1), b, e, Looking(Access, 1));
    First(Looking(Access, 1), b, e, Missed(1));
  }

  lemma FirstPicks()
    ensures Reachable(Two(WantVictim(1, 0), Woken(0, 0), Entry(VALID, 0)))
  {
    FirstMissesAgain();
    First(Missed(1), Woken(0, 0), Entry(VALID, 0), WantVictim(1, 0));
  }

  lemma FirstEvicts()
    ensures Reachable(Two(Chosen(1, 0), Woken(0, 0), Entry(VALID, 0)))
  {
    var b, e := Woken(0, 0), Entry(VALID, 0);
    FirstPicks();
    First(WantVictim(1, 0), b, e, Cleaning(1, 0));
    First(Cleaning(1, 0), b, e, Chosen(1, 0));
  }

  lemma SlotReplaced()
    ensures Reachable(Two(Idle, Woken(0, 0), Entry(VALID, 1)))
  {
    FirstEvicts();
    FirstLoads(Woken(0, 0), Entry(VALID, 0), 1);
    FirstCompletes(Woken(0, 0), 1);
  }

  /** The thread uses a slot that holds another sector than the one it asked for. */
  predicate WrongSector(c: Sys, t: nat) {
    && t in c.pcs && c.pcs[t].Using? && c.pcs[t].i < |c.entries|
    && c.entries[c.pcs[t].i].sector != c.pcs[t].s
  }

  /** A run in which a thread that waited for sector 0 is handed sector 1. */
  lemma WrongSectorRun()
    ensures exists c, t :: Reachable(c) && WrongSector(c, t)
  {
    var e := Entry(VALID, 1);
    SlotReplaced();
    Second(Idle, Woken(0, 0), e, Waiting(0, 0, false));
    Second(Idle, Waiting(0, 0, false), e, Using(0, 0, true));
    assert WrongSector(Two(Idle, Using(0, 0, true), e), 1);
  }

  // ---------------------------------------------------------------- runs that do not

  /** The sector of the operation the thread is in, if it is in one. */
  predicate WorksOn(pc: Pc, s: nat) { !pc.Idle? && !pc.WantGlobalToFlush? && !Flushes(pc) && pc.s == s }

  predicate Flushes(pc: Pc) { pc.Flushing? || pc.WantFlush? || pc.FlushingEntry? }

  /** No two threads are in an operation on one sector. */
  ghost predicate Apart(c: Sys) {
    forall t, u, s :: t in c.pcs && u in c.pcs && WorksOn(c.pcs[t], s) && WorksOn(c.pcs[u], s) ==> t == u
  }

  predicate Enough(c: Sys) { |c.pcs.Keys| <= |c.entries| }

  /** The thread has found its sector LOADING, at some point of this operation. */
  predicate FoundLoading(pc: Pc) {
    || pc.NotValid? || (pc.WantEntry? && pc.loading) || (pc.HasBoth? && pc.loading) || pc.Waiting? || pc.Sleeping?
    || pc.Woken? || (pc.Using? && pc.waited)
  }

  ghost predicate Calm(c: Sys) { !c.halted && forall t :: t in c.pcs ==> !FoundLoading(c.pcs[t]) }

  /** A LOADING slot is being loaded by a thread that works on its sector, so nobody else finds it. */
  lemma ApartFindsValid(c: Sys, t: nat)
    requires Inv(c) && Apart(c) && t in c.pcs && c.pcs[t].Found?
    ensures c.pcs[t].i < |c.entries| && c.entries[c.pcs[t].i].state == VALID
  {
    var s, i := c.pcs[t].s, c.pcs[t].i;
    assert PcOk(c, c.pcs[t]) && HasLoader(c, i);
    if c.entries[i].state == LOADING {
      var u :| u in c.pcs && Loads(c.pcs[u], i);
      assert PcOk(c, c.pcs[u]) && WorksOn(c.pcs[u], s) && WorksOn(c.pcs[t], s);
    }
  }

  /** Distinct slots have distinct loaders. */
  lemma {:induction false} LoadersOf(c: Sys, n: nat) returns (ts: set<nat>)
    requires Inv(c) && n <= |c.entries| && forall i :: 0 <= i < n ==> c.entries[i].state == LOADING
    ensures |ts| == n && ts <= c.pcs.Keys && forall t :: t in ts ==> exists i: nat :: i < n && Loads(c.pcs[t], i)
  {
    ts := {};
    if n > 0 {
      ts := LoadersOf(c, n - 1);
      assert HasLoader(c, n - 1);
      var u :| u in c.pcs && Loads(c.pcs[u], n - 1);
      assert u !in ts;
      ts := ts + {u};
    }
  }

  /** With no more threads than slots, a thread that needs a slot finds one that is not being loaded. */
  lemma EnoughSlots(c: Sys, t: nat)
    requires Inv(c) && Enough(c) && t in c.pcs && c.pcs[t].Missed?
    ensures !NoneIs(c, INVALID) || !NoneIs(c, VALID)
  {
    if NoneIs(c, INVALID) && NoneIs(c, VALID) {
      var ts := LoadersOf(c, |c.entries|);
      assert t !in ts;
      SubsetSize(ts + {t}, c.pcs.Keys);
    }
  }

  lemma {:induction false} SubsetSize(a: set<nat>, b: set<nat>)
    requires a <= b
    ensures |a| <= |b|
  {
    if x :| x in a { SubsetSize(a - {x}, b - {x}); }
  }

  lemma CalmNeverHalts(c: Sys, t: nat)
    requires Inv(c) && Enough(c) && Calm(c)
    ensures !HaltsNext(c, t)
  {
    if t in c.pcs && c.pcs[t].Missed? { EnoughSlots(c, t); }
  }

  lemma StepShape(c: Sys, t: nat, c': Sys)
    requires t in c.pcs && Step(c, t, c')
    ensures c'.pcs.Keys == c.pcs.Keys && |c'.entries| == |c.entries|
  {
    if c.pcs[t].Idle? || c.pcs[t].Looking? || c.pcs[t].Missed? {
      assert c' == Halt(c) || exists pc :: c' == Goto(c, t, pc);
    }
  }

  /** Only a thread that finds its sector LOADING can start to wait. */
  lemma CalmMove(c: Sys, t: nat, c': Sys)
    requires Calm(c) && t in c.pcs && Step(c, t, c') && !HaltsNext(c, t)
    requires c.pcs[t].Found? ==> c.pcs[t].i < |c.entries| && c.entries[c.pcs[t].i].state == VALID
    ensures Calm(c')
  {
  }

  lemma CalmStep(c: Sys, t: nat, c': Sys)
    requires Inv(c) && Apart(c) && Enough(c) && Calm(c) && t in c.pcs && Step(c, t, c')
    ensures Calm(c') && Enough(c')
  {
    CalmNeverHalts(c, t);
    StepShape(c, t, c');
    if c.pcs[t].Found? { ApartFindsValid(c, t); }
    CalmMove(c, t, c');
  }

  lemma {:induction false} CalmRun(cs: seq<Sys>, k: nat)
    requires Run(cs) && k < |cs| && Enough(cs[0]) && forall j :: 0 <= j < k ==> Apart(cs[j])
    ensures Calm(cs[k]) && Enough(cs[k])
    decreases k
  {
    if k > 0 {
      CalmRun(cs, k - 1);
      SlotRunKeeps(cs, k - 1);
      assert Next(cs[k - 1], cs[k - 1 + 1]);
      var t :| t in cs[k - 1].pcs && Step(cs[k - 1], t, cs[k]);
      CalmStep(cs[k - 1], t, cs[k]);
    }
  }

  /** Every run of no more threads than slots in which no two are in an operation on one sector: no assertion
      fails, each thread uses a VALID slot that holds its sector, and while any is busy some busy one can move. */
  lemma ApartIsSafe(cs: seq<Sys>, k: nat)
    requires Run(cs) && k < |cs| && Enough(cs[0]) && forall j :: 0 <= j < k ==> Apart(cs[j])
    ensures var c := cs[k];
      && !c.halted
      && (forall t :: t in c.pcs && c.pcs[t].Using? ==>
            c.pcs[t].i < |c.entries| && c.entries[c.pcs[t].i] == Entry(VALID, c.pcs[t].s))
      && ((exists t :: t in c.pcs && c.pcs[t] != Idle) ==> exists u :: BusyCanStep(c, u))
  {
    var c := cs[k];
    CalmRun(cs, k);
    SlotRunKeeps(cs, k);
    forall t | t in c.pcs && c.pcs[t].Using? ensures c.pcs[t].i < |c.entries| && c.entries[c.pcs[t].i] == Entry(VALID, c.pcs[t].s) {
      assert PcOk(c, c.pcs[t]);
    }
    if t :| t in c.pcs && c.pcs[t] != Idle {
      CacheNeverDeadlocks(c, t);
      forall u ensures !HaltsNext(c, u) { CalmNeverHalts(c, u); }
    }
  }
}
