/** The slots of the buffer cache under any interleaving of readers, writers, prefetchers and flushers.
    Every lock acquisition, test and update of a slot's state is a step of its own. A lock is held by the
    thread whose program counter says so. */
module CacheSlots {
  import opened Cache

  datatype Op = Access | Prefetch

  datatype Entry = Entry(state: State, sector: nat)

  datatype Pc =
    | Idle
    | WantGlobal(op: Op, s: nat)
    | WantGlobalToFlush
    | Looking(op: Op, s: nat)
    | Found(op: Op, s: nat, i: nat)
    | NotValid(s: nat, i: nat)
    | WantEntry(s: nat, i: nat, loading: bool)
    | HasBoth(s: nat, i: nat, loading: bool)
    | Waiting(s: nat, i: nat, first: bool)
    | Sleeping(s: nat, i: nat)
    | Woken(s: nat, i: nat)
    | Using(s: nat, i: nat, waited: bool)
    | Missed(s: nat)
    | WantVictim(s: nat, i: nat)
    | Cleaning(s: nat, i: nat)
    | Chosen(s: nat, i: nat)
    | Reserved(s: nat, i: nat)
    | Loading(s: nat, i: nat)
    | WantFinish(s: nat, i: nat)
    | Finishing(s: nat, i: nat)
    | Flushing(k: nat)
    | WantFlush(k: nat)
    | FlushingEntry(k: nat)

  /** `halted` records a failed assertion or panic; nothing moves after it. */
  datatype Sys = Sys(pcs: map<nat, Pc>, entries: seq<Entry>, halted: bool)

  predicate HoldsGlobal(pc: Pc) {
    || pc.Looking? || pc.Found? || pc.NotValid? || pc.WantEntry? || pc.HasBoth? || pc.Missed? || pc.WantVictim?
    || pc.Cleaning? || pc.Chosen? || pc.Reserved? || pc.Flushing? || pc.WantFlush? || pc.FlushingEntry?
  }

  predicate HoldsEntry(pc: Pc, i: nat) {
    || ((pc.HasBoth? || pc.Waiting? || pc.Using? || pc.Cleaning? || pc.Finishing?) && pc.i == i)
    || (pc.FlushingEntry? && pc.k == i)
  }

  predicate WantsGlobal(pc: Pc) { pc.WantGlobal? || pc.WantGlobalToFlush? }

  predicate WantsEntry(pc: Pc, i: nat) {
    || ((pc.WantEntry? || pc.Woken? || pc.WantVictim? || pc.WantFinish?) && pc.i == i)
    || (pc.WantFlush? && pc.k == i)
  }

  /** The thread has reserved slot `i` and has not yet made it valid. */
  predicate Loads(pc: Pc, i: nat) {
    (pc.Reserved? || pc.Loading? || pc.WantFinish? || pc.Finishing?) && pc.i == i
  }

  ghost predicate GlobalFree(c: Sys) { forall t :: t in c.pcs ==> !HoldsGlobal(c.pcs[t]) }

  ghost predicate EntryFree(c: Sys, i: nat) { forall t :: t in c.pcs ==> !HoldsEntry(c.pcs[t], i) }

  predicate TakenBy(e: Entry, s: nat) { e.state != INVALID && e.sector == s }

  predicate Missing(c: Sys, s: nat) { forall i :: 0 <= i < |c.entries| ==> !TakenBy(c.entries[i], s) }

  predicate NoneIs(c: Sys, st: State) { forall i :: 0 <= i < |c.entries| ==> c.entries[i].state != st }

  // ---------------------------------------------------------------- steps

  function Goto(c: Sys, t: nat, pc: Pc): Sys { c.(pcs := c.pcs[t := pc]) }

  function Halt(c: Sys): Sys { c.(halted := true) }

  function SetState(c: Sys, i: nat, e: Entry): Sys
    requires i < |c.entries|
  {
    c.(entries := c.entries[i := e])
  }

  function Awake(pc: Pc, i: nat): Pc { if pc.Sleeping? && pc.i == i then Woken(pc.s, i) else pc }

  function Reserve(c: Sys, t: nat, s: nat, i: nat): Sys
    requires i < |c.entries|
  {
    SetState(Goto(c, t, Reserved(s, i)), i, Entry(LOADING, s))
  }

  /** cond_broadcast: every thread asleep on slot `i` now wants its entry lock. */
  function Broadcast(c: Sys, i: nat): Sys {
    c.(pcs := map t | t in c.pcs :: Awake(c.pcs[t], i))
  }

  function Finished(c: Sys, t: nat, i: nat): Sys
    requires i < |c.entries|
  {
    SetState(Goto(Broadcast(c, i), t, Idle), i, c.entries[i].(state := VALID))
  }

  /** Thread `t` takes one step. */
  ghost predicate Step(c: Sys, t: nat, c': Sys)
    requires t in c.pcs
  {
    var n := |c.entries|;
    match c.pcs[t]
    case Idle => (exists op, s: nat :: c' == Goto(c, t, WantGlobal(op, s))) || c' == Goto(c, t, WantGlobalToFlush)
    case WantGlobal(op, s) => GlobalFree(c) && c' == Goto(c, t, Looking(op, s))
    case WantGlobalToFlush => GlobalFree(c) && c' == Goto(c, t, Flushing(0))
    case Looking(op, s) =>
      || (Missing(c, s) && c' == Goto(c, t, Missed(s)))
      || exists i: nat :: i < n && TakenBy(c.entries[i], s) && c' == Goto(c, t, Found(op, s, i))
    case Found(op, s, i) =>
      i < n && c' == (if op == Prefetch then Goto(c, t, Idle)
                      else if c.entries[i].state == VALID then Goto(c, t, WantEntry(s, i, false))
                      else Goto(c, t, NotValid(s, i)))
    case NotValid(s, i) =>
      i < n && c' == if c.entries[i].state == LOADING then Goto(c, t, WantEntry(s, i, true)) else Halt(c)
    case WantEntry(s, i, loading) => EntryFree(c, i) && c' == Goto(c, t, HasBoth(s, i, loading))
    case HasBoth(s, i, loading) => c' == Goto(c, t, if loading then Waiting(s, i, true) else Using(s, i, false))
    case Waiting(s, i, first) =>
      i < n && c' == (if c.entries[i].state == LOADING then Goto(c, t, Sleeping(s, i))
                      else if first then Halt(c) else Goto(c, t, Using(s, i, true)))
    case Sleeping(s, i) => false
    case Woken(s, i) => EntryFree(c, i) && c' == Goto(c, t, Waiting(s, i, false))
    case Using(s, i, waited) => c' == Goto(c, t, Idle)
    case Missed(s) =>
      || (exists i: nat :: i < n && c.entries[i].state == INVALID && c' == Goto(c, t, Chosen(s, i)))
      || (exists i: nat :: i < n && c.entries[i].state == VALID && NoneIs(c, INVALID) && c' == Goto(c, t, WantVictim(s, i)))
      || (NoneIs(c, INVALID) && NoneIs(c, VALID) && c' == Halt(c))
    case WantVictim(s, i) => EntryFree(c, i) && c' == Goto(c, t, Cleaning(s, i))
    case Cleaning(s, i) => c' == Goto(c, t, Chosen(s, i))
    case Chosen(s, i) => i < n && c' == Reserve(c, t, s, i)
    case Reserved(s, i) => c' == Goto(c, t, Loading(s, i))
    case Loading(s, i) => c' == Goto(c, t, WantFinish(s, i))
    case WantFinish(s, i) => EntryFree(c, i) && c' == Goto(c, t, Finishing(s, i))
    case Finishing(s, i) =>
      i < n && c' == Finished(c, t, i)
    case Flushing(k) =>
      || (k >= n && c' == Goto(c, t, Idle))
      || (k < n && c.entries[k].state == VALID && c' == Goto(c, t, WantFlush(k)))
      || (k < n && c' == Goto(c, t, Flushing(k + 1)))
    case WantFlush(k) => EntryFree(c, k) && c' == Goto(c, t, FlushingEntry(k))
    case FlushingEntry(k) => c' == Goto(c, t, Flushing(k + 1))
  }

  ghost predicate Next(c: Sys, c': Sys) {
    !c.halted && exists t :: t in c.pcs && Step(c, t, c')
  }

  ghost predicate Init(c: Sys) {
    && !c.halted && (forall t :: t in c.pcs ==> c.pcs[t] == Idle)
    && forall i :: 0 <= i < |c.entries| ==> c.entries[i].state == INVALID
  }

  // ---------------------------------------------------------------- invariant

  /** What a thread's program counter says about the slots. */
  predicate PcOk(c: Sys, pc: Pc) {
    var n := |c.entries|;
    match pc
    case Found(op, s, i) => i < n && TakenBy(c.entries[i], s)
    case NotValid(s, i) => i < n && TakenBy(c.entries[i], s)
    case WantEntry(s, i, loading) => i < n && TakenBy(c.entries[i], s) && (!loading ==> c.entries[i].state == VALID)
    case HasBoth(s, i, loading) => i < n && (!loading ==> c.entries[i] == Entry(VALID, s))
    case Waiting(s, i, _) => i < n
    case Sleeping(s, i) => i < n && c.entries[i].state == LOADING
    case Woken(s, i) => i < n
    case Using(s, i, waited) => i < n && (!waited ==> c.entries[i] == Entry(VALID, s))
    case Missed(s) => Missing(c, s)
    case WantVictim(s, i) => i < n && c.entries[i].state == VALID && Missing(c, s) && NoneIs(c, INVALID)
    case Cleaning(s, i) => i < n && c.entries[i].state == VALID && Missing(c, s) && NoneIs(c, INVALID)
    case Chosen(s, i) => i < n && c.entries[i].state != LOADING && Missing(c, s)
    case Reserved(s, i) => i < n && c.entries[i] == Entry(LOADING, s)
    case Loading(s, i) => i < n && c.entries[i] == Entry(LOADING, s)
    case WantFinish(s, i) => i < n && c.entries[i] == Entry(LOADING, s)
    case Finishing(s, i) => i < n && c.entries[i] == Entry(LOADING, s)
    case _ => true
  }

  ghost predicate PcsOk(c: Sys) { forall t :: t in c.pcs ==> PcOk(c, c.pcs[t]) }

  ghost predicate OneGlobal(c: Sys) {
    forall t, u :: t in c.pcs && u in c.pcs && HoldsGlobal(c.pcs[t]) && HoldsGlobal(c.pcs[u]) ==> t == u
  }

  ghost predicate OneEntry(c: Sys, i: nat) {
    forall t, u :: t in c.pcs && u in c.pcs && HoldsEntry(c.pcs[t], i) && HoldsEntry(c.pcs[u], i) ==> t == u
  }

  ghost predicate OneLoader(c: Sys, i: nat) {
    forall t, u :: t in c.pcs && u in c.pcs && Loads(c.pcs[t], i) && Loads(c.pcs[u], i) ==> t == u
  }

  ghost predicate HasLoader(c: Sys, i: nat)
    requires i < |c.entries|
  {
    c.entries[i].state == LOADING ==> exists t :: t in c.pcs && Loads(c.pcs[t], i)
  }

  ghost predicate NoDuplicateSectors(c: Sys) {
    forall i, j :: 0 <= i < j < |c.entries| && c.entries[i].state != INVALID && c.entries[j].state != INVALID ==>
      c.entries[i].sector != c.entries[j].sector
  }

  ghost predicate Locks(c: Sys) { OneGlobal(c) && forall i: nat :: OneEntry(c, i) }

  ghost predicate Loaders(c: Sys) {
    (forall i: nat :: OneLoader(c, i)) && forall i: nat :: i < |c.entries| ==> HasLoader(c, i)
  }

  /** The thread uses slot `i`, which it found VALID. */
  predicate HitsIn(pc: Pc, i: nat) { pc.Using? && !pc.waited && pc.i == i }

  /** A slot about to be given away is not in use by a thread that found it VALID. */
  ghost predicate VictimFree(c: Sys) {
    forall t, u :: t in c.pcs && u in c.pcs && c.pcs[t].Chosen? ==> !HitsIn(c.pcs[u], c.pcs[t].i)
  }

  ghost predicate Inv(c: Sys) { PcsOk(c) && Locks(c) && Loaders(c) && NoDuplicateSectors(c) && VictimFree(c) }

  // ---------------------------------------------------------------- every step keeps it

  /** A thread may move on without touching the slots: locks it gains were free, and what it loads stays the same. */
  ghost predicate Legal(c: Sys, t: nat, pc: Pc)
    requires t in c.pcs
  {
    && PcOk(c, pc)
    && (HoldsGlobal(pc) ==> HoldsGlobal(c.pcs[t]) || GlobalFree(c))
    && (forall i: nat :: HoldsEntry(pc, i) ==> HoldsEntry(c.pcs[t], i) || EntryFree(c, i))
    && (forall i: nat :: Loads(pc, i) <==> Loads(c.pcs[t], i))
    && (pc.Chosen? ==> forall u :: u in c.pcs ==> !HitsIn(c.pcs[u], pc.i))
    && (pc.Using? && !pc.waited ==> HoldsGlobal(c.pcs[t]))
  }

  lemma GotoKeeps(c: Sys, t: nat, pc: Pc)
    requires Inv(c) && t in c.pcs && Legal(c, t, pc)
    ensures Inv(Goto(c, t, pc))
  {
    var c' := Goto(c, t, pc);
    forall i: nat ensures OneEntry(c', i) { assert OneEntry(c, i); }
    forall i: nat ensures OneLoader(c', i) { assert OneLoader(c, i); }
    forall i: nat | i < |c.entries| ensures HasLoader(c', i) {
      assert HasLoader(c, i);
      if c.entries[i].state == LOADING {
        var u :| u in c.pcs && Loads(c.pcs[u], i);
        assert Loads(c'.pcs[u], i);
      }
    }
    forall u | u in c'.pcs ensures PcOk(c', c'.pcs[u]) {
      if u != t { assert PcOk(c, c.pcs[u]); }
    }
    GotoVictims(c, t, pc);
  }

  lemma GotoVictims(c: Sys, t: nat, pc: Pc)
    requires Inv(c) && t in c.pcs && Legal(c, t, pc)
    ensures VictimFree(Goto(c, t, pc))
  {
    var c' := Goto(c, t, pc);
    forall v, u | v in c'.pcs && u in c'.pcs && c'.pcs[v].Chosen? ensures !HitsIn(c'.pcs[u], c'.pcs[v].i) {
      assert HoldsGlobal(c'.pcs[v]);
    }
  }

  /** The new sector is nowhere else, and the slot has no loader yet. */
  lemma ReserveKeeps(c: Sys, t: nat, s: nat, i: nat)
    requires Inv(c) && t in c.pcs && c.pcs[t] == Chosen(s, i) && i < |c.entries|
    ensures Inv(Reserve(c, t, s, i))
  {
    assert PcOk(c, c.pcs[t]);
    ReservePcs(c, t, s, i);
    ReserveLocks(c, t, s, i);
    ReserveLoaders(c, t, s, i);
    ReserveSectors(c, t, s, i);
    ReserveVictims(c, t, s, i);
  }

  lemma ReservePcs(c: Sys, t: nat, s: nat, i: nat)
    requires PcsOk(c) && OneGlobal(c) && VictimFree(c) && t in c.pcs && c.pcs[t] == Chosen(s, i) && i < |c.entries|
    ensures PcsOk(Reserve(c, t, s, i))
  {
    var c' := Reserve(c, t, s, i);
    assert PcOk(c, c.pcs[t]);
    forall u | u in c.pcs ensures !Loads(c.pcs[u], i) { assert PcOk(c, c.pcs[u]); }
    forall u | u in c'.pcs ensures PcOk(c', c'.pcs[u]) {
      if u != t { assert PcOk(c, c.pcs[u]) && !HoldsGlobal(c.pcs[u]); }
    }
  }

  lemma ReserveLocks(c: Sys, t: nat, s: nat, i: nat)
    requires Locks(c) && t in c.pcs && c.pcs[t] == Chosen(s, i) && i < |c.entries|
    ensures Locks(Reserve(c, t, s, i))
  {
    var c' := Reserve(c, t, s, i);
    forall j: nat ensures OneEntry(c', j) { assert OneEntry(c, j); }
  }

  lemma ReserveLoaders(c: Sys, t: nat, s: nat, i: nat)
    requires PcsOk(c) && Loaders(c) && t in c.pcs && c.pcs[t] == Chosen(s, i) && i < |c.entries|
    ensures Loaders(Reserve(c, t, s, i))
  {
    var c' := Reserve(c, t, s, i);
    assert PcOk(c, c.pcs[t]);
    forall u | u in c.pcs ensures !Loads(c.pcs[u], i) { assert PcOk(c, c.pcs[u]); }
    forall j: nat ensures OneLoader(c', j) { assert OneLoader(c, j); }
    forall j: nat | j < |c.entries| ensures HasLoader(c', j) {
      assert HasLoader(c, j);
      if j == i {
        assert Loads(c'.pcs[t], j);
      } else if c.entries[j].state == LOADING {
        var u :| u in c.pcs && Loads(c.pcs[u], j);
        assert Loads(c'.pcs[u], j);
      }
    }
  }

  lemma ReserveSectors(c: Sys, t: nat, s: nat, i: nat)
    requires NoDuplicateSectors(c) && Missing(c, s) && i < |c.entries|
    ensures NoDuplicateSectors(Reserve(c, t, s, i))
  {
    var c' := Reserve(c, t, s, i);
    forall j | 0 <= j < |c.entries| && j != i ensures !TakenBy(c'.entries[j], s) { assert !TakenBy(c.entries[j], s); }
  }

  lemma ReserveVictims(c: Sys, t: nat, s: nat, i: nat)
    requires VictimFree(c) && t in c.pcs && i < |c.entries|
    ensures VictimFree(Reserve(c, t, s, i))
  {
  }

  lemma FinishMissing(c: Sys, i: nat, e: Entry, x: nat)
    requires i < |c.entries| && TakenBy(e, x) == TakenBy(c.entries[i], x)
    ensures Missing(SetState(c, i, e), x) == Missing(c, x)
  {
    var c' := SetState(c, i, e);
    assert forall j :: 0 <= j < |c.entries| ==> TakenBy(c'.entries[j], x) == TakenBy(c.entries[j], x);
  }

  lemma FinishPc(c: Sys, i: nat, pc: Pc)
    requires i < |c.entries| && c.entries[i].state == LOADING && PcOk(c, pc) && !Loads(pc, i) && !(pc.Sleeping? && pc.i == i)
    ensures PcOk(SetState(c, i, c.entries[i].(state := VALID)), pc)
  {
    if pc.Missed? || pc.WantVictim? || pc.Cleaning? || pc.Chosen? {
      FinishMissing(c, i, c.entries[i].(state := VALID), pc.s);
    }
  }

  lemma FinishPcs(c: Sys, t: nat, i: nat)
    requires PcsOk(c) && OneLoader(c, i) && t in c.pcs && Loads(c.pcs[t], i) && i < |c.entries|
    ensures PcsOk(Finished(c, t, i))
  {
    var c1 := Goto(Broadcast(c, i), t, Idle);
    assert PcOk(c, c.pcs[t]);
    forall u | u in c.pcs && u != t ensures PcOk(Finished(c, t, i), c1.pcs[u]) {
      assert PcOk(c, c.pcs[u]) && !Loads(c.pcs[u], i);
      FinishPc(c, i, c1.pcs[u]);
    }
  }

  lemma FinishLocks(c: Sys, t: nat, i: nat)
    requires Locks(c) && t in c.pcs && i < |c.entries|
    ensures Locks(Finished(c, t, i))
  {
    var c' := Finished(c, t, i);
    forall j: nat ensures OneEntry(c', j) { assert OneEntry(c, j); }
  }

  /** Completing a load keeps the slot's sector, and wakes every thread asleep on it. */
  lemma FinishKeeps(c: Sys, t: nat, s: nat, i: nat)
    requires Inv(c) && t in c.pcs && c.pcs[t] == Finishing(s, i) && i < |c.entries|
    ensures Inv(Finished(c, t, i))
  {
    assert PcOk(c, c.pcs[t]) && OneLoader(c, i);
    FinishPcs(c, t, i);
    FinishLocks(c, t, i);
    FinishLoaders(c, t, i, Finished(c, t, i));
    FinishVictims(c, t, i);
    FinishSectors(c, t, i);
  }

  lemma FinishVictims(c: Sys, t: nat, i: nat)
    requires VictimFree(c) && t in c.pcs && i < |c.entries|
    ensures VictimFree(Finished(c, t, i))
  {
  }

  lemma FinishSectors(c: Sys, t: nat, i: nat)
    requires NoDuplicateSectors(c) && t in c.pcs && i < |c.entries| && c.entries[i].state == LOADING
    ensures NoDuplicateSectors(Finished(c, t, i))
  {
  }

  lemma FinishLoaders(c: Sys, t: nat, i: nat, c': Sys)
    requires Loaders(c) && t in c.pcs && Loads(c.pcs[t], i) && c'.pcs.Keys == c.pcs.Keys && i < |c.entries| == |c'.entries|
    requires forall u, j: nat :: u in c.pcs && u != t ==> Loads(c'.pcs[u], j) == Loads(c.pcs[u], j)
    requires forall j: nat :: !Loads(c'.pcs[t], j)
    requires c'.entries[i].state != LOADING && forall j :: 0 <= j < |c.entries| && j != i ==> c'.entries[j] == c.entries[j]
    ensures Loaders(c')
  {
    forall j: nat ensures OneLoader(c', j) { assert OneLoader(c, j); }
    forall j: nat | j < |c.entries| ensures HasLoader(c', j) {
      assert HasLoader(c, j);
      if j != i && c.entries[j].state == LOADING {
        var u :| u in c.pcs && Loads(c.pcs[u], j);
        assert u != t && Loads(c'.pcs[u], j);
      }
    }
  }

  predicate Early(pc: Pc) { pc.Idle? || WantsGlobal(pc) || pc.Found? || pc.NotValid? }

  predicate Searches(pc: Pc) { pc.Looking? || pc.Missed? }

  predicate Late(pc: Pc) { pc.Reserved? || pc.Loading? || pc.WantFinish? || pc.Flushing? || pc.WantFlush? || pc.FlushingEntry? }

  /** Every other step is a halt or a legal move of one thread. */
  ghost predicate Moved(c: Sys, t: nat, c': Sys)
    requires t in c.pcs
  {
    c' == Halt(c) || (t in c'.pcs && c' == Goto(c, t, c'.pcs[t]) && Legal(c, t, c'.pcs[t]))
  }

  lemma EarlyMoves(c: Sys, t: nat, c': Sys)
    requires t in c.pcs && Early(c.pcs[t]) && PcOk(c, c.pcs[t]) && Step(c, t, c')
    ensures Moved(c, t, c')
  {
  }

  lemma LookingMoves(c: Sys, t: nat, c': Sys)
    requires t in c.pcs && c.pcs[t].Looking? && Step(c, t, c')
    ensures Moved(c, t, c')
  {
  }

  lemma MissedMoves(c: Sys, t: nat, c': Sys)
    requires t in c.pcs && c.pcs[t].Missed? && PcsOk(c) && Step(c, t, c')
    ensures Moved(c, t, c')
  {
    assert PcOk(c, c.pcs[t]);
  }

  lemma LateMoves(c: Sys, t: nat, c': Sys)
    requires t in c.pcs && Late(c.pcs[t]) && PcOk(c, c.pcs[t]) && Step(c, t, c')
    ensures Moved(c, t, c')
  {
  }

  /** The evictor has held the entry lock, so the slot's users are done. */
  lemma CleaningMoves(c: Sys, t: nat, c': Sys)
    requires t in c.pcs && c.pcs[t].Cleaning? && PcOk(c, c.pcs[t]) && OneEntry(c, c.pcs[t].i) && Step(c, t, c')
    ensures Moved(c, t, c')
  {
    var pc := c.pcs[t];
    assert HoldsEntry(pc, pc.i);
    forall u | u in c.pcs ensures !HitsIn(c.pcs[u], pc.i) {
      assert HitsIn(c.pcs[u], pc.i) ==> HoldsEntry(c.pcs[u], pc.i);
    }
  }

  lemma MiddleMoves(c: Sys, t: nat, c': Sys)
    requires t in c.pcs && !Early(c.pcs[t]) && !Searches(c.pcs[t]) && !Late(c.pcs[t])
    requires !c.pcs[t].Chosen? && !c.pcs[t].Finishing? && !c.pcs[t].Cleaning?
    requires PcOk(c, c.pcs[t]) && Step(c, t, c')
    ensures Moved(c, t, c')
  {
  }

  lemma MovedKeeps(c: Sys, t: nat, c': Sys)
    requires Inv(c) && t in c.pcs && Moved(c, t, c')
    ensures Inv(c')
  {
    if c' == Halt(c) { HaltKeeps(c); } else { GotoKeeps(c, t, c'.pcs[t]); }
  }

  lemma SlotStepKeeps(c: Sys, t: nat, c': Sys)
    requires Inv(c) && t in c.pcs && Step(c, t, c')
    ensures Inv(c')
  {
    var pc := c.pcs[t];
    assert PcOk(c, pc);
    if pc.Chosen? {
      ReserveKeeps(c, t, pc.s, pc.i);
    } else if pc.Finishing? {
      FinishKeeps(c, t, pc.s, pc.i);
    } else {
      if Early(pc) {
        EarlyMoves(c, t, c');
      } else if pc.Looking? {
        LookingMoves(c, t, c');
      } else if pc.Missed? {
        MissedMoves(c, t, c');
      } else if Late(pc) {
        LateMoves(c, t, c');
      } else if pc.Cleaning? {
        CleaningMoves(c, t, c');
      } else {
        MiddleMoves(c, t, c');
      }
      MovedKeeps(c, t, c');
    }
  }

  lemma HaltKeeps(c: Sys)
    requires Inv(c)
    ensures Inv(Halt(c))
  {
    var c' := Halt(c);
    forall u | u in c'.pcs ensures PcOk(c', c'.pcs[u]) { assert PcOk(c, c.pcs[u]); }
    forall j: nat ensures OneEntry(c', j) { assert OneEntry(c, j); }
    forall j: nat ensures OneLoader(c', j) { assert OneLoader(c, j); }
    forall j: nat | j < |c.entries| ensures HasLoader(c', j) { assert HasLoader(c, j); }
  }

  // ---------------------------------------------------------------- whole runs

  ghost predicate Run(cs: seq<Sys>) {
    |cs| > 0 && Init(cs[0]) && forall k :: 0 <= k < |cs| - 1 ==> Next(cs[k], cs[k + 1])
  }

  lemma {:induction false} SlotRunKeeps(cs: seq<Sys>, k: nat)
    requires Run(cs) && k < |cs|
    ensures Inv(cs[k])
    decreases k
  {
    if k > 0 {
      SlotRunKeeps(cs, k - 1);
      assert Next(cs[k - 1], cs[k - 1 + 1]);
      var t :| t in cs[k - 1].pcs && Step(cs[k - 1], t, cs[k]);
      SlotStepKeeps(cs[k - 1], t, cs[k]);
    }
  }

  /** In every state of every run: no sector is in two slots; a slot is LOADING exactly while one thread, and
      only one, is loading it; the slot an evictor takes is not LOADING, and it takes a valid one only when none is free;
      a sleeper's slot is still LOADING, so the broadcast that ends the load is still to come; and a thread that found
      its sector VALID keeps it until done. */
  lemma SlotsSafe(cs: seq<Sys>, k: nat)
    requires Run(cs) && k < |cs|
    ensures var c := cs[k];
      && NoDuplicateSectors(c)
      && (forall i: nat :: i < |c.entries| ==> (c.entries[i].state == LOADING <==> exists t :: t in c.pcs && Loads(c.pcs[t], i)))
      && (forall i: nat, t, u :: t in c.pcs && u in c.pcs && Loads(c.pcs[t], i) && Loads(c.pcs[u], i) ==> t == u)
      && (forall t :: t in c.pcs && (c.pcs[t].WantVictim? || c.pcs[t].Chosen?) ==>
            c.pcs[t].i < |c.entries| && c.entries[c.pcs[t].i].state != LOADING)
      && (forall t :: t in c.pcs && c.pcs[t].WantVictim? ==> NoneIs(c, INVALID))
      && (forall t :: t in c.pcs && c.pcs[t].Sleeping? ==> c.pcs[t].i < |c.entries| && c.entries[c.pcs[t].i].state == LOADING)
      && (forall t :: t in c.pcs && c.pcs[t].Using? && !c.pcs[t].waited ==>
            c.pcs[t].i < |c.entries| && c.entries[c.pcs[t].i] == Entry(VALID, c.pcs[t].s))
  {
    SlotRunKeeps(cs, k);
    LoadingIsLoaded(cs[k]);
    PcsSafe(cs[k]);
  }

  lemma LoadingIsLoaded(c: Sys)
    requires PcsOk(c) && Loaders(c)
    ensures forall i: nat :: i < |c.entries| ==> (c.entries[i].state == LOADING <==> exists t :: t in c.pcs && Loads(c.pcs[t], i))
    ensures forall i: nat, t, u :: t in c.pcs && u in c.pcs && Loads(c.pcs[t], i) && Loads(c.pcs[u], i) ==> t == u
  {
    forall i: nat | i < |c.entries|
      ensures c.entries[i].state == LOADING <==> exists t :: t in c.pcs && Loads(c.pcs[t], i)
    {
      assert HasLoader(c, i);
      if t :| t in c.pcs && Loads(c.pcs[t], i) { assert PcOk(c, c.pcs[t]); }
    }
    forall i: nat, t, u | t in c.pcs && u in c.pcs && Loads(c.pcs[t], i) && Loads(c.pcs[u], i) ensures t == u {
      assert OneLoader(c, i);
    }
  }

  lemma PcsSafe(c: Sys)
    requires PcsOk(c)
    ensures forall t :: t in c.pcs && (c.pcs[t].WantVictim? || c.pcs[t].Chosen?) ==>
      c.pcs[t].i < |c.entries| && c.entries[c.pcs[t].i].state != LOADING
    ensures forall t :: t in c.pcs && c.pcs[t].WantVictim? ==> NoneIs(c, INVALID)
    ensures forall t :: t in c.pcs && c.pcs[t].Sleeping? ==> c.pcs[t].i < |c.entries| && c.entries[c.pcs[t].i].state == LOADING
    ensures forall t :: t in c.pcs && c.pcs[t].Using? && !c.pcs[t].waited ==>
      c.pcs[t].i < |c.entries| && c.entries[c.pcs[t].i] == Entry(VALID, c.pcs[t].s)
  {
    forall t | t in c.pcs ensures PcOk(c, c.pcs[t]) {}
  }

  predicate Prefetches(pc: Pc) { (pc.Looking? || pc.Found?) && pc.op == Prefetch }

  /** A prefetch waits for nobody: it ends when its sector is in the cache, loading or not, and loads it if it is not. */
  lemma PrefetchWaitsForNobody(c: Sys, t: nat, c': Sys)
    requires PcsOk(c) && t in c.pcs && Prefetches(c.pcs[t]) && Step(c, t, c')
    ensures t in c'.pcs && (c'.pcs[t] == Idle || Prefetches(c'.pcs[t]) || c'.pcs[t].Missed?)
    ensures c'.pcs[t].Missed? <==> Missing(c, c.pcs[t].s)
  {
    assert PcOk(c, c.pcs[t]);
  }

  /** A flush goes through the slots one by one to the last, and can stop at each one that is valid and at no other. */
  lemma FlushVisits(c: Sys, t: nat)
    requires t in c.pcs && c.pcs[t].Flushing?
    ensures var k := c.pcs[t].k;
      && (Step(c, t, Goto(c, t, WantFlush(k))) <==> k < |c.entries| && c.entries[k].state == VALID)
      && (Step(c, t, Goto(c, t, Flushing(k + 1))) <==> k < |c.entries|)
      && (Step(c, t, Goto(c, t, Idle)) <==> k >= |c.entries|)
  {
    var k := c.pcs[t].k;
    assert Goto(c, t, WantFlush(k)).pcs[t] == WantFlush(k) && Goto(c, t, Flushing(k + 1)).pcs[t] == Flushing(k + 1) && Goto(c, t, Idle).pcs[t] == Idle;
  }

  // ---------------------------------------------------------------- no deadlock

  /** The next step of thread `t` fails an assertion or panics: the state it tested has changed before it tested
      it again, or every slot is being loaded. */
  predicate HaltsNext(c: Sys, t: nat) {
    t in c.pcs &&
    match c.pcs[t]
    case NotValid(s, i) => i < |c.entries| && c.entries[i].state != LOADING
    case Waiting(s, i, first) => first && i < |c.entries| && c.entries[i].state != LOADING
    case Missed(s) => NoneIs(c, INVALID) && NoneIs(c, VALID)
    case _ => false
  }

  /** These are exactly the states from which the next step can halt the system. */
  lemma HaltExact(c: Sys)
    requires !c.halted
    ensures (exists c' :: Next(c, c') && c'.halted) <==> exists t :: HaltsNext(c, t)
  {
    if c' :| Next(c, c') && c'.halted {
      var t :| t in c.pcs && Step(c, t, c');
      assert HaltsNext(c, t);
    }
    if t :| HaltsNext(c, t) {
      assert Step(c, t, Halt(c));
      assert Next(c, Halt(c));
    }
  }

  /** Thread `t` has a step that does not halt the system. */
  ghost predicate CanStep(c: Sys, t: nat) { t in c.pcs && exists c' :: Step(c, t, c') && !c'.halted }

  ghost predicate BusyCanStep(c: Sys, t: nat) { CanStep(c, t) && c.pcs[t] != Idle }

  /** A thread that holds an entry lock waits for nothing. */
  lemma EntryHolderSteps(c: Sys, t: nat, i: nat)
    requires Inv(c) && !c.halted && t in c.pcs && HoldsEntry(c.pcs[t], i) && !HaltsNext(c, t)
    ensures !WantsGlobal(c.pcs[t]) && CanStep(c, t)
  {
    assert PcOk(c, c.pcs[t]);
    match c.pcs[t]
    case HasBoth(s, j, loading) => assert Step(c, t, Goto(c, t, if loading then Waiting(s, j, true) else Using(s, j, false)));
    case Waiting(s, j, first) =>
      assert Step(c, t, if c.entries[j].state == LOADING then Goto(c, t, Sleeping(s, j)) else Goto(c, t, Using(s, j, true)));
    case Using(s, j, _) => assert Step(c, t, Goto(c, t, Idle));
    case Cleaning(s, j) => assert Step(c, t, Goto(c, t, Chosen(s, j)));
    case Finishing(s, j) => assert Step(c, t, Finished(c, t, j));
    case FlushingEntry(k) => assert Step(c, t, Goto(c, t, Flushing(k + 1)));
  }

  lemma EntryWaiterSteps(c: Sys, t: nat, i: nat)
    requires !c.halted && t in c.pcs && WantsEntry(c.pcs[t], i) && EntryFree(c, i)
    ensures CanStep(c, t)
  {
    match c.pcs[t]
    case WantEntry(s, j, loading) => assert Step(c, t, Goto(c, t, HasBoth(s, j, loading)));
    case Woken(s, j) => assert Step(c, t, Goto(c, t, Waiting(s, j, false)));
    case WantVictim(s, j) => assert Step(c, t, Goto(c, t, Cleaning(s, j)));
    case WantFinish(s, j) => assert Step(c, t, Goto(c, t, Finishing(s, j)));
    case WantFlush(k) => assert Step(c, t, Goto(c, t, FlushingEntry(k)));
  }

  /** The holder of the global lock waits for an entry lock at most. */
  lemma GlobalHolderSteps(c: Sys, t: nat)
    requires Inv(c) && !c.halted && t in c.pcs && HoldsGlobal(c.pcs[t]) && !HaltsNext(c, t)
    requires forall i: nat :: !HoldsEntry(c.pcs[t], i) && !WantsEntry(c.pcs[t], i)
    ensures CanStep(c, t)
  {
    var pc := c.pcs[t];
    assert PcOk(c, pc);
    if pc.HasBoth? || pc.Cleaning? {
      assert HoldsEntry(pc, pc.i);
    } else if pc.WantEntry? || pc.WantVictim? {
      assert WantsEntry(pc, pc.i);
    } else if pc.WantFlush? {
      assert WantsEntry(pc, pc.k);
    } else if pc.FlushingEntry? {
      assert HoldsEntry(pc, pc.k);
    } else if Searches(pc) {
      SearchSteps(c, t);
    } else if pc.Chosen? {
      assert Step(c, t, Reserve(c, t, pc.s, pc.i));
    } else {
      PlainSteps(c, t);
    }
  }

  lemma SearchSteps(c: Sys, t: nat)
    requires !c.halted && t in c.pcs && Searches(c.pcs[t]) && !HaltsNext(c, t)
    ensures CanStep(c, t)
  {
    match c.pcs[t]
    case Looking(op, s) =>
      if Missing(c, s) {
        assert Step(c, t, Goto(c, t, Missed(s)));
      } else {
        var i: nat :| i < |c.entries| && TakenBy(c.entries[i], s);
        assert Step(c, t, Goto(c, t, Found(op, s, i)));
      }
    case Missed(s) =>
      if !NoneIs(c, INVALID) {
        var i: nat :| i < |c.entries| && c.entries[i].state == INVALID;
        assert Step(c, t, Goto(c, t, Chosen(s, i)));
      } else {
        var i: nat :| i < |c.entries| && c.entries[i].state == VALID;
        assert Step(c, t, Goto(c, t, WantVictim(s, i)));
      }
  }

  lemma PlainSteps(c: Sys, t: nat)
    requires !c.halted && t in c.pcs && PcOk(c, c.pcs[t]) && !HaltsNext(c, t)
    requires var pc := c.pcs[t]; pc.Found? || pc.NotValid? || pc.Reserved? || pc.Loading? || pc.Flushing?
    ensures CanStep(c, t)
  {
    match c.pcs[t]
    case Found(op, s, i) =>
      assert Step(c, t, if op == Prefetch then Goto(c, t, Idle)
                        else if c.entries[i].state == VALID then Goto(c, t, WantEntry(s, i, false)) else Goto(c, t, NotValid(s, i)));
    case NotValid(s, i) =>
      assert Step(c, t, Goto(c, t, WantEntry(s, i, true)));
    case Reserved(s, i) => assert Step(c, t, Goto(c, t, Loading(s, i)));
    case Loading(s, i) => assert Step(c, t, Goto(c, t, WantFinish(s, i)));
    case Flushing(k) => assert Step(c, t, if k >= |c.entries| then Goto(c, t, Idle) else Goto(c, t, Flushing(k + 1)));
  }

  lemma GlobalWaiterSteps(c: Sys, t: nat)
    requires !c.halted && t in c.pcs && WantsGlobal(c.pcs[t]) && GlobalFree(c)
    ensures CanStep(c, t)
  {
    match c.pcs[t]
    case WantGlobal(op, s) => assert Step(c, t, Goto(c, t, Looking(op, s)));
    case WantGlobalToFlush => assert Step(c, t, Goto(c, t, Flushing(0)));
  }

  /** While any thread is in the middle of an operation, some such thread can move on, unless one of them is
      about to fail: locks never form a cycle, and a sleeper's load has a loader that does not depend on it. */
  lemma CacheNeverDeadlocks(c: Sys, t: nat)
    requires Inv(c) && !c.halted && t in c.pcs && c.pcs[t] != Idle
    ensures (exists u :: BusyCanStep(c, u)) || exists u :: HaltsNext(c, u)
  {
    if u :| HaltsNext(c, u) {
    } else if u, i: nat :| u in c.pcs && HoldsEntry(c.pcs[u], i) {
      EntryHolderSteps(c, u, i);
      assert BusyCanStep(c, u);
    } else if u, i: nat :| u in c.pcs && WantsEntry(c.pcs[u], i) {
      EntryWaiterSteps(c, u, i);
      assert BusyCanStep(c, u);
    } else if u :| u in c.pcs && HoldsGlobal(c.pcs[u]) {
      GlobalHolderSteps(c, u);
      assert BusyCanStep(c, u);
    } else if u :| u in c.pcs && WantsGlobal(c.pcs[u]) {
      GlobalWaiterSteps(c, u);
      assert BusyCanStep(c, u);
    } else {
      OnlyLoaders(c, t);
    }
  }

  /** With no lock held or wanted, every busy thread is loading or asleep. */
  lemma OnlyLoaders(c: Sys, t: nat)
    requires Inv(c) && !c.halted && t in c.pcs && c.pcs[t] != Idle && forall u :: !HaltsNext(c, u)
    requires forall u, i: nat :: u in c.pcs ==> !HoldsEntry(c.pcs[u], i) && !WantsEntry(c.pcs[u], i)
    requires forall u :: u in c.pcs ==> !HoldsGlobal(c.pcs[u]) && !WantsGlobal(c.pcs[u])
    ensures exists u :: BusyCanStep(c, u)
  {
    forall u | u in c.pcs ensures c.pcs[u].Idle? || c.pcs[u].Loading? || c.pcs[u].Sleeping? {
      var pc := c.pcs[u];
      if pc.Waiting? || pc.Using? || pc.Finishing? { assert HoldsEntry(pc, pc.i); }
      if pc.Woken? || pc.WantFinish? { assert WantsEntry(pc, pc.i); }
    }
    var pc := c.pcs[t];
    assert PcOk(c, pc);
    var u := t;
    if pc.Sleeping? {
      assert HasLoader(c, pc.i);
      u :| u in c.pcs && Loads(c.pcs[u], pc.i);
    }
    assert PcOk(c, c.pcs[u]);
    PlainSteps(c, u);
    assert BusyCanStep(c, u);
  }
}
