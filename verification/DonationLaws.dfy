/** What each operation of the priority scheduler does to locks, waiters, base priorities and the threads that can
    run, in every run: who holds a lock, who waits, who runs next. */
module DonationLaws {
  import opened Donation

  /** The running and the ready threads, without the idle thread. */
  ghost function Runnable(k: Sched): set<Tid> { (set t | t in k.ready) + {k.cur} - {IDLE} }

  ghost predicate SameWaiters(k: Sched, k': Sched) { forall l :: WaitersOf(k'.g, l) == WaitersOf(k.g, l) }

  ghost predicate SameWaitersBut(k: Sched, k': Sched, l: Lock) { forall x :: x != l ==> WaitersOf(k'.g, x) == WaitersOf(k.g, x) }

  ghost predicate SameBases(k: Sched, k': Sched) { forall t :: At(k'.base, t) == At(k.base, t) }

  /** Locks and waiters are as they were. */
  ghost predicate SameLocks(k: Sched, k': Sched) {
    k'.g.holder == k.g.holder && k'.g.waiting == k.g.waiting && SameWaiters(k, k')
  }

  // ---------------------------------------------------------------- the ready list

  /** Position `p` is behind everybody of its own or a higher priority, and before everybody of a lower one. */
  predicate PlaceFor(eff: map<Tid, int>, ready: seq<Tid>, t: Tid, p: nat) {
    && p <= |ready|
    && (forall i :: 0 <= i < p ==> At(eff, ready[i]) >= At(eff, t))
    && (forall i :: p <= i < |ready| ==> At(eff, ready[i]) < At(eff, t))
  }

  lemma PlaceShift(eff: map<Tid, int>, ready: seq<Tid>, t: Tid, p: nat)
    requires ready != [] && At(eff, ready[0]) >= At(eff, t) && PlaceFor(eff, ready[1..], t, p)
    ensures PlaceFor(eff, ready, t, p + 1)
  {
    forall i | 0 < i < |ready| ensures ready[i] == ready[1..][i - 1] {}
  }

  lemma SpliceShift(ready: seq<Tid>, t: Tid, p: nat)
    requires ready != [] && p <= |ready[1..]|
    ensures [ready[0]] + (ready[1..][..p] + [t] + ready[1..][p..]) == ready[..p + 1] + [t] + ready[p + 1..]
  {
  }

  /** The ordered insertion puts a thread in that place and leaves the others as they were. */
  lemma {:induction false} InsertPosition(eff: map<Tid, int>, ready: seq<Tid>, t: Tid) returns (p: nat)
    requires SortedBy(eff, ready)
    ensures PlaceFor(eff, ready, t, p) && Insert(eff, ready, t) == ready[..p] + [t] + ready[p..]
  {
    p := 0;
    if ready != [] && At(eff, t) <= At(eff, ready[0]) {
      p := InsertPosition(eff, ready[1..], t);
      PlaceShift(eff, ready, t, p);
      SpliceShift(ready, t, p);
      p := p + 1;
    }
  }

  /** Of several waiters of highest priority, the one that has waited longest. */
  lemma {:induction false} TopFirst(eff: map<Tid, int>, ws: seq<Tid>) returns (p: nat)
    requires ws != []
    ensures p < |ws| && ws[p] == Top(eff, ws)
    ensures forall i :: 0 <= i < p ==> At(eff, ws[i]) < At(eff, ws[p])
    ensures forall i :: p <= i < |ws| ==> At(eff, ws[i]) <= At(eff, ws[p])
  {
    p := 0;
    if |ws| > 1 {
      var n := |ws| - 1;
      p := TopFirst(eff, ws[..n]);
      forall i | 0 <= i < p ensures At(eff, ws[i]) < At(eff, ws[p]) { assert ws[i] == ws[..n][i]; }
      forall i | p <= i < n ensures At(eff, ws[i]) <= At(eff, ws[p]) { assert ws[i] == ws[..n][i]; }
      if At(eff, ws[p]) < At(eff, ws[n]) { p := n; }
    }
  }

  // ---------------------------------------------------------------- yielding

  /** Nothing but the processor changes hands: it goes to a thread of highest priority, and to another one if any has
      at least the priority of the thread that yields. */
  ghost predicate YieldLaw(k: Sched, k': Sched) {
    && SameLocks(k, k') && SameBases(k, k') && k'.eff == k.eff && Runnable(k') == Runnable(k)
    && (forall t :: t in Runnable(k) ==> At(k.eff, t) <= At(k.eff, k'.cur))
    && (k'.cur == k.cur && k.cur != IDLE ==> forall t :: t in k.ready ==> At(k.eff, t) < At(k.eff, k.cur))
  }

  lemma HeadIsTop(eff: map<Tid, int>, q: seq<Tid>, t: Tid)
    requires SortedBy(eff, q) && t in q
    ensures At(eff, t) <= At(eff, q[0])
  {
  }

  lemma YieldRuns(k: Sched)
    requires Inv(k) && k.cur != IDLE
    ensures Runnable(YieldCpu(k)) == Runnable(k)
    ensures forall t :: t in Runnable(k) ==> At(k.eff, t) <= At(k.eff, YieldCpu(k).cur)
  {
    var q := Insert(k.eff, k.ready, k.cur);
    InsertOrdered(k.eff, k.ready, k.cur);
    assert q == [q[0]] + q[1..];
    forall t ensures t in Runnable(YieldCpu(k)) <==> t in Runnable(k) { assert t in q <==> t == q[0] || t in q[1..]; }
    forall t | t in Runnable(k) ensures At(k.eff, t) <= At(k.eff, q[0]) { HeadIsTop(k.eff, q, t); }
  }

  lemma YieldPassesOn(k: Sched)
    requires Inv(k) && k.cur != IDLE && YieldCpu(k).cur == k.cur
    ensures forall t :: t in k.ready ==> At(k.eff, t) < At(k.eff, k.cur)
  {
    var p := InsertPosition(k.eff, k.ready, k.cur);
    assert p == 0;
  }

  lemma YieldObeys(k: Sched)
    requires Inv(k)
    ensures YieldLaw(k, YieldCpu(k))
  {
    if k.cur == IDLE {
      assert k.ready != [] ==> k.ready == [k.ready[0]] + k.ready[1..];
      forall t | t in k.ready ensures At(k.eff, t) <= At(k.eff, YieldCpu(k).cur) { HeadIsTop(k.eff, k.ready, t); }
    } else {
      YieldRuns(k);
      if YieldCpu(k).cur == k.cur { YieldPassesOn(k); }
    }
  }

  // ---------------------------------------------------------------- acquiring

  /** A free lock is taken, and nothing else changes. A held one is waited for: the thread is last among the waiters and
      no longer running or ready, and the lock stays where it is. */
  ghost predicate AcquireLaw(k: Sched, l: Lock, k': Sched) {
    && SameBases(k, k')
    && if l !in k.g.holder then
         && k'.g.holder == k.g.holder[l := k.cur] && k'.g.waiting == k.g.waiting && SameWaiters(k, k')
         && k'.eff == k.eff && k'.cur == k.cur && k'.ready == k.ready
       else
         && k'.g.holder == k.g.holder && k'.g.waiting == k.g.waiting[k.cur := l]
         && WaitersOf(k'.g, l) == WaitersOf(k.g, l) + [k.cur] && SameWaitersBut(k, k', l)
         && Runnable(k') == Runnable(k) - {k.cur}
  }

  lemma RaiseKeeps(k: Sched, t: Tid, p: int)
    requires Distinct(k.ready)
    ensures var k' := Raise(k, t, p); k'.g == k.g && k'.base == k.base && k'.cur == k.cur && forall x :: x in k'.ready <==> x in k.ready
  {
  }

  lemma {:induction false} PropagateKeeps(k: Sched, t: Tid, n: nat)
    requires ChainEnds(k.g, t, n) && QueueOk(k)
    ensures var k' := Propagate(k, t, n); k'.g == k.g && k'.base == k.base && k'.cur == k.cur && forall x :: x in k'.ready <==> x in k.ready
    decreases n
  {
    if t in k.g.waiting && k.g.waiting[t] in k.g.holder {
      var u := k.g.holder[k.g.waiting[t]];
      RaiseKeeps(k, u, At(k.eff, t));
      RaiseQueue(k, u, At(k.eff, t));
      PropagateKeeps(if At(k.eff, t) > At(k.eff, u) then Raise(k, u, At(k.eff, t)) else k, u, n - 1);
    }
  }

  /** The state in which the blocked thread gives up the processor. */
  lemma BlockedKeeps(k: Sched, l: Lock, n: nat) returns (b: Sched)
    requires Inv(k) && k.cur != IDLE && NoDeadlock(k, l, n) && l in k.g.holder
    ensures Acquire(k, l, n) == Dispatch(b)
    ensures b.g == Enlist(k, l).g && b.base == k.base && b.cur == k.cur && forall x :: x in b.ready <==> x in k.ready
  {
    var e, h, p := Enlist(k, l), k.g.holder[l], At(k.eff, k.cur);
    EnlistQueue(k, l);
    b := e;
    if p > At(k.eff, h) {
      RaiseKeeps(e, h, p);
      RaiseQueue(e, h, p);
      PropagateKeeps(Raise(e, h, p), h, n);
      b := Propagate(Raise(e, h, p), h, n);
    }
  }

  lemma EnlistQueue(k: Sched, l: Lock)
    requires Inv(k)
    ensures QueueOk(Enlist(k, l))
  {
  }

  lemma DispatchRuns(b: Sched, k: Sched)
    requires Inv(k) && k.cur != IDLE && b.cur == k.cur && forall x :: x in b.ready <==> x in k.ready
    ensures Runnable(Dispatch(b)) == Runnable(k) - {k.cur}
  {
    if b.ready != [] { assert b.ready == [b.ready[0]] + b.ready[1..]; }
    if k.ready != [] { assert k.ready[0] in b.ready; }
  }

  lemma AcquireObeys(k: Sched, l: Lock, n: nat)
    requires Inv(k) && k.cur != IDLE && NoDeadlock(k, l, n)
    ensures AcquireLaw(k, l, Acquire(k, l, n))
  {
    if l in k.g.holder {
      var b := BlockedKeeps(k, l, n);
      DispatchRuns(b, k);
    }
  }

  // ---------------------------------------------------------------- releasing

  /** A lock nobody waits for becomes free. Otherwise it goes to the waiter of highest effective priority that has waited
      longest, which can run from then on; the processor changes hands only to a thread of higher priority. */
  ghost predicate ReleaseLaw(k: Sched, l: Lock, k': Sched) {
    && SameBases(k, k')
    && var ws := WaitersOf(k.g, l);
       if ws == [] then
         && k'.g.holder == k.g.holder - {l} && k'.g.waiting == k.g.waiting && SameWaiters(k, k')
         && k'.cur == k.cur && k'.ready == k.ready
       else exists p :: 0 <= p < |ws| && HandedTo(k, l, p, k')
  }

  ghost predicate HandedTo(k: Sched, l: Lock, p: nat, k': Sched)
    requires p < |WaitersOf(k.g, l)|
  {
    var ws := WaitersOf(k.g, l);
    var w := ws[p];
    && (forall i :: 0 <= i < p ==> At(k.eff, ws[i]) < At(k.eff, w))
    && (forall i :: p <= i < |ws| ==> At(k.eff, ws[i]) <= At(k.eff, w))
    && k'.g.holder == k.g.holder[l := w] && k'.g.waiting == k.g.waiting - {w}
    && WaitersOf(k'.g, l) == ws[..p] + ws[p + 1..] && SameWaitersBut(k, k', l)
    && Runnable(k') == Runnable(k) + {w}
    && (if At(k'.eff, w) > At(k'.eff, k.cur) then k'.cur != k.cur && (forall t :: t in Runnable(k') ==> At(k'.eff, t) <= At(k'.eff, k'.cur))
        else k'.cur == k.cur)
  }

  lemma {:induction false} WithoutAt(s: seq<Tid>, p: nat)
    requires Distinct(s) && p < |s|
    ensures Without(s, s[p]) == s[..p] + s[p + 1..]
  {
    if p > 0 {
      WithoutAt(s[1..], p - 1);
      assert s[1..][p - 1] == s[p] && s[0] != s[p];
      assert s[..p] == [s[0]] + s[1..][..p - 1] && s[p + 1..] == s[1..][p..];
    }
  }

  /** Before the question of yielding. */
  lemma HandedKeeps(k: Sched, l: Lock, p: nat)
    requires Inv(k) && Releasing(k, l) && p < |WaitersOf(k.g, l)| && WaitersOf(k.g, l)[p] == Top(k.eff, WaitersOf(k.g, l))
    ensures var ws := WaitersOf(k.g, l);
      var w, h := ws[p], Handed(k, l);
      && SameBases(k, h) && h.cur == k.cur && h.eff == DropLock(k, l).eff
      && h.g.holder == k.g.holder[l := w] && h.g.waiting == k.g.waiting - {w}
      && WaitersOf(h.g, l) == ws[..p] + ws[p + 1..] && SameWaitersBut(k, h, l)
      && Runnable(h) == Runnable(k) + {w}
  {
    var ws := WaitersOf(k.g, l);
    assert WaitersOk(k.g, l) && ws[p] in ws;
    WithoutAt(ws, p);
    assert ws[p] != IDLE;
    forall t ensures t in Runnable(Handed(k, l)) <==> t in Runnable(k) + {ws[p]} {}
  }

  lemma ReleaseObeys(k: Sched, l: Lock)
    requires Inv(k) && Releasing(k, l)
    ensures ReleaseLaw(k, l, Release(k, l))
  {
    var ws, h := WaitersOf(k.g, l), Handed(k, l);
    if ws != [] {
      var p := TopFirst(k.eff, ws);
      HandedKeeps(k, l, p);
      HandedInv(k, l);
      YieldObeys(h);
      assert HandedTo(k, l, p, Release(k, l));
    }
  }

  // ---------------------------------------------------------------- priorities, sleeping and waking

  /** The base priority of the running thread becomes `p`, and no other changes. It gives up the processor exactly when
      a ready thread has a higher effective priority than it is left with. */
  ghost predicate SetPriorityLaw(k: Sched, p: int, k': Sched) {
    && SameLocks(k, k') && Runnable(k') == Runnable(k)
    && (forall t :: At(k'.base, t) == if t == k.cur then p else At(k.base, t))
    && (k'.cur == k.cur <==> forall t :: t in k.ready ==> At(k'.eff, t) <= At(k'.eff, k.cur))
  }

  lemma SetPriorityObeys(k: Sched, p: int)
    requires Inv(k)
    ensures SetPriorityLaw(k, p, SetPriority(k, p))
  {
    var r := Rebased(k, p);
    RebasedInv(k, p);
    YieldObeys(r);
    forall t | t in r.ready ensures At(r.eff, t) <= At(r.eff, r.ready[0]) { HeadIsTop(r.eff, r.ready, t); }
    if r.ready != [] { assert r.ready[0] in r.ready; }
  }

  /** The running thread sleeps and a thread of highest priority runs. */
  ghost predicate SleepLaw(k: Sched, k': Sched) {
    && SameLocks(k, k') && SameBases(k, k') && k'.eff == k.eff && Runnable(k') == Runnable(k) - {k.cur}
    && (forall t :: t in k.ready ==> At(k.eff, t) <= At(k.eff, k'.cur)) && (k.ready == [] ==> k'.cur == IDLE)
  }

  lemma SleepObeys(k: Sched)
    requires Inv(k)
    ensures SleepLaw(k, Dispatch(k))
  {
    if k.ready != [] {
      assert k.ready == [k.ready[0]] + k.ready[1..];
      forall t | t in k.ready ensures At(k.eff, t) <= At(k.eff, k.ready[0]) { HeadIsTop(k.eff, k.ready, t); }
    }
  }

  ghost predicate WakeLaw(k: Sched, t: Tid, k': Sched) {
    SameLocks(k, k') && SameBases(k, k') && k'.eff == k.eff && Runnable(k') == Runnable(k) + {t} && k'.cur == k.cur
  }

  // ---------------------------------------------------------------- every step of every run

  ghost predicate Law(k: Sched, op: Op, k': Sched) {
    match op
    case DoAcquire(l, _) => AcquireLaw(k, l, k')
    case DoRelease(l) => ReleaseLaw(k, l, k')
    case DoSetPriority(p) => SetPriorityLaw(k, p, k')
    case DoYield => YieldLaw(k, k')
    case DoSleep => SleepLaw(k, k')
    case DoWake(t) => WakeLaw(k, t, k')
  }

  lemma ApplyObeys(k: Sched, op: Op)
    requires Inv(k) && Allowed(k, op)
    ensures Law(k, op, Apply(k, op))
  {
    match op {
      case DoAcquire(l, n) => AcquireObeys(k, l, n);
      case DoRelease(l) => ReleaseObeys(k, l);
      case DoSetPriority(p) => SetPriorityObeys(k, p);
      case DoYield => YieldObeys(k);
      case DoSleep => SleepObeys(k);
      case DoWake(t) =>
    }
  }

  /** Every step of every run does what its operation says, to all locks and threads. */
  lemma RunObeys(states: seq<Sched>, ops: seq<Op>, i: nat)
    requires Run(states, ops) && i < |ops|
    ensures Law(states[i], ops[i], states[i + 1])
  {
    RunExact(states, ops, i, IDLE);
    ApplyObeys(states[i], ops[i]);
  }

  ghost predicate Holds(k: Sched, t: Tid, l: Lock) { l in k.g.holder && k.g.holder[l] == t }

  /** A thread that holds a lock keeps it until it releases it itself; then the lock is free or one of its waiters has it. */
  lemma OnlyHolderReleases(states: seq<Sched>, ops: seq<Op>, i: nat, t: Tid, l: Lock)
    requires Run(states, ops) && i < |ops| && Holds(states[i], t, l) && !Holds(states[i + 1], t, l)
    ensures ops[i] == DoRelease(l) && states[i].cur == t
    ensures l in states[i + 1].g.holder ==> states[i + 1].g.holder[l] in WaitersOf(states[i].g, l)
  {
    RunObeys(states, ops, i);
    RunExact(states, ops, i, IDLE);
  }

  /** Nobody comes to hold a lock but by acquiring it while it is free, or as a waiter when it is released. */
  lemma OnlyWaitersReceive(states: seq<Sched>, ops: seq<Op>, i: nat, t: Tid, l: Lock)
    requires Run(states, ops) && i < |ops| && !Holds(states[i], t, l) && Holds(states[i + 1], t, l)
    ensures || (ops[i].DoAcquire? && ops[i].lock == l && states[i].cur == t && l !in states[i].g.holder)
            || (ops[i] == DoRelease(l) && t in WaitersOf(states[i].g, l) && t in Runnable(states[i + 1]))
  {
    RunObeys(states, ops, i);
    RunExact(states, ops, i, IDLE);
  }
}
