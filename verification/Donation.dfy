/** Priority donation: who holds and waits for which lock, and what effective priority that gives. */
module Donation {

  type Tid = nat
  type Lock = nat

  const IDLE: Tid := 0

  /** Lock ownership and waiting, as the kernel's four linked fields record it. */
  datatype Graph = Graph(
    holder: map<Lock, Tid>,          // lock->holder, absent when NULL
    waiting: map<Tid, Lock>,         // thread->waiting_lock, absent when NULL
    waiters: map<Lock, seq<Tid>>,    // lock->semaphore.waiters
    held: map<Tid, seq<Lock>>)       // thread->held_locks

  /** The scheduler state under SCHED_PRIO. A thread that is neither current nor ready is blocked. */
  datatype Sched = Sched(g: Graph, base: map<Tid, int>, eff: map<Tid, int>, ready: seq<Tid>, cur: Tid)

  function WaitersOf(g: Graph, l: Lock): seq<Tid> { if l in g.waiters then g.waiters[l] else [] }

  function HeldBy(g: Graph, t: Tid): seq<Lock> { if t in g.held then g.held[t] else [] }

  function At(m: map<Tid, int>, t: Tid): int { if t in m then m[t] else 0 }

  predicate Distinct<T(==)>(s: seq<T>) {
    forall i, j :: 0 <= i < j < |s| ==> s[i] != s[j]
  }

  /** The thread `t` waits for, through the lock it waits on. */
  predicate Blocks(g: Graph, t: Tid, u: Tid) {
    t in g.waiting && g.waiting[t] in g.holder && g.holder[g.waiting[t]] == u
  }

  predicate WaitersOk(g: Graph, l: Lock) {
    && Distinct(WaitersOf(g, l))
    && (forall t :: t in WaitersOf(g, l) ==> t in g.waiting && g.waiting[t] == l)
    && (forall t :: t in g.waiting && g.waiting[t] == l ==> t in WaitersOf(g, l))
  }

  predicate HeldOk(g: Graph, t: Tid) {
    && Distinct(HeldBy(g, t))
    && (forall l :: l in HeldBy(g, t) ==> l in g.holder && g.holder[l] == t)
    && (forall l :: l in g.holder && g.holder[l] == t ==> l in HeldBy(g, t))
  }

  /** The four fields agree. A lock with waiters has a holder, since release hands it over. */
  ghost predicate Linked(g: Graph) {
    && (forall l :: WaitersOk(g, l))
    && (forall t :: HeldOk(g, t))
    && (forall t :: t in g.waiting ==> g.waiting[t] in g.holder)
  }

  /** Following waiting_lock->holder from `t` ends within `n` steps. */
  predicate ChainEnds(g: Graph, t: Tid, n: nat)
    decreases n
  {
    t !in g.waiting || g.waiting[t] !in g.holder || (n > 0 && ChainEnds(g, g.holder[g.waiting[t]], n - 1))
  }

  ghost predicate Bounded(g: Graph, n: nat) {
    forall t :: ChainEnds(g, t, n)
  }

  ghost predicate Acyclic(g: Graph) {
    exists n: nat :: Bounded(g, n)
  }

  /** `v` is the largest of the base priority of `t` and the effective priorities of its waiters. */
  ghost predicate ExactValue(k: Sched, t: Tid, v: int) {
    && At(k.base, t) <= v
    && (forall w :: Blocks(k.g, w, t) ==> At(k.eff, w) <= v)
    && (v == At(k.base, t) || exists w :: Blocks(k.g, w, t) && At(k.eff, w) == v)
  }

  ghost predicate Exact(k: Sched, t: Tid) { ExactValue(k, t, At(k.eff, t)) }

  ghost predicate AllExact(k: Sched) { forall t :: Exact(k, t) }

  predicate SortedBy(eff: map<Tid, int>, ready: seq<Tid>) {
    forall i, j :: 0 <= i < j < |ready| ==> At(eff, ready[i]) >= At(eff, ready[j])
  }

  ghost predicate QueueOk(k: Sched) {
    && SortedBy(k.eff, k.ready) && Distinct(k.ready)
    && k.cur !in k.ready && IDLE !in k.ready
    && forall t :: t in k.ready ==> t !in k.g.waiting
  }

  ghost predicate Inv(k: Sched) {
    && Linked(k.g) && Acyclic(k.g)
    && AllExact(k)
    && QueueOk(k) && k.cur !in k.g.waiting && IDLE !in k.g.waiting
  }

  // ---------------------------------------------------------------- the ready list

  function Without<T(==, !new)>(s: seq<T>, x: T): (r: seq<T>)
    ensures Distinct(s) ==> forall y :: y in r <==> y in s && y != x
    ensures Distinct(s) ==> Distinct(r)
  {
    if s == [] then [] else if s[0] == x then s[1..]
    else
      var r := Without(s[1..], x);
      assert Distinct(s) ==> s[0] !in r;
      [s[0]] + r
  }

  /** list_insert_ordered with thread_priority_greater: before the first thread of lower priority. */
  function Insert(eff: map<Tid, int>, ready: seq<Tid>, t: Tid): (r: seq<Tid>)
    ensures forall x :: x in r <==> x in ready || x == t
    ensures |r| == |ready| + 1
  {
    if ready == [] then [t]
    else if At(eff, t) > At(eff, ready[0]) then [t] + ready
    else
      assert ready == [ready[0]] + ready[1..];
      [ready[0]] + Insert(eff, ready[1..], t)
  }

  lemma HeadLeads(eff: map<Tid, int>, ready: seq<Tid>, y: Tid)
    requires SortedBy(eff, ready) && Distinct(ready) && ready != [] && y in ready[1..]
    ensures At(eff, y) <= At(eff, ready[0]) && y != ready[0]
  {
  }

  lemma ConsOrdered(eff: map<Tid, int>, x: Tid, r: seq<Tid>)
    requires SortedBy(eff, r) && Distinct(r)
    requires forall y :: y in r ==> At(eff, y) <= At(eff, x) && y != x
    ensures SortedBy(eff, [x] + r) && Distinct([x] + r)
  {
  }

  lemma TailOrdered(eff: map<Tid, int>, ready: seq<Tid>)
    requires SortedBy(eff, ready) && Distinct(ready) && ready != []
    ensures SortedBy(eff, ready[1..]) && Distinct(ready[1..])
  {
  }

  lemma {:induction false} InsertOrdered(eff: map<Tid, int>, ready: seq<Tid>, t: Tid)
    requires SortedBy(eff, ready) && Distinct(ready) && t !in ready
    ensures SortedBy(eff, Insert(eff, ready, t)) && Distinct(Insert(eff, ready, t))
  {
    if ready != [] {
      TailOrdered(eff, ready);
      if At(eff, t) > At(eff, ready[0]) {
        forall y | y in ready ensures At(eff, y) <= At(eff, t) && y != t {
          if y != ready[0] {
            assert y in ready[1..];
            HeadLeads(eff, ready, y);
          }
        }
        ConsOrdered(eff, t, ready);
      } else {
        InsertOrdered(eff, ready[1..], t);
        var r := Insert(eff, ready[1..], t);
        forall y | y in r ensures At(eff, y) <= At(eff, ready[0]) && y != ready[0] {
          if y != t { HeadLeads(eff, ready, y); }
        }
        ConsOrdered(eff, ready[0], r);
      }
    }
  }

  lemma {:induction false} WithoutOrdered(eff: map<Tid, int>, ready: seq<Tid>, t: Tid)
    requires SortedBy(eff, ready) && Distinct(ready)
    ensures SortedBy(eff, Without(ready, t))
  {
    if ready != [] {
      TailOrdered(eff, ready);
      if ready[0] != t {
        WithoutOrdered(eff, ready[1..], t);
        var r := Without(ready[1..], t);
        forall y | y in r ensures At(eff, y) <= At(eff, ready[0]) && y != ready[0] {
          HeadLeads(eff, ready, y);
        }
        ConsOrdered(eff, ready[0], r);
      }
    }
  }

  /** Sets the effective priority of `t` and moves it to its place if it is on the ready list. */
  function Raise(k: Sched, t: Tid, p: int): Sched {
    var eff := k.eff[t := p];
    k.(eff := eff, ready := if t in k.ready then Insert(eff, Without(k.ready, t), t) else k.ready)
  }

  lemma RaiseQueue(k: Sched, t: Tid, p: int)
    requires QueueOk(k)
    ensures QueueOk(Raise(k, t, p))
  {
    var eff := k.eff[t := p];
    if t in k.ready {
      var rest := Without(k.ready, t);
      WithoutOrdered(k.eff, k.ready, t);
      forall i, j | 0 <= i < j < |rest| ensures At(eff, rest[i]) >= At(eff, rest[j]) {
        assert rest[i] in rest && rest[j] in rest;
      }
      InsertOrdered(eff, rest, t);
    } else {
      forall i, j | 0 <= i < j < |k.ready| ensures At(eff, k.ready[i]) >= At(eff, k.ready[j]) {
        assert k.ready[i] in k.ready && k.ready[j] in k.ready;
      }
    }
  }

  // ---------------------------------------------------------------- the donation walk

  /** The chain walk: each holder is raised to its waiter's priority, all the way to the end. */
  function Propagate(k: Sched, t: Tid, n: nat): Sched
    requires ChainEnds(k.g, t, n)
    decreases n
  {
    if t !in k.g.waiting || k.g.waiting[t] !in k.g.holder then k
    else
      var u := k.g.holder[k.g.waiting[t]];
      Propagate(if At(k.eff, t) > At(k.eff, u) then Raise(k, u, At(k.eff, t)) else k, u, n - 1)
  }

  function Max(a: int, b: int): int { if a >= b then a else b }

  /** Everybody is exact, except that the thread `t` waits for may not have seen `t` yet. */
  ghost predicate Pending(k: Sched, t: Tid) {
    forall u :: if Blocks(k.g, t, u) then ExactValue(k, u, Max(At(k.eff, u), At(k.eff, t))) else Exact(k, u)
  }

  lemma {:induction false} NoSelfWait(g: Graph, t: Tid, n: nat)
    requires ChainEnds(g, t, n)
    ensures !Blocks(g, t, t)
    decreases n
  {
    if Blocks(g, t, t) { NoSelfWait(g, t, n - 1); }
  }

  /** One step of the walk moves the pending update one holder further. */
  lemma StepPending(k: Sched, t: Tid, u: Tid)
    requires Pending(k, t) && Blocks(k.g, t, u) && !Blocks(k.g, u, u)
    ensures Pending(if At(k.eff, t) > At(k.eff, u) then Raise(k, u, At(k.eff, t)) else k, u)
  {
    var k' := if At(k.eff, t) > At(k.eff, u) then Raise(k, u, At(k.eff, t)) else k;
    assert ExactValue(k, u, Max(At(k.eff, u), At(k.eff, t)));
    forall x ensures if Blocks(k'.g, u, x) then ExactValue(k', x, Max(At(k'.eff, x), At(k'.eff, u))) else Exact(k', x) {
      if x == u {
        ExactFrame(k, k', u, Max(At(k.eff, u), At(k.eff, t)));
      } else if Blocks(k.g, u, x) {
        RaisedDonor(k, k', u, x);
      } else {
        assert Exact(k, x);
        ExactFrame(k, k', x, At(k.eff, x));
      }
    }
  }

  /** A value is exact for `x` in two states that agree on the waiters of `x`. */
  lemma ExactFrame(k: Sched, k': Sched, x: Tid, v: int)
    requires ExactValue(k, x, v) && k'.g == k.g && At(k'.base, x) == At(k.base, x)
    requires forall w :: Blocks(k.g, w, x) ==> At(k'.eff, w) == At(k.eff, w)
    ensures ExactValue(k', x, v)
  {
  }

  lemma RaisedDonor(k: Sched, k': Sched, u: Tid, x: Tid)
    requires Exact(k, x) && Blocks(k.g, u, x) && k'.g == k.g && k'.base == k.base
    requires At(k'.eff, u) >= At(k.eff, u) && forall w :: w != u ==> At(k'.eff, w) == At(k.eff, w)
    requires x != u
    ensures ExactValue(k', x, Max(At(k'.eff, x), At(k'.eff, u)))
  {
  }

  /** The walk restores exactness everywhere and keeps the ready list in order. */
  lemma {:induction false} PropagateExact(k: Sched, t: Tid, n: nat)
    requires ChainEnds(k.g, t, n) && Pending(k, t) && QueueOk(k)
    ensures Propagate(k, t, n).g == k.g && Propagate(k, t, n).base == k.base && Propagate(k, t, n).cur == k.cur
    ensures forall u :: Exact(Propagate(k, t, n), u)
    ensures QueueOk(Propagate(k, t, n))
    decreases n
  {
    if t in k.g.waiting && k.g.waiting[t] in k.g.holder {
      var u := k.g.holder[k.g.waiting[t]];
      NoSelfWait(k.g, u, n - 1);
      StepPending(k, t, u);
      RaiseQueue(k, u, At(k.eff, t));
      PropagateExact(if At(k.eff, t) > At(k.eff, u) then Raise(k, u, At(k.eff, t)) else k, u, n - 1);
    }
  }

  // ---------------------------------------------------------------- the operations

  /** schedule(): the front of the ready list runs next, or the idle thread. */
  function Dispatch(k: Sched): Sched {
    if k.ready == [] then k.(cur := IDLE) else k.(cur := k.ready[0], ready := k.ready[1..])
  }

  function YieldCpu(k: Sched): Sched {
    Dispatch(if k.cur == IDLE then k else k.(ready := Insert(k.eff, k.ready, k.cur)))
  }

  /** The waiter sema_up wakes: the first of those with the highest effective priority. */
  function Top(eff: map<Tid, int>, ws: seq<Tid>): (t: Tid)
    requires ws != []
    ensures t in ws && forall w :: w in ws ==> At(eff, w) <= At(eff, t)
  {
    if |ws| == 1 then ws[0]
    else
      var n := |ws| - 1;
      var t := Top(eff, ws[..n]);
      assert forall w :: w in ws ==> w in ws[..n] || w == ws[n];
      if At(eff, t) < At(eff, ws[n]) then ws[n] else t
  }

  /** The priority a thread is left with: its base and the waiters of the locks it still holds. */
  function Recompute(eff: map<Tid, int>, g: Graph, locks: seq<Lock>, p: int): (r: int)
    ensures p <= r
    ensures forall l, w :: l in locks && w in WaitersOf(g, l) ==> At(eff, w) <= r
    ensures r == p || exists l, w :: l in locks && w in WaitersOf(g, l) && At(eff, w) == r
  {
    if locks == [] then p
    else
      var ws := WaitersOf(g, locks[0]);
      var q := if ws != [] && At(eff, Top(eff, ws)) > p then At(eff, Top(eff, ws)) else p;
      Recompute(eff, g, locks[1..], q)
  }

  function Take(k: Sched, l: Lock): Sched {
    k.(g := k.g.(holder := k.g.holder[l := k.cur], held := k.g.held[k.cur := HeldBy(k.g, k.cur) + [l]]))
  }

  /** The current thread joins the waiters of `l`. */
  function Enlist(k: Sched, l: Lock): Sched {
    k.(g := k.g.(waiting := k.g.waiting[k.cur := l], waiters := k.g.waiters[l := WaitersOf(k.g, l) + [k.cur]]))
  }

  /** lock_acquire: take a free lock; otherwise donate along the chain and sleep. */
  function Acquire(k: Sched, l: Lock, n: nat): Sched
    requires l in k.g.holder ==> ChainEnds(Enlist(k, l).g, k.g.holder[l], n)
  {
    if l !in k.g.holder then Take(k, l)
    else
      var e := Enlist(k, l);
      var h := k.g.holder[l];
      var p := At(k.eff, k.cur);
      Dispatch(if p > At(k.eff, h) then Propagate(Raise(e, h, p), h, n) else e)
  }

  /** What the releasing thread keeps. */
  function DropLock(k: Sched, l: Lock): Sched {
    var locks := Without(HeldBy(k.g, k.cur), l);
    k.(g := k.g.(held := k.g.held[k.cur := locks], holder := k.g.holder - {l}),
       eff := k.eff[k.cur := Recompute(k.eff, k.g, locks, At(k.base, k.cur))])
  }

  /** The woken waiter becomes the holder and is ready to run. */
  function HandOver(k: Sched, l: Lock, w: Tid): Sched {
    k.(g := Graph(k.g.holder[l := w], k.g.waiting - {w}, k.g.waiters[l := Without(WaitersOf(k.g, l), w)],
                  k.g.held[w := HeldBy(k.g, w) + [l]]),
       ready := Insert(k.eff, k.ready, w))
  }

  /** lock_release: recompute, hand the lock to the best waiter, yield to it if it is better. */
  function Release(k: Sched, l: Lock): Sched {
    var d := DropLock(k, l);
    if WaitersOf(k.g, l) == [] then d
    else
      var w := Top(k.eff, WaitersOf(k.g, l));
      var k' := HandOver(d, l, w);
      if At(k'.eff, w) > At(k'.eff, k.cur) then YieldCpu(k') else k'
  }

  /** thread_set_priority for the current thread. */
  function SetPriority(k: Sched, p: int): Sched {
    var k' := Rebased(k, p);
    if k'.ready != [] && At(k'.eff, k'.ready[0]) > At(k'.eff, k'.cur) then YieldCpu(k') else k'
  }

  /** thread_unblock of a thread that sleeps for some other reason. */
  function Wake(k: Sched, t: Tid): Sched { k.(ready := Insert(k.eff, k.ready, t)) }

  // ---------------------------------------------------------------- scheduling keeps the invariant

  lemma DispatchInv(k: Sched)
    requires Linked(k.g) && Acyclic(k.g) && AllExact(k) && QueueOk(k) && IDLE !in k.g.waiting
    ensures Inv(Dispatch(k))
  {
    var k' := Dispatch(k);
    forall t ensures Exact(k', t) {
      assert Exact(k, t);
      ExactFrame(k, k', t, At(k.eff, t));
    }
    if k.ready != [] {
      assert k.ready[0] in k.ready;
      assert forall t :: t in k'.ready ==> t in k.ready;
    }
  }

  lemma InsertInv(k: Sched, t: Tid)
    requires Inv(k) && t !in k.ready && t != IDLE && t !in k.g.waiting
    ensures var k' := k.(ready := Insert(k.eff, k.ready, t));
      && Linked(k'.g) && Acyclic(k'.g) && (forall u :: Exact(k', u)) && SortedBy(k'.eff, k'.ready) && Distinct(k'.ready)
      && IDLE !in k'.ready && (forall u :: u in k'.ready ==> u !in k'.g.waiting)
  {
    InsertOrdered(k.eff, k.ready, t);
    var k' := k.(ready := Insert(k.eff, k.ready, t));
    forall u ensures Exact(k', u) {
      assert Exact(k, u);
      ExactFrame(k, k', u, At(k.eff, u));
    }
  }

  lemma WakeInv(k: Sched, t: Tid)
    requires Inv(k) && t !in k.ready && t != k.cur && t != IDLE && t !in k.g.waiting
    ensures Inv(Wake(k, t))
  {
    InsertInv(k, t);
  }

  lemma YieldInv(k: Sched)
    requires Inv(k)
    ensures Inv(YieldCpu(k))
  {
    if k.cur == IDLE {
      DispatchInv(k);
    } else {
      InsertInv(k, k.cur);
      FrontInv(k.(ready := Insert(k.eff, k.ready, k.cur)));
    }
  }

  /** Dispatching from a list that may still contain the thread that was running. */
  lemma FrontInv(k: Sched)
    requires Linked(k.g) && Acyclic(k.g) && AllExact(k) && IDLE !in k.g.waiting
    requires SortedBy(k.eff, k.ready) && Distinct(k.ready) && IDLE !in k.ready && k.ready != []
    requires forall t :: t in k.ready ==> t !in k.g.waiting
    ensures Inv(Dispatch(k))
  {
    var k' := Dispatch(k);
    forall t ensures Exact(k', t) {
      assert Exact(k, t);
      ExactFrame(k, k', t, At(k.eff, t));
    }
    TailOrdered(k.eff, k.ready);
    assert k.ready[0] in k.ready;
    assert forall t :: t in k'.ready ==> t in k.ready;
  }

  // ---------------------------------------------------------------- acquiring

  lemma {:induction false} ChainMonotone(g: Graph, t: Tid, n: nat, m: nat)
    requires ChainEnds(g, t, n) && n <= m
    ensures ChainEnds(g, t, m)
    decreases n
  {
    if t in g.waiting && g.waiting[t] in g.holder {
      ChainMonotone(g, g.holder[g.waiting[t]], n - 1, m - 1);
    }
  }

  /** Chains only change where a waiting thread's lock got another holder. */
  lemma {:induction false} ChainFrame(g: Graph, g': Graph, t: Tid, n: nat)
    requires ChainEnds(g, t, n)
    requires forall u :: u in g'.waiting && g'.waiting[u] in g'.holder ==> Blocks(g, u, g'.holder[g'.waiting[u]])
    ensures ChainEnds(g', t, n)
    decreases n
  {
    if t in g'.waiting && g'.waiting[t] in g'.holder {
      ChainFrame(g, g', g'.holder[g'.waiting[t]], n - 1);
    }
  }

  lemma TakeLinked(k: Sched, l: Lock)
    requires Linked(k.g) && l !in k.g.holder
    ensures Linked(Take(k, l).g)
  {
    var g := Take(k, l).g;
    forall x ensures WaitersOk(g, x) {
      assert WaitersOk(k.g, x);
    }
    forall t ensures HeldOk(g, t) {
      assert HeldOk(k.g, t);
      assert l !in HeldBy(k.g, t);
    }
  }

  lemma TakeInv(k: Sched, l: Lock)
    requires Inv(k) && l !in k.g.holder
    ensures Inv(Take(k, l))
  {
    var k' := Take(k, l);
    TakeLinked(k, l);
    forall u, v ensures Blocks(k'.g, u, v) <==> Blocks(k.g, u, v) {}
    var n: nat :| Bounded(k.g, n);
    forall t ensures ChainEnds(k'.g, t, n) {
      assert ChainEnds(k.g, t, n);
      ChainFrame(k.g, k'.g, t, n);
    }
    assert Bounded(k'.g, n);
    forall t ensures Exact(k', t) {
      assert Exact(k, t);
      ExactTransfer(k, k', t, At(k.eff, t));
    }
  }

  /** As ExactFrame, for states whose graphs differ but agree on who waits for `x`. */
  lemma ExactTransfer(k: Sched, k': Sched, x: Tid, v: int)
    requires ExactValue(k, x, v) && At(k'.base, x) == At(k.base, x)
    requires forall w :: Blocks(k'.g, w, x) <==> Blocks(k.g, w, x)
    requires forall w :: Blocks(k.g, w, x) ==> At(k'.eff, w) == At(k.eff, w)
    ensures ExactValue(k', x, v)
  {
  }

  /** Adding the edge from the current thread extends the chains that end in it by the holder's chain. */
  lemma {:induction false} EnlistChain(k: Sched, l: Lock, t: Tid, n: nat, m: nat)
    requires k.cur !in k.g.waiting && l in k.g.holder
    requires ChainEnds(k.g, t, n) && ChainEnds(Enlist(k, l).g, k.g.holder[l], m)
    ensures ChainEnds(Enlist(k, l).g, t, n + 1 + m)
    decreases n
  {
    var g := Enlist(k, l).g;
    if t == k.cur {
      ChainMonotone(g, k.g.holder[l], m, n + m);
    } else if t in k.g.waiting && k.g.waiting[t] in k.g.holder {
      EnlistChain(k, l, k.g.holder[k.g.waiting[t]], n - 1, m);
    }
  }

  lemma EnlistLinked(k: Sched, l: Lock)
    requires Linked(k.g) && k.cur !in k.g.waiting && l in k.g.holder
    ensures Linked(Enlist(k, l).g)
  {
    var g := Enlist(k, l).g;
    forall x ensures WaitersOk(g, x) {
      assert WaitersOk(k.g, x);
      assert k.cur !in WaitersOf(k.g, x);
    }
    forall t ensures HeldOk(g, t) {
      assert HeldOk(k.g, t);
    }
  }

  lemma EnlistPending(k: Sched, l: Lock)
    requires Inv(k) && l in k.g.holder
    ensures Pending(Enlist(k, l), k.cur)
  {
    var e := Enlist(k, l);
    forall u ensures if Blocks(e.g, k.cur, u) then ExactValue(e, u, Max(At(e.eff, u), At(e.eff, k.cur))) else Exact(e, u) {
      assert Exact(k, u);
      forall w ensures Blocks(e.g, w, u) <==> (Blocks(k.g, w, u) || (w == k.cur && u == k.g.holder[l])) {}
      if Blocks(e.g, k.cur, u) {
        var v := Max(At(k.eff, u), At(k.eff, k.cur));
        if v == At(k.eff, k.cur) {
          assert Blocks(e.g, k.cur, u) && At(e.eff, k.cur) == v;
        } else if v != At(k.base, u) {
          var w :| Blocks(k.g, w, u) && At(k.eff, w) == v;
          assert Blocks(e.g, w, u) && At(e.eff, w) == v;
        }
      } else {
        ExactTransfer(k, e, u, At(k.eff, u));
      }
    }
  }

  /** The wait a blocking acquire adds does not close a cycle. */
  ghost predicate NoDeadlock(k: Sched, l: Lock, n: nat) {
    l in k.g.holder ==> k.g.holder[l] != k.cur && ChainEnds(Enlist(k, l).g, k.g.holder[l], n)
  }

  lemma AcquireInv(k: Sched, l: Lock, n: nat)
    requires Inv(k) && k.cur != IDLE && NoDeadlock(k, l, n)
    ensures Inv(Acquire(k, l, n))
  {
    if l !in k.g.holder {
      TakeInv(k, l);
    } else {
      var e := Enlist(k, l);
      EnlistLinked(k, l);
      EnlistPending(k, l);
      var m: nat :| Bounded(k.g, m);
      var bound := m + 1 + n;
      forall t ensures ChainEnds(e.g, t, bound) {
        assert ChainEnds(k.g, t, m);
        EnlistChain(k, l, t, m, n);
      }
      assert Bounded(e.g, bound);
      BlockInv(k, l, n);
    }
  }

  lemma BlockInv(k: Sched, l: Lock, n: nat)
    requires Inv(k) && k.cur != IDLE && l in k.g.holder && NoDeadlock(k, l, n)
    requires Linked(Enlist(k, l).g) && Acyclic(Enlist(k, l).g) && Pending(Enlist(k, l), k.cur)
    ensures Inv(Acquire(k, l, n))
  {
    var e, h, p := Enlist(k, l), k.g.holder[l], At(k.eff, k.cur);
    assert QueueOk(e);
    NoSelfWait(e.g, h, n);
    assert Blocks(e.g, k.cur, h);
    StepPending(e, k.cur, h);
    if p > At(k.eff, h) {
      RaiseQueue(e, h, p);
      PropagateExact(Raise(e, h, p), h, n);
      DispatchInv(Propagate(Raise(e, h, p), h, n));
    } else {
      forall u ensures Exact(e, u) {
        if u == h { assert ExactValue(e, h, Max(At(e.eff, h), p)); }
      }
      DispatchInv(e);
    }
  }

  // ---------------------------------------------------------------- releasing

  /** Recompute finds exactly the donors that wait on the given locks. */
  lemma RecomputeExact(k: Sched, k': Sched, t: Tid, locks: seq<Lock>)
    requires Linked(k.g)
    requires forall w :: Blocks(k'.g, w, t) <==> exists l :: l in locks && w in WaitersOf(k.g, l)
    requires forall w :: Blocks(k'.g, w, t) ==> At(k'.eff, w) == At(k.eff, w)
    ensures ExactValue(k', t, Recompute(k.eff, k.g, locks, At(k'.base, t)))
  {
    var r := Recompute(k.eff, k.g, locks, At(k'.base, t));
    if r != At(k'.base, t) {
      var l, w :| l in locks && w in WaitersOf(k.g, l) && At(k.eff, w) == r;
      assert Blocks(k'.g, w, t) && At(k'.eff, w) == r;
    }
  }

  /** The state right after the lock changes hands, before the choice to yield. */
  function Handed(k: Sched, l: Lock): Sched {
    if WaitersOf(k.g, l) == [] then DropLock(k, l) else HandOver(DropLock(k, l), l, Top(k.eff, WaitersOf(k.g, l)))
  }

  ghost predicate Releasing(k: Sched, l: Lock) {
    Linked(k.g) && k.cur !in k.g.waiting && l in k.g.holder && k.g.holder[l] == k.cur
  }

  lemma HandedWaiters(k: Sched, l: Lock, x: Lock)
    requires Releasing(k, l)
    ensures WaitersOk(Handed(k, l).g, x)
  {
    assert WaitersOk(k.g, x) && WaitersOk(k.g, l);
  }

  lemma HandedHeld(k: Sched, l: Lock, t: Tid)
    requires Releasing(k, l)
    ensures HeldOk(Handed(k, l).g, t)
  {
    var g := Handed(k, l).g;
    assert HeldOk(k.g, t) && HeldOk(k.g, k.cur) && WaitersOk(k.g, l);
    if t == k.cur {
      assert HeldBy(g, t) == Without(HeldBy(k.g, t), l);
    } else if WaitersOf(k.g, l) != [] && t == Top(k.eff, WaitersOf(k.g, l)) {
      assert HeldBy(g, t) == HeldBy(k.g, t) + [l];
    } else {
      assert HeldBy(g, t) == HeldBy(k.g, t);
    }
  }

  lemma HandedLinked(k: Sched, l: Lock)
    requires Releasing(k, l)
    ensures Linked(Handed(k, l).g)
  {
    forall x ensures WaitersOk(Handed(k, l).g, x) { HandedWaiters(k, l, x); }
    forall t ensures HeldOk(Handed(k, l).g, t) { HandedHeld(k, l, t); }
    assert WaitersOk(k.g, l);
  }

  /** Who waits for whom after a release: the other waiters of `l` now wait for its new holder. */
  lemma HandedBlocks(k: Sched, l: Lock, u: Tid, v: Tid)
    requires Releasing(k, l)
    ensures var ws := WaitersOf(k.g, l);
      Blocks(Handed(k, l).g, u, v) <==>
        if u in ws then v == Top(k.eff, ws) && u != v else Blocks(k.g, u, v)
  {
    assert WaitersOk(k.g, l);
  }

  lemma {:induction false} HandedChain(k: Sched, l: Lock, t: Tid, n: nat)
    requires Releasing(k, l)
    requires ChainEnds(k.g, t, n)
    ensures ChainEnds(Handed(k, l).g, t, n + 1)
    decreases n
  {
    var g := Handed(k, l).g;
    if t in g.waiting && g.waiting[t] in g.holder {
      var u := g.holder[g.waiting[t]];
      HandedBlocks(k, l, t, u);
      if t !in WaitersOf(k.g, l) {
        HandedChain(k, l, u, n - 1);
      } else {
        HandedBlocks(k, l, u, u);
        assert u !in g.waiting;
      }
    }
  }

  /** The new holder outranks the waiters it leaves behind, so its own priority stays exact. */
  lemma HandedTopExact(k: Sched, l: Lock)
    requires Releasing(k, l) && WaitersOf(k.g, l) != [] && Exact(k, Top(k.eff, WaitersOf(k.g, l)))
    ensures Exact(Handed(k, l), Top(k.eff, WaitersOf(k.g, l)))
  {
    var k', ws := Handed(k, l), WaitersOf(k.g, l);
    var t := Top(k.eff, ws);
    assert WaitersOk(k.g, l);
    forall w | Blocks(k'.g, w, t) ensures At(k'.eff, w) <= At(k'.eff, t) {
      HandedBlocks(k, l, w, t);
    }
    if At(k.eff, t) != At(k.base, t) {
      var w :| Blocks(k.g, w, t) && At(k.eff, w) == At(k.eff, t);
      HandedBlocks(k, l, w, t);
      assert Blocks(k'.g, w, t) && At(k'.eff, w) == At(k'.eff, t);
    }
  }

  lemma HandedOtherExact(k: Sched, l: Lock, t: Tid)
    requires Releasing(k, l) && Exact(k, t) && t != k.cur
    requires WaitersOf(k.g, l) == [] || t != Top(k.eff, WaitersOf(k.g, l))
    ensures Exact(Handed(k, l), t)
  {
    var k' := Handed(k, l);
    assert WaitersOk(k.g, l);
    forall w ensures Blocks(k'.g, w, t) <==> Blocks(k.g, w, t) {
      HandedBlocks(k, l, w, t);
    }
    ExactTransfer(k, k', t, At(k.eff, t));
  }

  /** The threads that wait for `t` are the waiters of the locks it holds. */
  lemma DonorsAreWaiters(g: Graph, t: Tid, w: Tid)
    requires Linked(g)
    ensures Blocks(g, w, t) <==> exists x :: x in HeldBy(g, t) && w in WaitersOf(g, x)
  {
    assert HeldOk(g, t);
    if w in g.waiting { assert WaitersOk(g, g.waiting[w]); }
    if x :| x in HeldBy(g, t) && w in WaitersOf(g, x) { assert WaitersOk(g, x); }
  }

  lemma ReleaserDonors(k: Sched, l: Lock, w: Tid)
    requires Releasing(k, l)
    ensures Blocks(Handed(k, l).g, w, k.cur) <==> exists x :: x in Without(HeldBy(k.g, k.cur), l) && w in WaitersOf(k.g, x)
  {
    var locks := Without(HeldBy(k.g, k.cur), l);
    assert HeldOk(k.g, k.cur) && WaitersOk(k.g, l);
    HandedBlocks(k, l, w, k.cur);
    if w in k.g.waiting {
      assert WaitersOk(k.g, k.g.waiting[w]);
    }
    if x :| x in locks && w in WaitersOf(k.g, x) {
      assert WaitersOk(k.g, x);
    }
  }

  lemma ReleaserExact(k: Sched, l: Lock)
    requires Releasing(k, l)
    ensures Exact(Handed(k, l), k.cur)
  {
    var k', locks := Handed(k, l), Without(HeldBy(k.g, k.cur), l);
    forall w ensures Blocks(k'.g, w, k.cur) <==> exists x :: x in locks && w in WaitersOf(k.g, x) {
      ReleaserDonors(k, l, w);
    }
    forall w | Blocks(k'.g, w, k.cur) ensures At(k'.eff, w) == At(k.eff, w) {
      HandedBlocks(k, l, w, k.cur);
    }
    RecomputeExact(k, k', k.cur, locks);
  }

  lemma HandedExact(k: Sched, l: Lock, t: Tid)
    requires Releasing(k, l) && Exact(k, t)
    ensures Exact(Handed(k, l), t)
  {
    if t == k.cur {
      ReleaserExact(k, l);
    } else if WaitersOf(k.g, l) != [] && t == Top(k.eff, WaitersOf(k.g, l)) {
      HandedTopExact(k, l);
    } else {
      HandedOtherExact(k, l, t);
    }
  }

  lemma HandedQueue(k: Sched, l: Lock)
    requires Inv(k) && l in k.g.holder && k.g.holder[l] == k.cur
    ensures var k' := Handed(k, l); QueueOk(k') && k'.cur == k.cur && k'.cur !in k'.g.waiting && IDLE !in k'.g.waiting
  {
    var d, ws := DropLock(k, l), WaitersOf(k.g, l);
    forall i, j | 0 <= i < j < |d.ready| ensures At(d.eff, d.ready[i]) >= At(d.eff, d.ready[j]) {
      assert d.ready[i] in d.ready && d.ready[j] in d.ready;
    }
    if ws != [] {
      assert WaitersOk(k.g, l);
      InsertOrdered(d.eff, d.ready, Top(k.eff, ws));
    }
  }

  lemma HandedInv(k: Sched, l: Lock)
    requires Inv(k) && Releasing(k, l)
    ensures Inv(Handed(k, l))
  {
    var k' := Handed(k, l);
    HandedLinked(k, l);
    HandedQueue(k, l);
    var n: nat :| Bounded(k.g, n);
    var m := n + 1;
    forall t ensures ChainEnds(k'.g, t, m) {
      assert ChainEnds(k.g, t, n);
      HandedChain(k, l, t, n);
    }
    assert Bounded(k'.g, m);
    forall t ensures Exact(k', t) {
      assert Exact(k, t);
      HandedExact(k, l, t);
    }
  }

  lemma ReleaseInv(k: Sched, l: Lock)
    requires Inv(k) && l in k.g.holder && k.g.holder[l] == k.cur
    ensures Inv(Release(k, l))
  {
    HandedInv(k, l);
    YieldInv(Handed(k, l));
  }

  function Rebased(k: Sched, p: int): Sched {
    k.(base := k.base[k.cur := p], eff := k.eff[k.cur := Recompute(k.eff, k.g, HeldBy(k.g, k.cur), p)])
  }

  lemma RebasedExact(k: Sched, p: int, t: Tid)
    requires Linked(k.g) && k.cur !in k.g.waiting && Exact(k, t)
    ensures Exact(Rebased(k, p), t)
  {
    var k' := Rebased(k, p);
    if t == k.cur {
      forall w ensures Blocks(k'.g, w, t) <==> exists x :: x in HeldBy(k.g, t) && w in WaitersOf(k.g, x) {
        DonorsAreWaiters(k.g, t, w);
      }
      RecomputeExact(k, k', t, HeldBy(k.g, t));
    } else {
      ExactFrame(k, k', t, At(k.eff, t));
    }
  }

  lemma RebasedInv(k: Sched, p: int)
    requires Inv(k)
    ensures Inv(Rebased(k, p))
  {
    var k' := Rebased(k, p);
    forall t ensures Exact(k', t) {
      assert Exact(k, t);
      RebasedExact(k, p, t);
    }
    forall i, j | 0 <= i < j < |k'.ready| ensures At(k'.eff, k'.ready[i]) >= At(k'.eff, k'.ready[j]) {
      assert k.ready[i] in k.ready && k.ready[j] in k.ready;
    }
  }

  lemma SetPriorityInv(k: Sched, p: int)
    requires Inv(k)
    ensures Inv(SetPriority(k, p))
  {
    RebasedInv(k, p);
    YieldInv(Rebased(k, p));
  }

  // ---------------------------------------------------------------- strict priority

  /** No ready thread outranks the running one. */
  predicate TopRuns(k: Sched) {
    k.ready == [] || At(k.eff, k.ready[0]) <= At(k.eff, k.cur)
  }

  lemma DispatchTop(k: Sched)
    requires SortedBy(k.eff, k.ready) && |k.ready| > 0
    ensures TopRuns(Dispatch(k))
  {
  }

  lemma YieldTop(k: Sched)
    requires Inv(k) && (k.cur != IDLE || k.ready != [])
    ensures TopRuns(YieldCpu(k))
  {
    if k.cur == IDLE {
      DispatchTop(k);
    } else {
      InsertOrdered(k.eff, k.ready, k.cur);
      DispatchTop(k.(ready := Insert(k.eff, k.ready, k.cur)));
    }
  }

  /** If the releasing thread does not yield to the thread it woke, its priority did not drop. */
  lemma ReleaseKeepsPriority(k: Sched, l: Lock)
    requires Inv(k) && Releasing(k, l)
    requires WaitersOf(k.g, l) != [] ==> At(k.eff, Top(k.eff, WaitersOf(k.g, l))) <= At(DropLock(k, l).eff, k.cur)
    ensures At(DropLock(k, l).eff, k.cur) >= At(k.eff, k.cur)
  {
    assert Exact(k, k.cur);
    var locks := Without(HeldBy(k.g, k.cur), l);
    assert HeldOk(k.g, k.cur);
    if At(k.eff, k.cur) != At(k.base, k.cur) {
      var w :| Blocks(k.g, w, k.cur) && At(k.eff, w) == At(k.eff, k.cur);
      var x := k.g.waiting[w];
      assert WaitersOk(k.g, x) && w in WaitersOf(k.g, x);
      assert x == l || x in locks;
    }
  }

  lemma ReleaseTop(k: Sched, l: Lock)
    requires Inv(k) && TopRuns(k) && Releasing(k, l)
    ensures TopRuns(Release(k, l))
  {
    var k', ws := Handed(k, l), WaitersOf(k.g, l);
    HandedInv(k, l);
    if ws != [] && At(k'.eff, Top(k.eff, ws)) > At(k'.eff, k.cur) {
      YieldTop(k');
    } else {
      HandedTop(k, l);
    }
  }

  lemma HandedTop(k: Sched, l: Lock)
    requires Inv(k) && TopRuns(k) && Releasing(k, l)
    requires WaitersOf(k.g, l) != [] ==> At(k.eff, Top(k.eff, WaitersOf(k.g, l))) <= At(DropLock(k, l).eff, k.cur)
    ensures TopRuns(Handed(k, l))
  {
    var k' := Handed(k, l);
    assert WaitersOk(k.g, l);
    ReleaseKeepsPriority(k, l);
    if k'.ready != [] {
      var t := k'.ready[0];
      assert t in k'.ready;
      if t in k.ready && t != k.ready[0] {
        assert t in k.ready[1..];
        HeadLeads(k.eff, k.ready, t);
      }
    }
  }

  lemma SetPriorityTop(k: Sched, p: int)
    requires Inv(k)
    ensures TopRuns(SetPriority(k, p))
  {
    RebasedInv(k, p);
    if Rebased(k, p).ready != [] && At(Rebased(k, p).eff, Rebased(k, p).ready[0]) > At(Rebased(k, p).eff, k.cur) {
      YieldTop(Rebased(k, p));
    }
  }

  lemma AcquireTop(k: Sched, l: Lock, n: nat)
    requires Inv(k) && TopRuns(k) && k.cur != IDLE && NoDeadlock(k, l, n)
    ensures TopRuns(Acquire(k, l, n))
  {
    if l in k.g.holder { BlockedTop(k, l, n); }
  }

  lemma BlockedTop(k: Sched, l: Lock, n: nat)
    requires Inv(k) && k.cur != IDLE && NoDeadlock(k, l, n) && l in k.g.holder
    ensures TopRuns(Acquire(k, l, n))
  {
    var e, h, p := Enlist(k, l), k.g.holder[l], At(k.eff, k.cur);
    EnlistPending(k, l);
    NoSelfWait(e.g, h, n);
    assert Blocks(e.g, k.cur, h);
    StepPending(e, k.cur, h);
    RaiseQueue(e, h, p);
    if p > At(k.eff, h) { PropagateExact(Raise(e, h, p), h, n); }
  }

  // ---------------------------------------------------------------- what exactness means

  /** `u` waits for `t` through a chain of `n` locks. */
  predicate Reaches(g: Graph, u: Tid, t: Tid, n: nat)
    decreases n
  {
    if n == 0 then u == t
    else u in g.waiting && g.waiting[u] in g.holder && Reaches(g, g.holder[g.waiting[u]], t, n - 1)
  }

  lemma {:induction false} DonorsBelow(k: Sched, u: Tid, t: Tid, n: nat)
    requires AllExact(k) && Reaches(k.g, u, t, n)
    ensures At(k.base, u) <= At(k.eff, u) <= At(k.eff, t)
    decreases n
  {
    assert Exact(k, u);
    if n > 0 {
      var v := k.g.holder[k.g.waiting[u]];
      DonorsBelow(k, v, t, n - 1);
      assert Exact(k, v) && Blocks(k.g, u, v);
    }
  }

  function Depth(g: Graph, t: Tid, n: nat): (d: nat)
    requires ChainEnds(g, t, n)
    ensures d <= n
    decreases n
  {
    if t !in g.waiting || g.waiting[t] !in g.holder then 0 else 1 + Depth(g, g.holder[g.waiting[t]], n - 1)
  }

  lemma {:induction false} DepthBound(g: Graph, t: Tid, n: nat, m: nat)
    requires ChainEnds(g, t, n) && ChainEnds(g, t, m)
    ensures Depth(g, t, n) == Depth(g, t, m)
    decreases n
  {
    if t in g.waiting && g.waiting[t] in g.holder {
      DepthBound(g, g.holder[g.waiting[t]], n - 1, m - 1);
    }
  }

  lemma {:induction false} ReachesThrough(g: Graph, u: Tid, w: Tid, t: Tid, n: nat)
    requires Reaches(g, u, w, n) && Blocks(g, w, t)
    ensures Reaches(g, u, t, n + 1)
    decreases n
  {
    if n > 0 {
      ReachesThrough(g, g.holder[g.waiting[u]], w, t, n - 1);
    } else {
      assert Reaches(g, t, t, 0);
    }
  }

  /** Some thread that waits for `t`, directly or not, or `t` itself, has that very base priority. */
  lemma {:induction false} Donor(k: Sched, t: Tid, bound: nat) returns (u: Tid, n: nat)
    requires AllExact(k) && Bounded(k.g, bound)
    ensures Reaches(k.g, u, t, n) && At(k.base, u) == At(k.eff, t)
    decreases bound - (assert ChainEnds(k.g, t, bound); Depth(k.g, t, bound))
  {
    assert Exact(k, t);
    if At(k.eff, t) == At(k.base, t) {
      u, n := t, 0;
    } else {
      var w :| Blocks(k.g, w, t) && At(k.eff, w) == At(k.eff, t);
      assert ChainEnds(k.g, w, bound) && ChainEnds(k.g, t, bound);
      DepthBound(k.g, t, bound - 1, bound);
      u, n := Donor(k, w, bound);
      ReachesThrough(k.g, u, w, t, n);
      n := n + 1;
    }
  }

  /** The effective priority of `t` is the maximum of the base priorities of itself and of every thread that
      waits, through any chain of locks, for a lock it holds. */
  ghost predicate IsMaximum(k: Sched, t: Tid) {
    && (forall u, n: nat :: Reaches(k.g, u, t, n) ==> At(k.base, u) <= At(k.eff, t))
    && exists u, n: nat :: Reaches(k.g, u, t, n) && At(k.base, u) == At(k.eff, t)
  }

  lemma ExactIsMaximum(k: Sched, t: Tid)
    requires AllExact(k) && Acyclic(k.g)
    ensures IsMaximum(k, t)
  {
    forall u, n: nat | Reaches(k.g, u, t, n) ensures At(k.base, u) <= At(k.eff, t) {
      DonorsBelow(k, u, t, n);
    }
    var bound: nat :| Bounded(k.g, bound);
    var u, n := Donor(k, t, bound);
  }

  /** A chain that ends at `t` goes through one of its waiters. */
  lemma {:induction false} LastHop(g: Graph, u: Tid, t: Tid, n: nat) returns (w: Tid)
    requires n > 0 && Reaches(g, u, t, n)
    ensures Blocks(g, w, t) && Reaches(g, u, w, n - 1)
    decreases n
  {
    if n == 1 {
      w := u;
      assert Reaches(g, g.holder[g.waiting[u]], t, 0);
    } else {
      w := LastHop(g, g.holder[g.waiting[u]], t, n - 1);
    }
  }

  lemma MaximumIsExact(k: Sched, t: Tid)
    requires forall u :: IsMaximum(k, u)
    ensures Exact(k, t)
  {
    assert IsMaximum(k, t) && Reaches(k.g, t, t, 0);
    forall w | Blocks(k.g, w, t) ensures At(k.eff, w) <= At(k.eff, t) {
      assert IsMaximum(k, w);
      var u, n: nat :| Reaches(k.g, u, w, n) && At(k.base, u) == At(k.eff, w);
      ReachesThrough(k.g, u, w, t, n);
    }
    var u, n: nat :| Reaches(k.g, u, t, n) && At(k.base, u) == At(k.eff, t);
    if n > 0 {
      var w := LastHop(k.g, u, t, n);
      assert IsMaximum(k, w);
    }
  }

  /** Donation is exact: the local condition that every step keeps holds everywhere exactly when every effective
      priority is that maximum. */
  lemma DonationExact(k: Sched)
    requires Acyclic(k.g)
    ensures AllExact(k) <==> forall t :: IsMaximum(k, t)
  {
    if AllExact(k) {
      forall t ensures IsMaximum(k, t) { ExactIsMaximum(k, t); }
    }
    if forall t :: IsMaximum(k, t) {
      forall t ensures Exact(k, t) { MaximumIsExact(k, t); }
    }
  }

  // ---------------------------------------------------------------- every run

  datatype Op =
    | DoAcquire(lock: Lock, bound: nat) | DoRelease(lock: Lock) | DoSetPriority(priority: int)
    | DoYield | DoSleep | DoWake(thread: Tid)

  /** What the kernel asserts of the caller, and that an acquire does not deadlock. */
  ghost predicate Allowed(k: Sched, op: Op) {
    match op
    case DoAcquire(l, n) => k.cur != IDLE && NoDeadlock(k, l, n)
    case DoRelease(l) => l in k.g.holder && k.g.holder[l] == k.cur
    case DoWake(t) => t !in k.ready && t != k.cur && t != IDLE && t !in k.g.waiting
    case _ => true
  }

  ghost function Apply(k: Sched, op: Op): Sched
    requires Allowed(k, op)
  {
    match op
    case DoAcquire(l, n) => Acquire(k, l, n)
    case DoRelease(l) => Release(k, l)
    case DoSetPriority(p) => SetPriority(k, p)
    case DoYield => YieldCpu(k)
    case DoSleep => Dispatch(k)
    case DoWake(t) => Wake(k, t)
  }

  /** A freshly booted scheduler: no locks, and effective priorities equal to base priorities. */
  ghost predicate Boot(k: Sched) {
    && k.g == Graph(map[], map[], map[], map[]) && k.eff == k.base
    && SortedBy(k.eff, k.ready) && Distinct(k.ready) && k.cur !in k.ready && IDLE !in k.ready
  }

  ghost predicate Run(states: seq<Sched>, ops: seq<Op>) {
    && |states| == |ops| + 1 && Boot(states[0])
    && forall i :: 0 <= i < |ops| ==> Allowed(states[i], ops[i]) && states[i + 1] == Apply(states[i], ops[i])
  }

  lemma BootInv(k: Sched)
    requires Boot(k)
    ensures Inv(k)
  {
    assert Bounded(k.g, 0);
  }

  lemma ApplyInv(k: Sched, op: Op)
    requires Inv(k) && Allowed(k, op)
    ensures Inv(Apply(k, op))
  {
    match op {
      case DoAcquire(l, n) => AcquireInv(k, l, n);
      case DoRelease(l) => ReleaseInv(k, l);
      case DoSetPriority(p) => SetPriorityInv(k, p);
      case DoYield => YieldInv(k);
      case DoSleep => DispatchInv(k);
      case DoWake(t) => WakeInv(k, t);
    }
  }

  /** Every operation except a wake-up keeps the highest-priority thread running. */
  lemma ApplyTop(k: Sched, op: Op)
    requires Inv(k) && Allowed(k, op) && TopRuns(k) && !op.DoWake?
    ensures TopRuns(Apply(k, op))
  {
    match op {
      case DoAcquire(l, n) => AcquireTop(k, l, n);
      case DoRelease(l) => ReleaseTop(k, l);
      case DoSetPriority(p) => SetPriorityTop(k, p);
      case DoYield => if k.cur != IDLE || k.ready != [] { YieldTop(k); }
      case DoSleep => if k.ready != [] { DispatchTop(k); }
    }
  }

  /** In every state of every run, donation is exact and the ready list is in priority order. */
  lemma {:induction false} RunExact(states: seq<Sched>, ops: seq<Op>, i: nat, t: Tid)
    requires Run(states, ops) && i < |states|
    ensures Inv(states[i])
    ensures SortedBy(states[i].eff, states[i].ready)
    ensures forall u, n: nat :: Reaches(states[i].g, u, t, n) ==> At(states[i].base, u) <= At(states[i].eff, t)
    ensures exists u, n: nat :: Reaches(states[i].g, u, t, n) && At(states[i].base, u) == At(states[i].eff, t)
  {
    if i == 0 {
      BootInv(states[0]);
    } else {
      RunExact(states, ops, i - 1, t);
      ApplyInv(states[i - 1], ops[i - 1]);
    }
    ExactIsMaximum(states[i], t);
  }
}
