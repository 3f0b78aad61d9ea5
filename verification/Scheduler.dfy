/** The same operations as the kernel runs them: fields updated in place, lists scanned in loops. */
module Scheduler {
  import opened Donation

  class Kernel {
    var holder: map<Lock, Tid>
    var waiting: map<Tid, Lock>
    var waiters: map<Lock, seq<Tid>>
    var held: map<Tid, seq<Lock>>
    var base: map<Tid, int>
    var eff: map<Tid, int>
    var ready: seq<Tid>
    var cur: Tid

    ghost function State(): Sched
      reads this
    {
      Sched(Graph(holder, waiting, waiters, held), base, eff, ready, cur)
    }

    function Waiters(l: Lock): (ws: seq<Tid>)
      reads this
      ensures ws == WaitersOf(State().g, l)
    {
      if l in waiters then waiters[l] else []
    }

    function Held(t: Tid): (ls: seq<Lock>)
      reads this
      ensures ls == HeldBy(State().g, t)
    {
      if t in held then held[t] else []
    }

    /** list_max over a waiter list. */
    method ListMax(ws: seq<Tid>) returns (max: Tid)
      requires ws != []
      ensures max == Top(eff, ws)
    {
      max := ws[0];
      assert ws[..1] == [ws[0]];
      for i := 1 to |ws|
        invariant max == Top(eff, ws[..i])
      {
        assert ws[..i + 1][..i] == ws[..i];
        if At(eff, max) < At(eff, ws[i]) { max := ws[i]; }
      }
      assert ws[..|ws|] == ws;
    }

    /** list_insert_ordered into the ready list. */
    method InsertReady(t: Tid)
      modifies this`ready
      ensures ready == Insert(eff, old(ready), t)
    {
      var i := 0;
      assert ready[..0] + Insert(eff, ready[0..], t) == Insert(eff, ready, t) by { assert ready[0..] == ready; }
      while i < |ready| && At(eff, t) <= At(eff, ready[i])
        invariant 0 <= i <= |ready| && ready == old(ready)
        invariant Insert(eff, ready, t) == ready[..i] + Insert(eff, ready[i..], t)
      {
        InsertSkips(eff, ready, t, i);
        i := i + 1;
      }
      InsertStops(eff, ready, t, i);
      ready := ready[..i] + [t] + ready[i..];
    }

    /** The effective priority of the current thread from scratch: its base and the waiters of `locks`. */
    method MaxDonation(locks: seq<Lock>, p: int) returns (max: int)
      ensures max == Recompute(eff, State().g, locks, p)
    {
      max := p;
      ghost var g := State().g;
      assert locks[0..] == locks;
      for i := 0 to |locks|
        invariant Recompute(eff, g, locks[i..], max) == Recompute(eff, g, locks, p)
      {
        assert locks[i..][0] == locks[i] && locks[i..][1..] == locks[i + 1..];
        var ws := Waiters(locks[i]);
        if ws != [] {
          var w := ListMax(ws);
          if At(eff, w) > max { max := At(eff, w); }
        }
      }
    }

    method Schedule()
      modifies this`ready, this`cur
      ensures State() == Dispatch(old(State()))
    {
      if ready == [] {
        cur := IDLE;
      } else {
        cur, ready := ready[0], ready[1..];
      }
    }

    method ThreadYield()
      modifies this`ready, this`cur
      ensures State() == YieldCpu(old(State()))
    {
      if cur != IDLE { InsertReady(cur); }
      Schedule();
    }

    /** Raises one thread and re-sorts it if it is on the ready list. */
    method RaiseTo(t: Tid, p: int)
      modifies this`eff, this`ready
      ensures State() == Raise(old(State()), t, p)
    {
      eff := eff[t := p];
      if t in ready {
        ready := Without(ready, t);
        InsertReady(t);
      }
    }

    /** The chain walk. It terminates because the chain of waits does. */
    method DonateAlong(first: Tid, ghost n: nat)
      requires ChainEnds(State().g, first, n)
      modifies this`eff, this`ready
      ensures State() == Propagate(old(State()), first, n)
    {
      var t := first;
      ghost var m := n;
      while t in waiting && waiting[t] in holder
        invariant ChainEnds(State().g, t, m)
        invariant Propagate(State(), t, m) == Propagate(old(State()), first, n)
        decreases m
      {
        var next := holder[waiting[t]];
        if At(eff, t) > At(eff, next) { RaiseTo(next, At(eff, t)); }
        t := next;
        m := m - 1;
      }
    }

    /** lock_acquire under SCHED_PRIO. */
    method LockAcquire(l: Lock, ghost n: nat)
      requires cur != IDLE && NoDeadlock(State(), l, n)
      modifies this
      ensures State() == Acquire(old(State()), l, n)
    {
      if l !in holder {
        holder, held := holder[l := cur], held[cur := Held(cur) + [l]];
        return;
      }
      waiting, waiters := waiting[cur := l], waiters[l := Waiters(l) + [cur]];
      var h := holder[l];
      if At(eff, cur) > At(eff, h) {
        RaiseTo(h, At(eff, cur));
        DonateAlong(h, n);
      }
      Schedule();
    }

    /** Gives up `l` and falls back to what the remaining locks' waiters donate. */
    method Drop(l: Lock)
      modifies this`held, this`holder, this`eff
      ensures State() == DropLock(old(State()), l)
    {
      var locks := Without(Held(cur), l);
      var p := MaxDonation(locks, At(base, cur));
      held, holder, eff := held[cur := locks], holder - {l}, eff[cur := p];
    }

    /** Wakes `w` as the new holder of `l`. */
    method HandTo(l: Lock, w: Tid)
      modifies this`held, this`holder, this`waiting, this`waiters, this`ready
      ensures State() == HandOver(old(State()), l, w)
    {
      holder, waiting, waiters := holder[l := w], waiting - {w}, waiters[l := Without(Waiters(l), w)];
      held := held[w := Held(w) + [l]];
      InsertReady(w);
    }

    /** lock_release under SCHED_PRIO, with the lock handed to the thread it wakes. */
    method LockRelease(l: Lock)
      requires l in holder && holder[l] == cur
      modifies this
      ensures State() == Release(old(State()), l)
    {
      var ws := Waiters(l);
      if ws == [] {
        Drop(l);
      } else {
        var w := ListMax(ws);
        Drop(l);
        HandTo(l, w);
        if At(eff, w) > At(eff, cur) { ThreadYield(); }
      }
    }

    method ThreadSetPriority(p: int)
      modifies this
      ensures State() == SetPriority(old(State()), p)
    {
      base := base[cur := p];
      var max := MaxDonation(Held(cur), p);
      eff := eff[cur := max];
      if ready != [] && At(eff, ready[0]) > At(eff, cur) { ThreadYield(); }
    }
  }

  lemma InsertSkips(eff: map<Tid, int>, ready: seq<Tid>, t: Tid, i: nat)
    requires i < |ready| && At(eff, t) <= At(eff, ready[i])
    ensures ready[..i] + Insert(eff, ready[i..], t) == ready[..i + 1] + Insert(eff, ready[i + 1..], t)
  {
    assert ready[i..][1..] == ready[i + 1..];
    assert ready[..i + 1] == ready[..i] + [ready[i]];
  }

  lemma InsertStops(eff: map<Tid, int>, ready: seq<Tid>, t: Tid, i: nat)
    requires i <= |ready| && (i < |ready| ==> At(eff, t) > At(eff, ready[i]))
    ensures ready[..i] + Insert(eff, ready[i..], t) == ready[..i] + [t] + ready[i..]
  {
  }
}
