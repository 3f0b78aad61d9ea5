/** Who gets the readers-writers lock: exactly when a thread is let in, exactly whom a release wakes, and that no
    reader overtakes a waiting writer. Everything is said about where threads are, not about the counters. */
module RwPreference {
  import opened RwLock

  /** Some thread is in the role. */
  ghost predicate Anybody(c: Sys, role: Role) { exists t :: t in c.pcs && RoleOf(c.pcs[t]) == role }

  lemma AnybodyCounts(c: Sys, role: Role)
    ensures Anybody(c, role) <==> |InRole(c.pcs, role)| > 0
  {
    if t :| t in c.pcs && RoleOf(c.pcs[t]) == role { SomeInRole(c, role, t); }
    if |InRole(c.pcs, role)| > 0 {
      var t :| t in InRole(c.pcs, role);
      assert RoleOf(c.pcs[t]) == role;
    }
  }

  // ---------------------------------------------------------------- being let in

  /** A reader is let in exactly when no writer is inside or waiting, and a writer exactly when nobody is inside;
      otherwise it goes to sleep. Nobody else moves. */
  lemma GrantExact(c: Sys, t: nat, c': Sys)
    requires Inv(c) && t in c.pcs && c.pcs[t].Testing? && Step(c, t, c')
    ensures c'.pcs.Keys == c.pcs.Keys && forall u :: u in c.pcs && u != t ==> c'.pcs[u] == c.pcs[u]
    ensures c.pcs[t].reader ==>
      c'.pcs[t] == if Anybody(c, ActiveWriter) || Anybody(c, WaitingWriter) then Asleep(true) else Granted(true)
    ensures !c.pcs[t].reader ==>
      c'.pcs[t] == if Anybody(c, ActiveReader) || Anybody(c, ActiveWriter) then Asleep(false) else Granted(false)
  {
    AnybodyCounts(c, ActiveReader);
    AnybodyCounts(c, ActiveWriter);
    AnybodyCounts(c, WaitingWriter);
  }

  // ---------------------------------------------------------------- leaving

  /** The threads other than `t` that a step has taken out of their sleep. */
  ghost function Woken(c: Sys, t: nat, c': Sys): set<nat> {
    set u | u in c.pcs && u in c'.pcs && u != t && c.pcs[u].Asleep? && c'.pcs[u] != c.pcs[u]
  }

  ghost function Sleepers(c: Sys, reader: bool): set<nat> { set u | u in c.pcs && c.pcs[u] == Asleep(reader) }

  /** One sleeping writer if there is any, and nobody else. */
  ghost predicate OneWriter(c: Sys, woken: set<nat>) {
    woken <= Sleepers(c, false) && |woken| == if Sleepers(c, false) == {} then 0 else 1
  }

  /** The last reader to leave wakes one writer if writers wait, and any other reader wakes nobody. A writer that leaves
      wakes one writer if writers wait, and all readers if none do. */
  lemma ReleaseExact(c: Sys, t: nat, c': Sys)
    requires Inv(c) && t in c.pcs && c.pcs[t].Releasing? && Step(c, t, c')
    ensures c'.pcs.Keys == c.pcs.Keys && c'.pcs[t] == Leaving
    ensures forall u :: u in c.pcs && u != t ==> c'.pcs[u] == c.pcs[u] || (c.pcs[u].Asleep? && c'.pcs[u] == Signalled(c.pcs[u].reader))
    ensures var last := c.pcs[t].reader ==> InRole(c.pcs, ActiveReader) == {t};
      var woken := Woken(c, t, c');
      if last && Anybody(c, WaitingWriter) then OneWriter(c, woken)
      else if c.pcs[t].reader then woken == {}
      else woken == Sleepers(c, true)
  {
    AnybodyCounts(c, WaitingWriter);
    AnybodyCounts(c, WaitingReader);
    if c.pcs[t].reader { ReleaseReader(c, t, c'); } else { ReleaseWriter(c, t, c'); }
  }

  lemma OnlyMember(s: set<nat>, t: nat)
    requires t in s
    ensures |s| == 1 <==> s == {t}
  {
    CardSplit(s, t);
    if |s - {t}| == 0 { assert s - {t} == {}; }
  }

  /** A signal wakes one sleeping writer if there is any. */
  lemma SignalExact(c: Sys, t: nat, c': Sys)
    requires t in c.pcs && c.pcs[t].Releasing? && Signals(c.pcs[t := Leaving], false, c'.pcs)
    ensures c'.pcs.Keys == c.pcs.Keys && c'.pcs[t] == Leaving && OneWriter(c, Woken(c, t, c'))
    ensures forall u :: u in c.pcs && u != t ==> c'.pcs[u] == c.pcs[u] || (c.pcs[u].Asleep? && c'.pcs[u] == Signalled(c.pcs[u].reader))
  {
    var pcs := c.pcs[t := Leaving];
    if c'.pcs == pcs && forall u :: u in pcs ==> pcs[u] != Asleep(false) {
      forall u | u in c.pcs ensures c.pcs[u] != Asleep(false) { assert u != t ==> pcs[u] == c.pcs[u]; }
      assert Woken(c, t, c') == {} && Sleepers(c, false) == {};
    } else {
      var u :| u in pcs && pcs[u] == Asleep(false) && c'.pcs == pcs[u := Signalled(false)];
      assert Woken(c, t, c') == {u} && u in Sleepers(c, false);
    }
  }

  lemma ReleaseReader(c: Sys, t: nat, c': Sys)
    requires Inv(c) && t in c.pcs && c.pcs[t] == Releasing(true) && Step(c, t, c')
    ensures c'.pcs.Keys == c.pcs.Keys && c'.pcs[t] == Leaving
    ensures forall u :: u in c.pcs && u != t ==> c'.pcs[u] == c.pcs[u] || (c.pcs[u].Asleep? && c'.pcs[u] == Signalled(c.pcs[u].reader))
    ensures if InRole(c.pcs, ActiveReader) == {t} && Anybody(c, WaitingWriter) then OneWriter(c, Woken(c, t, c')) else Woken(c, t, c') == {}
  {
    AnybodyCounts(c, WaitingWriter);
    assert t in InRole(c.pcs, ActiveReader);
    OnlyMember(InRole(c.pcs, ActiveReader), t);
    if c.ar - 1 == 0 && c.ww > 0 { SignalExact(c, t, c'); }
  }

  lemma NoSleepers(c: Sys, reader: bool)
    requires !Anybody(c, if reader then WaitingReader else WaitingWriter)
    ensures Sleepers(c, reader) == {}
  {
  }

  lemma ReleaseWriter(c: Sys, t: nat, c': Sys)
    requires Inv(c) && t in c.pcs && c.pcs[t] == Releasing(false) && Step(c, t, c')
    ensures c'.pcs.Keys == c.pcs.Keys && c'.pcs[t] == Leaving
    ensures forall u :: u in c.pcs && u != t ==> c'.pcs[u] == c.pcs[u] || (c.pcs[u].Asleep? && c'.pcs[u] == Signalled(c.pcs[u].reader))
    ensures if Anybody(c, WaitingWriter) then OneWriter(c, Woken(c, t, c')) else Woken(c, t, c') == Sleepers(c, true)
  {
    AnybodyCounts(c, WaitingWriter);
    AnybodyCounts(c, WaitingReader);
    if c.ww > 0 {
      SignalExact(c, t, c');
    } else {
      NoSleepers(c, false);
      if c.wr == 0 { NoSleepers(c, true); }
    }
  }

  // ---------------------------------------------------------------- no reader overtakes a waiting writer

  /** Only a test of the lock makes an active reader. */
  lemma OthersAddNone(c: Sys, t: nat, c': Sys)
    requires t in c.pcs && Step(c, t, c') && !c.pcs[t].Testing? && !c.pcs[t].Releasing?
    ensures InRole(c'.pcs, ActiveReader) <= InRole(c.pcs, ActiveReader)
  {
    assert c'.pcs == c.pcs[t := c'.pcs[t]];
    assert RoleOf(c'.pcs[t]) == ActiveReader ==> RoleOf(c.pcs[t]) == ActiveReader;
    SameOthers(c.pcs, t, c'.pcs[t], ActiveReader);
  }

  lemma ReleaseAddsNone(c: Sys, t: nat, c': Sys)
    requires Inv(c) && t in c.pcs && Step(c, t, c') && c.pcs[t].Releasing?
    ensures InRole(c'.pcs, ActiveReader) <= InRole(c.pcs, ActiveReader)
  {
    ReleaseExact(c, t, c');
  }

  lemma TestAddsNone(c: Sys, t: nat, c': Sys)
    requires Inv(c) && t in c.pcs && Step(c, t, c') && c.pcs[t].Testing? && Anybody(c, WaitingWriter)
    ensures InRole(c'.pcs, ActiveReader) <= InRole(c.pcs, ActiveReader)
  {
    GrantExact(c, t, c');
  }

  lemma NoNewReader(c: Sys, c': Sys)
    requires Inv(c) && Next(c, c') && Anybody(c, WaitingWriter)
    ensures InRole(c'.pcs, ActiveReader) <= InRole(c.pcs, ActiveReader)
  {
    var t :| t in c.pcs && Step(c, t, c');
    if c.pcs[t].Testing? {
      TestAddsNone(c, t, c');
    } else if c.pcs[t].Releasing? {
      ReleaseAddsNone(c, t, c');
    } else {
      OthersAddNone(c, t, c');
    }
  }

  ghost function ReadersInside(c: Sys): set<nat> { InRole(c.pcs, ActiveReader) }

  lemma RunAddsNone(cs: seq<Sys>, k: nat)
    requires Run(cs) && k + 1 < |cs| && Anybody(cs[k], WaitingWriter)
    ensures ReadersInside(cs[k + 1]) <= ReadersInside(cs[k])
  {
    LockRunKeeps(cs, k);
    NoNewReader(cs[k], cs[k + 1]);
  }

  lemma {:induction false} Shrinks(sets: seq<set<nat>>, j: nat, k: nat)
    requires j <= k < |sets| && forall i :: j <= i < k ==> sets[i + 1] <= sets[i]
    ensures sets[k] <= sets[j]
    decreases k
  {
    if j < k {
      Shrinks(sets, j, k - 1);
      assert sets[k - 1 + 1] <= sets[k - 1];
    }
  }

  /** In every run: while a writer waits, asleep or signalled, the set of readers inside never gains a member. */
  lemma WritersPreferred(cs: seq<Sys>, j: nat, k: nat)
    requires Run(cs) && j <= k < |cs| && forall i :: j <= i < k ==> Anybody(cs[i], WaitingWriter)
    ensures ReadersInside(cs[k]) <= ReadersInside(cs[j])
  {
    var sets := seq(|cs|, i requires 0 <= i < |cs| => ReadersInside(cs[i]));
    forall i | j <= i < k ensures sets[i + 1] <= sets[i] { RunAddsNone(cs, i); }
    Shrinks(sets, j, k);
  }
}
