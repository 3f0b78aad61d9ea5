/** More threads than slots: even threads that keep to different sectors can stop the kernel, by loading every
    slot at once. So the bound on the number of threads is exact. */
module CacheFull {
  import opened Cache
  import opened CacheSlots
  import opened CacheHalts

  /** A run of `m` threads over `n` slots in which no two threads are in an operation on one sector. */
  ghost predicate ApartRun(cs: seq<Sys>, m: nat, n: nat) {
    && Run(cs) && |cs[0].pcs.Keys| == m && |cs[0].entries| == n
    && forall j :: 0 <= j < |cs| ==> Apart(cs[j])
  }

  ghost predicate NeverHalts(m: nat, n: nat) {
    forall cs: seq<Sys> :: ApartRun(cs, m, n) ==> !cs[|cs| - 1].halted
  }

  ghost predicate Reaches(c: Sys, m: nat, n: nat) { exists cs :: ApartRun(cs, m, n) && cs[|cs| - 1] == c }

  lemma ReachesStep(c: Sys, t: nat, c': Sys, m: nat, n: nat)
    requires Reaches(c, m, n) && !c.halted && t in c.pcs && Step(c, t, c') && Apart(c')
    ensures Reaches(c', m, n)
  {
    var cs :| ApartRun(cs, m, n) && cs[|cs| - 1] == c;
    assert Next(c, c');
    assert ApartRun(cs + [c'], m, n);
  }

  /** Threads 0 to k - 1 each load their own sector into their own slot; the others have done nothing. */
  function Filled(m: nat, n: nat, k: nat): Sys {
    Sys(map t: nat | t < m :: if t < k then Loading(t, t) else Idle,
        seq(n, i requires 0 <= i < n => if i < k then Entry(LOADING, i) else Entry(INVALID, 0)), false)
  }

  /** The same, with thread `k` on its way. */
  function FilledAt(m: nat, n: nat, k: nat, pc: Pc): Sys { Goto(Filled(m, n, k), k, pc) }

  lemma {:induction false} CountBelow(ts: set<nat>, m: nat)
    requires forall t: nat :: t in ts <==> t < m
    ensures |ts| == m
  {
    if m > 0 {
      CountBelow(ts - {m - 1}, m - 1);
    } else {
      assert ts == {};
    }
  }

  lemma FilledApart(m: nat, n: nat, k: nat, pc: Pc)
    requires k < m && forall s: nat :: WorksOn(pc, s) ==> s == k
    ensures Apart(FilledAt(m, n, k, pc))
  {
  }

  lemma StartFilling(m: nat, n: nat)
    requires m > 0
    ensures Reaches(FilledAt(m, n, 0, Idle), m, n)
  {
    var c := FilledAt(m, n, 0, Idle);
    CountBelow(c.pcs.Keys, m);
    FilledApart(m, n, 0, Idle);
    assert ApartRun([c], m, n);
  }

  lemma FilledGoto(m: nat, n: nat, k: nat, pc: Pc, pc': Pc)
    ensures Goto(FilledAt(m, n, k, pc), k, pc') == FilledAt(m, n, k, pc')
  {
  }

  lemma FillStep(m: nat, n: nat, k: nat, pc: Pc, pc': Pc)
    requires k < m && Reaches(FilledAt(m, n, k, pc), m, n) && forall s: nat :: WorksOn(pc', s) ==> s == k
    requires Step(FilledAt(m, n, k, pc), k, Goto(FilledAt(m, n, k, pc), k, pc'))
    ensures Reaches(FilledAt(m, n, k, pc'), m, n)
  {
    FilledGoto(m, n, k, pc, pc');
    FilledApart(m, n, k, pc');
    ReachesStep(FilledAt(m, n, k, pc), k, FilledAt(m, n, k, pc'), m, n);
  }

  /** Nobody holds a lock. */
  lemma FilledFree(m: nat, n: nat, k: nat, s: nat)
    requires k < m
    ensures GlobalFree(FilledAt(m, n, k, WantGlobal(Access, s)))
  {
  }

  lemma NextMisses(m: nat, n: nat, k: nat)
    requires k < m && Reaches(FilledAt(m, n, k, Idle), m, n)
    ensures Reaches(FilledAt(m, n, k, Missed(k)), m, n)
  {
    FillStep(m, n, k, Idle, WantGlobal(Access, k));
    FilledFree(m, n, k, k);
    FillStep(m, n, k, WantGlobal(Access, k), Looking(Access, k));
    FillStep(m, n, k, Looking(Access, k), Missed(k));
  }

  lemma NextChooses(m: nat, n: nat, k: nat)
    requires k < n && k < m && Reaches(FilledAt(m, n, k, Missed(k)), m, n)
    ensures Reaches(FilledAt(m, n, k, Chosen(k, k)), m, n)
  {
    assert FilledAt(m, n, k, Missed(k)).entries[k].state == INVALID;
    FillStep(m, n, k, Missed(k), Chosen(k, k));
  }

  lemma ReservedApart(m: nat, n: nat, k: nat)
    requires k < n && k < m
    ensures Apart(Reserve(FilledAt(m, n, k, Chosen(k, k)), k, k, k))
  {
  }

  lemma ReservedFilled(m: nat, n: nat, k: nat)
    requires k < n && k + 1 < m
    ensures Goto(Reserve(FilledAt(m, n, k, Chosen(k, k)), k, k, k), k, Loading(k, k)) == FilledAt(m, n, k + 1, Idle)
  {
    var c, c' := Goto(Reserve(FilledAt(m, n, k, Chosen(k, k)), k, k, k), k, Loading(k, k)), FilledAt(m, n, k + 1, Idle);
    assert c.pcs == c'.pcs && c.entries == c'.entries;
  }

  lemma NextReserves(m: nat, n: nat, k: nat)
    requires k < n && k + 1 < m && Reaches(FilledAt(m, n, k, Chosen(k, k)), m, n)
    ensures Reaches(FilledAt(m, n, k + 1, Idle), m, n)
  {
    var c := FilledAt(m, n, k, Chosen(k, k));
    var c1 := Reserve(c, k, k, k);
    var c2 := Goto(c1, k, Loading(k, k));
    ReservedApart(m, n, k);
    ReachesStep(c, k, c1, m, n);
    ReservedFilled(m, n, k);
    FilledApart(m, n, k + 1, Idle);
    ReachesStep(c1, k, c2, m, n);
  }

  lemma FillOne(m: nat, n: nat, k: nat)
    requires k < n && k + 1 < m && Reaches(FilledAt(m, n, k, Idle), m, n)
    ensures Reaches(FilledAt(m, n, k + 1, Idle), m, n)
  {
    NextMisses(m, n, k);
    NextChooses(m, n, k);
    NextReserves(m, n, k);
  }

  lemma {:induction false} Fill(m: nat, n: nat, k: nat)
    requires k <= n < m
    ensures Reaches(FilledAt(m, n, k, Idle), m, n)
  {
    if k == 0 {
      StartFilling(m, n);
    } else {
      Fill(m, n, k - 1);
      FillOne(m, n, k - 1);
    }
  }

  /** The thread after the last slot finds every slot LOADING. */
  lemma FullHalts(m: nat, n: nat)
    requires n < m
    ensures !NeverHalts(m, n)
  {
    Fill(m, n, n);
    NextMisses(m, n, n);
    var c := FilledAt(m, n, n, Missed(n));
    assert HaltsNext(c, n) && Step(c, n, Halt(c));
    FilledApart(m, n, n, Missed(n));
    ReachesStep(c, n, Halt(c), m, n);
  }

  /** Threads that keep to different sectors never stop the kernel exactly when there are no more of them than slots. */
  lemma ThreadBoundExact(m: nat, n: nat)
    ensures NeverHalts(m, n) <==> m <= n
  {
    if m <= n {
      forall cs: seq<Sys> | ApartRun(cs, m, n) ensures !cs[|cs| - 1].halted { ApartIsSafe(cs, |cs| - 1); }
    } else {
      FullHalts(m, n);
    }
  }
}
