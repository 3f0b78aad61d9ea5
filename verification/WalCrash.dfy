/** Crash safety over whole runs: logging, cached writes, write-back, log flushes and aborts in any
    order the code allows, with a crash possible between any two steps. */
module WalCrash {
  import opened Sectors
  import opened WalHistory
  import opened WalRecovery

  datatype Phase = Running | RollingBack(txn: nat, done: nat)

  /** `h` is every record appended so far and `durable` how many of them are on disk; `applied` is how
      many are reflected in the cache. `disk` is the data region a crash would leave. */
  datatype Sys = Sys(h: seq<Record>, durable: nat, applied: nat, phase: Phase, cache: Image, disk: Image)

  datatype Step =
    | Append(rec: Record)     // wal_append_record of anything but an ABORT record
    | ApplyWrite              // the cache_write that follows a logged write
    | FlushLog(upTo: nat)     // wal_flush
    | WriteBack(sector: nat)  // eviction or flush of one cached sector
    | StartAbort(txn: nat)    // wal_txn_abort flushes the log
    | UndoOne                 // ... restores one before-image through the cache
    | EndAbort                // ... flushes the cache and appends the ABORT record

  function Start(init: Image): Sys { Sys([], 0, 0, Running, init, init) }

  /** Log-before-data: every write the cached sector reflects is already in the durable log. */
  predicate LogFirst(x: Sys, sector: nat) {
    forall i :: x.durable <= i < x.applied && i < |x.h| && x.h[i].kind.Write? ==> x.h[i].sector != sector
  }

  ghost predicate Next(init: Image, x: Sys, step: Step, y: Sys) {
    match step
    case Append(r) =>
      x.phase.Running? && !r.kind.Abort? && CanAppend(init, x.h, r) && y == x.(h := x.h + [r])
    case ApplyWrite =>
      && x.phase.Running? && x.applied < |x.h|
      && var r := x.h[x.applied];
         y == x.(applied := x.applied + 1, cache := if r.kind.Write? then Put(x.cache, Redo(r)) else x.cache)
    case FlushLog(k) =>
      x.durable <= k <= |x.h| && y == x.(durable := k)
    case WriteBack(n) =>
      n in x.cache && LogFirst(x, n) && y == x.(disk := x.disk[n := x.cache[n]])
    case StartAbort(t) =>
      && x.phase.Running? && x.applied == |x.h| && t != 0 && Begun(x.h, t) && !Finished(x.h, t)
      && y == x.(durable := |x.h|, phase := RollingBack(t, 0))
    case UndoOne =>
      && x.phase.RollingBack? && x.phase.done < |UndoOf(x.h, x.phase.txn)|
      && y == x.(phase := RollingBack(x.phase.txn, x.phase.done + 1),
                 cache := Put(x.cache, UndoOf(x.h, x.phase.txn)[x.phase.done]))
    case EndAbort =>
      && x.phase.RollingBack? && x.phase.done == |UndoOf(x.h, x.phase.txn)|
      && y == x.(h := x.h + [Record(|x.h| + 1, x.phase.txn, Abort, 0, 0, [], [])],
                 applied := |x.h| + 1, phase := Running, disk := x.cache)
  }

  ghost predicate CacheOk(init: Image, x: Sys) {
    match x.phase
    case Running =>
      && x.applied <= |x.h| && x.cache == View(init, x.h[..x.applied])
      && forall i :: x.applied <= i < |x.h| ==> !x.h[i].kind.Abort?
    case RollingBack(t, done) =>
      && x.durable == x.applied == |x.h| && t != 0 && Begun(x.h, t) && !Finished(x.h, t) && done <= |UndoOf(x.h, t)|
      && x.cache == PutAll(View(init, x.h), UndoOf(x.h, t)[..done])
  }

  ghost predicate DiskOk(init: Image, x: Sys) {
    forall k :: x.durable <= k <= |x.h| ==> CrashImage(init, x.h[..k], x.disk)
  }

  ghost predicate Inv(init: Image, x: Sys) {
    && Logged(init, x.h) && x.durable <= |x.h| && x.applied <= |x.h|
    && CacheOk(init, x) && DiskOk(init, x)
  }

  // ---------------------------------------------------------------- which values a crash may expose

  /** While `t` is unfinished, no other transaction that wrote one of its bytes can still abort. */
  lemma UnfinishedSettles(init: Image, h: seq<Record>, m: nat, s: nat, o: nat)
    requires Logged(init, h) && m < |h| && Touches(h[m], s, o) && !Finished(h, h[m].txn)
    ensures Settled(h, m, s, o)
  {
    forall i | m <= i < |h| && h[i].kind.Abort? ensures !Wrote(h[..i], h[i].txn, s, o) {
      LoggedAt(init, h, i);
      assert h[..i][..m] == h[..m];
      if Wrote(h[..i], h[i].txn, s, o) {
        var q :| 0 <= q < i && Touches(h[..i][q], s, o) && h[..i][q].txn == h[i].txn;
        TwoWriters(init, h, m, q, s, o);
        FinishedMono(h[..i], m, h[i].txn);
        assert false;
      }
    }
  }

  lemma TwoWriters(init: Image, h: seq<Record>, m: nat, q: nat, s: nat, o: nat)
    requires Logged(init, h) && m < |h| && q < |h| && Touches(h[m], s, o) && Touches(h[q], s, o)
    requires !Finished(h, h[m].txn)
    ensures h[q].txn == h[m].txn || (q < m && Finished(h[..m], h[q].txn))
  {
    if m < q {
      LoggedAt(init, h, q);
      FinishedMono(h, q, h[m].txn);
      assert Touches(h[..q][m], s, o);
    } else if q < m {
      LoggedAt(init, h, m);
      assert Touches(h[..m][q], s, o);
    }
  }

  lemma SettledPrefix(h: seq<Record>, k: nat, j: nat, s: nat, o: nat)
    requires j <= k <= |h| && Settled(h, j, s, o)
    ensures Settled(h[..k], j, s, o)
  {
    forall i | j <= i < k && h[..k][i].kind.Abort? ensures !Wrote(h[..k][..i], h[..k][i].txn, s, o) {
      assert h[..k][..i] == h[..i];
    }
  }

  lemma CrashWitness(init: Image, h: seq<Record>, k: nat, j: nat, v: byte, s: nat, o: nat)
    requires s in init && o < SECTOR_SIZE && j <= k <= |h|
    requires Settled(h[..k], j, s, o) && v == View(init, h[..j])[s][o]
    ensures CrashByte(init, h[..k], v, s, o)
  {
    assert h[..k][..j] == h[..j];
  }

  /** A value visible after `a` records is one the durable prefix `k` allows, if no record past `k`
      wrote the byte. */
  lemma {:induction false} VisibleIsAllowed(init: Image, h: seq<Record>, k: nat, a: nat, s: nat, o: nat)
    requires Logged(init, h) && k <= a <= |h| && s in init && o < SECTOR_SIZE
    requires forall i :: k <= i < a ==> !Touches(h[i], s, o)
    ensures CrashByte(init, h[..k], View(init, h[..a])[s][o], s, o)
    decreases a
  {
    var v := View(init, h[..a])[s][o];
    if a == k {
      CrashWitness(init, h, k, k, v, s, o);
    } else {
      var g := h[..a - 1];
      assert h[..a][..a - 1] == g;
      LoggedPrefix(init, h, a);
      LoggedPrefix(init, h, a - 1);
      LoggedAt(init, h, a - 1);
      var t := h[a - 1].txn;
      if h[a - 1].kind.Abort? && Wrote(g, t, s, o) {
        var f := FindFirstTouch(g, t, s, o);
        RollbackRewinds(init, g, t, f, s, o);
        UnfinishedSettles(init, g, f, s, o);
        SettledPrefix(g, k, f, s, o);
        assert g[..k] == h[..k] && g[..f] == h[..f];
        CrashWitness(init, h, k, f, v, s, o);
      } else {
        VisibleIsAllowed(init, h, k, a - 1, s, o);
        if h[a - 1].kind.Abort? { RollbackKeeps(init, g, t, s, o); }
      }
    }
  }

  /** Abort is an exact inverse: rolling `t` back takes a byte it wrote to the view just before its
      first write to that byte, whatever else was logged in between. */
  lemma RollbackRewinds(init: Image, g: seq<Record>, t: nat, f: nat, s: nat, o: nat)
    requires Logged(init, g) && FirstTouch(g, t, f, s, o)
    ensures s in init && o < SECTOR_SIZE
    ensures PutAll(View(init, g), UndoOf(g, t))[s][o] == View(init, g[..f])[s][o]
  {
    LoggedAll(init, g);
    UndoFits(init, g, t);
    BeforeByte(init, g, f, s, o);
    PutAllByte(View(init, g), UndoOf(g, t), s, o);
    UndoByte(init, g, t, f, s, o, View(init, g)[s][o]);
  }

  /** ... and it leaves every other byte alone. */
  lemma RollbackKeeps(init: Image, g: seq<Record>, t: nat, s: nat, o: nat)
    requires Logged(init, g) && s in init && o < SECTOR_SIZE && !Wrote(g, t, s, o)
    ensures PutAll(View(init, g), UndoOf(g, t))[s][o] == View(init, g)[s][o]
  {
    LoggedAll(init, g);
    UndoFits(init, g, t);
    PutAllByte(View(init, g), UndoOf(g, t), s, o);
    UndoNone(init, g, t, s, o, View(init, g)[s][o]);
  }

  /** From position `b` on, only `t` changes the byte. */
  ghost predicate OnlyChangedBy(h: seq<Record>, b: nat, t: nat, s: nat, o: nat) {
    forall i :: b <= i < |h| ==>
      && (Touches(h[i], s, o) ==> h[i].txn == t)
      && (h[i].kind.Abort? ==> !Wrote(h[..i], h[i].txn, s, o))
  }

  predicate Changes(h: seq<Record>, i: nat, s: nat, o: nat)
    requires i < |h|
  {
    Touches(h[i], s, o) || (h[i].kind.Abort? && Wrote(h[..i], h[i].txn, s, o))
  }

  lemma ViewKept(init: Image, h: seq<Record>, i: nat, s: nat, o: nat)
    requires Logged(init, h) && i < |h| && s in init && o < SECTOR_SIZE && !Changes(h, i, s, o)
    ensures View(init, h[..i + 1])[s][o] == View(init, h[..i])[s][o]
  {
    assert h[..i + 1][..i] == h[..i];
    if h[i].kind.Abort? {
      LoggedPrefix(init, h, i);
      RollbackKeeps(init, h[..i], h[i].txn, s, o);
    }
  }

  lemma {:induction false} ViewSteady(init: Image, h: seq<Record>, b: nat, f: nat, s: nat, o: nat)
    requires Logged(init, h) && b <= f <= |h| && s in init && o < SECTOR_SIZE
    requires forall i :: b <= i < f ==> !Changes(h, i, s, o)
    ensures View(init, h[..f])[s][o] == View(init, h[..b])[s][o]
  {
    if b < f {
      ViewSteady(init, h, b, f - 1, s, o);
      ViewKept(init, h, f - 1, s, o);
    }
  }

  /** A transaction that started at `b` and whose bytes nobody else changed since: rolling it back
      restores every one of them to what it was at `b`, however often and in whatever overlapping
      pieces the transaction wrote it. */
  lemma AbortRestores(init: Image, h: seq<Record>, b: nat, t: nat, s: nat, o: nat)
    requires Logged(init, h) && b <= |h| && s in init && o < SECTOR_SIZE
    requires forall i :: 0 <= i < b ==> h[i].txn != t
    requires OnlyChangedBy(h, b, t, s, o)
    ensures PutAll(View(init, h), UndoOf(h, t))[s][o] == View(init, h[..b])[s][o]
  {
    if Wrote(h, t, s, o) {
      var f := FindFirstTouch(h, t, s, o);
      RollbackRewinds(init, h, t, f, s, o);
      ViewSteady(init, h, b, f, s, o);
    } else {
      RollbackKeeps(init, h, t, s, o);
      forall i | b <= i < |h| ensures !Changes(h, i, s, o) {
        assert !Touches(h[i], s, o);
      }
      ViewSteady(init, h, b, |h|, s, o);
      assert h[..|h|] == h;
    }
  }

  /** Half-way through a rollback, each cached byte is a value the log allows at a crash. */
  lemma RollbackIsAllowed(init: Image, h: seq<Record>, t: nat, done: nat, s: nat, o: nat)
    requires Logged(init, h) && !Finished(h, t) && done <= |UndoOf(h, t)| && s in init && o < SECTOR_SIZE
    ensures CrashByte(init, h, PutAll(View(init, h), UndoOf(h, t)[..done])[s][o], s, o)
  {
    var us := UndoOf(h, t)[..done];
    assert forall p :: p in us ==> p in UndoOf(h, t);
    var v := View(init, h)[s][o];
    assert PutAll(View(init, h), us)[s][o] == ByteAfter(us, s, o, v) by {
      LoggedAll(init, h);
      UndoFits(init, h, t);
      PutAllByte(View(init, h), us, s, o);
    }
    assert h[..|h|] == h;
    if exists p :: p in us && Covers(p, s, o) {
      var p := LastCover(us, s, o, v);
      UndoPatchIsAllowed(init, h, t, p, s, o);
    } else {
      ByteAfterCases(us, s, o, v, v);
      CrashWitness(init, h, |h|, |h|, v, s, o);
    }
  }

  lemma UndoPatchIsAllowed(init: Image, h: seq<Record>, t: nat, p: Patch, s: nat, o: nat)
    requires Logged(init, h) && !Finished(h, t) && p in UndoOf(h, t) && Covers(p, s, o)
    requires s in init && o < SECTOR_SIZE
    ensures CrashByte(init, h, p.bytes[o - p.offset], s, o)
  {
    var m := UndoSource(h, t, p);
    LoggedAll(init, h);
    assert WriteFits(init, h[m]);
    UnfinishedSettles(init, h, m, s, o);
    BeforeByte(init, h, m, s, o);
    assert h[..|h|] == h;
    CrashWitness(init, h, |h|, m, p.bytes[o - p.offset], s, o);
  }

  lemma {:induction false} LastCover(ps: seq<Patch>, s: nat, o: nat, v: byte) returns (p: Patch)
    requires exists q :: q in ps && Covers(q, s, o)
    ensures p in ps && Covers(p, s, o) && ByteAfter(ps, s, o, v) == p.bytes[o - p.offset]
  {
    var n := |ps| - 1;
    if Covers(ps[n], s, o) {
      p := ps[n];
    } else {
      var q :| q in ps && Covers(q, s, o);
      assert q in ps[..n];
      p := LastCover(ps[..n], s, o, v);
    }
  }

  lemma {:induction false} UndoSource(h: seq<Record>, t: nat, p: Patch) returns (m: nat)
    requires p in UndoOf(h, t)
    ensures m < |h| && h[m].kind.Write? && h[m].txn == t && p == Undo(h[m])
  {
    var n := |h| - 1;
    if h[n].kind.Write? && h[n].txn == t && p == Undo(h[n]) {
      m := n;
    } else {
      m := UndoSource(h[..n], t, p);
    }
  }

  // ---------------------------------------------------------------- every step keeps the invariant

  lemma CrashImageGrows(init: Image, h: seq<Record>, r: Record, d: Image)
    requires CrashImage(init, h, d) && !r.kind.Abort?
    ensures CrashImage(init, h + [r], d)
  {
    var h' := h + [r];
    forall s, o | s in init && 0 <= o < SECTOR_SIZE ensures CrashByte(init, h', d[s][o], s, o) {
      assert CrashByte(init, h, d[s][o], s, o);
      var j: nat :| Settled(h, j, s, o) && d[s][o] == View(init, h[..j])[s][o];
      forall i | j <= i < |h'| && h'[i].kind.Abort? ensures !Wrote(h'[..i], h'[i].txn, s, o) {
        assert h'[..i] == h[..i];
      }
      assert h'[..j] == h[..j];
    }
  }

  lemma AppendKeeps(init: Image, x: Sys, r: Record, y: Sys)
    requires Inv(init, x) && Next(init, x, Append(r), y)
    ensures Inv(init, y)
  {
    assert y.h[..|x.h|] == x.h && y.h[..x.applied] == x.h[..x.applied] && x.h[..|x.h|] == x.h;
    CrashImageGrows(init, x.h, r, x.disk);
    forall k | y.durable <= k <= |y.h| ensures CrashImage(init, y.h[..k], y.disk) {
      if k <= |x.h| { assert y.h[..k] == x.h[..k]; } else { assert y.h[..k] == y.h; }
    }
  }

  lemma ApplyKeeps(init: Image, x: Sys, y: Sys)
    requires Inv(init, x) && Next(init, x, ApplyWrite, y)
    ensures Inv(init, y)
  {
    assert x.h[..x.applied + 1][..x.applied] == x.h[..x.applied];
  }

  lemma WriteBackKeeps(init: Image, x: Sys, n: nat, y: Sys)
    requires Inv(init, x) && Next(init, x, WriteBack(n), y)
    ensures Inv(init, y)
  {
    forall k | y.durable <= k <= |y.h| ensures CrashImage(init, y.h[..k], y.disk) {
      assert CrashImage(init, x.h[..k], x.disk);
      forall s, o | s in init && 0 <= o < SECTOR_SIZE ensures CrashByte(init, x.h[..k], y.disk[s][o], s, o) {
        if s == n { CachedIsAllowed(init, x, n, k, o); }
      }
    }
  }

  lemma CachedIsAllowed(init: Image, x: Sys, n: nat, k: nat, o: nat)
    requires Inv(init, x) && n in x.cache && LogFirst(x, n) && x.durable <= k <= |x.h| && o < SECTOR_SIZE
    ensures n in init && CrashByte(init, x.h[..k], x.cache[n][o], n, o)
  {
    match x.phase {
      case Running =>
        if x.applied <= k {
          forall i | x.applied <= i < k ensures !x.h[..k][i].kind.Abort? {
            assert x.h[..k][i] == x.h[i];
          }
          CrashWitness(init, x.h, k, x.applied, x.cache[n][o], n, o);
        } else {
          VisibleIsAllowed(init, x.h, k, x.applied, n, o);
        }
      case RollingBack(t, done) =>
        assert x.h[..k] == x.h;
        RollbackIsAllowed(init, x.h, t, done, n, o);
    }
  }

  lemma UndoOneKeeps(init: Image, x: Sys, y: Sys)
    requires Inv(init, x) && Next(init, x, UndoOne, y)
    ensures Inv(init, y)
  {
    var us := UndoOf(x.h, x.phase.txn);
    assert us[..x.phase.done + 1][..x.phase.done] == us[..x.phase.done];
  }

  lemma EndAbortKeeps(init: Image, x: Sys, y: Sys)
    requires Inv(init, x) && Next(init, x, EndAbort, y)
    ensures Inv(init, y)
  {
    var n, t := |x.h|, x.phase.txn;
    assert y.h[..n] == x.h && y.h[..n + 1] == y.h && x.h[..n] == x.h;
    assert UndoOf(x.h, t)[..|UndoOf(x.h, t)|] == UndoOf(x.h, t);
    assert Logged(init, y.h);
    assert y.disk == View(init, y.h);
    forall k | y.durable <= k <= |y.h| ensures CrashImage(init, y.h[..k], y.disk) {
      forall s, o | s in init && 0 <= o < SECTOR_SIZE ensures CrashByte(init, y.h[..k], y.disk[s][o], s, o) {
        VisibleIsAllowed(init, y.h, k, n + 1, s, o);
      }
    }
  }

  lemma NextKeeps(init: Image, x: Sys, step: Step, y: Sys)
    requires Inv(init, x) && Next(init, x, step, y)
    ensures Inv(init, y)
  {
    match step {
      case Append(r) => AppendKeeps(init, x, r, y);
      case ApplyWrite => ApplyKeeps(init, x, y);
      case FlushLog(k) =>
      case WriteBack(n) => WriteBackKeeps(init, x, n, y);
      case StartAbort(t) =>
        assert x.h[..|x.h|] == x.h;
        assert UndoOf(x.h, t)[..0] == [];
      case UndoOne => UndoOneKeeps(init, x, y);
      case EndAbort => EndAbortKeeps(init, x, y);
    }
  }

  ghost predicate Run(init: Image, states: seq<Sys>, steps: seq<Step>) {
    && |states| == |steps| + 1 && states[0] == Start(init)
    && forall i :: 0 <= i < |steps| ==> Next(init, states[i], steps[i], states[i + 1])
  }

  lemma {:induction false} CrashRunKeeps(init: Image, states: seq<Sys>, steps: seq<Step>, i: nat)
    requires Run(init, states, steps) && i < |states|
    ensures Inv(init, states[i])
  {
    if i == 0 {
      var none: seq<Record> := [];
      assert none[..0] == none;
      forall s, o | s in init && 0 <= o < SECTOR_SIZE ensures CrashByte(init, none, init[s][o], s, o) {
        CrashWitness(init, none, 0, 0, init[s][o], s, o);
      }
    } else {
      CrashRunKeeps(init, states, steps, i - 1);
      NextKeeps(init, states[i - 1], steps[i - 1], states[i]);
    }
  }

  /** Crash safety. Stop any run anywhere: recovery from the durable log and the disk of that moment
      leaves every byte at its last committed value, provided at most the first record was overwritten. */
  lemma CrashSafety(init: Image, states: seq<Sys>, steps: seq<Step>, i: nat, s: nat, o: nat)
    requires Run(init, states, steps) && i < |states| && Recoverable(states[i].durable)
    requires s in init && o < SECTOR_SIZE
    ensures var x := states[i];
      x.durable <= |x.h| && x.disk.Keys == init.Keys &&
      Recovered(LogOf(x.h[..x.durable]), x.disk)[s][o] == LastCommitted(init, x.h[..x.durable], s, o)
  {
    CrashRunKeeps(init, states, steps, i);
    var x := states[i];
    LoggedPrefix(init, x.h, x.durable);
    RecoveryCorrect(init, x.h[..x.durable], x.disk, s, o);
  }
}
