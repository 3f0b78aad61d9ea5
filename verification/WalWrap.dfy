/** Where recovery stops being correct: the log holds 64 records, and recovery reads nothing else. The first
    record of a log carries no data, so one more record than the log holds does no harm. */
module WalWrap {
  import opened Sectors
  import opened WalHistory
  import opened WalRecovery

  ghost predicate Recovers(init: Image, h: seq<Record>, d: Image, s: nat, o: nat) {
    Logged(init, h) && CrashImage(init, h, d) && s in init && o < SECTOR_SIZE ==>
      Recovered(LogOf(h), d)[s][o] == LastCommitted(init, h, s, o)
  }

  /** Recovery restores the committed state after every history of `n` records and every crash. */
  ghost predicate RecoversAll(n: nat) {
    forall init: Image, h: seq<Record>, d: Image, s: nat, o: nat :: |h| == n ==> Recovers(init, h, d, s, o)
  }

  const DATA_SECTOR: nat := 67

  function Blanks(): Image { map[DATA_SECTOR := seq(SECTOR_SIZE, i => 0)] }

  /** Transaction 1 commits a write of byte 0; transaction 2 then logs one write of byte 1 after another. */
  function OverrunAt(i: nat): Record {
    if i == 0 then Record(1, 1, Begin, 0, 0, [], [])
    else if i == 1 then Record(2, 1, Write, DATA_SECTOR, 0, [0], [1])
    else if i == 2 then Record(3, 1, Commit, 0, 0, [], [])
    else if i == 3 then Record(4, 2, Begin, 0, 0, [], [])
    else Record(i + 1, 2, Write, DATA_SECTOR, 1, [0], [0])
  }

  function Overrun(n: nat): (h: seq<Record>)
    ensures |h| == n && forall i :: 0 <= i < n ==> h[i] == OverrunAt(i)
  {
    seq(n, i requires 0 <= i < n => OverrunAt(i))
  }

  lemma OverrunNext(n: nat)
    ensures Overrun(n + 1)[..n] == Overrun(n)
  {
  }

  lemma {:induction false} OverrunView(n: nat)
    ensures View(Blanks(), Overrun(n))[DATA_SECTOR][1] == 0 && (n <= 1 ==> View(Blanks(), Overrun(n)) == Blanks())
  {
    if n > 0 {
      OverrunView(n - 1);
      OverrunNext(n - 1);
    }
  }

  lemma OverrunUnfinished(n: nat)
    ensures !Finished(Overrun(n), 2) && (n <= 2 ==> !Finished(Overrun(n), 1))
    ensures n > 0 ==> Begun(Overrun(n), 1)
    ensures n > 3 ==> Begun(Overrun(n), 2)
  {
    var h := Overrun(n);
    assert n > 0 ==> h[0].kind.Begin?;
    assert n > 3 ==> h[3].kind.Begin?;
  }

  lemma OneByte(row: seq<byte>, o: nat)
    requires o < |row|
    ensures row[o..o + 1] == [row[o]]
  {
  }

  /** The code can log this: each record may follow the ones before it. */
  lemma OverrunAppends(n: nat)
    ensures CanAppend(Blanks(), Overrun(n), OverrunAt(n))
  {
    OverrunView(n);
    OverrunUnfinished(n);
    OneByte(View(Blanks(), Overrun(n))[DATA_SECTOR], OverrunAt(n).offset);
  }

  lemma {:induction false} OverrunLogged(n: nat)
    ensures Logged(Blanks(), Overrun(n))
  {
    if n > 0 {
      OverrunLogged(n - 1);
      OverrunAppends(n - 1);
      OverrunNext(n - 1);
    }
  }

  /** No record of the overrun log but the lost one touches byte 0. */
  lemma ByteNotLogged(n: nat, p: Patch)
    requires n > LOG_SECTORS + 1 && p in RecoveryWrites(LogOf(Overrun(n)))
    ensures !Covers(p, DATA_SECTOR, 0)
  {
    var h := Overrun(n);
    var log := LogOf(h);
    var rs, us := WritesOf(log, CommittedIn(log)), WritesOf(log, LosersIn(log));
    UndoOrderIsOrder(us);
    if p in Redos(rs) {
      var k :| 0 <= k < |rs| && Redos(rs)[k] == p;
      OverrunRecord(n, CommittedIn(log), rs[k]);
    } else {
      var k :| 0 <= k < |us| && Undos(UndoOrder(us))[k] == p;
      assert UndoOrder(us)[k] in us;
      OverrunRecord(n, LosersIn(log), UndoOrder(us)[k]);
    }
  }

  lemma OverrunRecord(n: nat, ids: set<nat>, r: Record)
    requires n > LOG_SECTORS + 1 && r in WritesOf(LogOf(Overrun(n)), ids)
    ensures r.offset == 1 && |r.before| == |r.after| == 1
  {
    WritesOfMembers(LogOf(Overrun(n)), ids, r);
    var i :| 0 <= i < LOG_SECTORS && IsWriteOf(LogOf(Overrun(n))[i], ids) && LogOf(Overrun(n))[i].rec == r;
    var j := FromSlot(Overrun(n), i);
  }

  lemma NothingWritten(n: nat)
    ensures CrashImage(Blanks(), Overrun(n), Blanks())
  {
    var h := Overrun(n);
    forall s, o | s in Blanks() && 0 <= o < SECTOR_SIZE ensures CrashByte(Blanks(), h, Blanks()[s][o], s, o) {
      assert Settled(h, 0, s, o);
      assert h[..0] == [];
    }
  }

  /** Once two records are overwritten, a committed write can be lost: its record is gone from the log, and
      the data never reached the disk. */
  lemma WrappedLogLosesCommit(n: nat)
    requires n > LOG_SECTORS + 1
    ensures Logged(Blanks(), Overrun(n)) && CrashImage(Blanks(), Overrun(n), Blanks())
    ensures Recovered(LogOf(Overrun(n)), Blanks())[DATA_SECTOR][0] == 0
    ensures LastCommitted(Blanks(), Overrun(n), DATA_SECTOR, 0) == 1
  {
    var h, ps := Overrun(n), RecoveryWrites(LogOf(Overrun(n)));
    OverrunLogged(n);
    NothingWritten(n);
    forall p | p in ps ensures !Covers(p, DATA_SECTOR, 0) { ByteNotLogged(n, p); }
    WindowFits(Blanks(), h);
    RecoveryFits(LogOf(h), Blanks());
    PutAllByte(Blanks(), ps, DATA_SECTOR, 0);
    ByteAfterCases(ps, DATA_SECTOR, 0, 0, 0);
    assert h[2].kind.Commit? && 1 in Committed(h);
    OverrunValue(n, Txns(h) - Committed(h));
  }

  lemma {:induction false} OverrunValue(n: nat, dead: set<nat>)
    requires 2 <= n && 1 !in dead
    ensures LastValue(Overrun(n), DATA_SECTOR, 0, dead, 0) == 1
  {
    if n > 2 {
      OverrunValue(n - 1, dead);
      assert Overrun(n)[..n - 1] == Overrun(n - 1);
    }
  }

  /** Recovery is correct for all histories of a given length exactly when at most the first record has been
      overwritten. */
  lemma RecoveryExact(n: nat)
    ensures RecoversAll(n) <==> n <= LOG_SECTORS + 1
  {
    if n <= LOG_SECTORS + 1 {
      forall init: Image, h: seq<Record>, d: Image, s: nat, o: nat | |h| == n ensures Recovers(init, h, d, s, o) {
        if Logged(init, h) && CrashImage(init, h, d) && s in init && o < SECTOR_SIZE {
          RecoveryCorrect(init, h, d, s, o);
        }
      }
    } else {
      WrappedLogLosesCommit(n);
      assert !Recovers(Blanks(), Overrun(n), Blanks(), DATA_SECTOR, 0);
    }
  }
}
