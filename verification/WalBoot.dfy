/** wal_recover as the kernel runs it at mount: three passes over the 64 log sectors. */
module WalBoot {
  import opened Sectors
  import opened WalHistory
  import opened WalRecovery

  const MAX_TXNS: nat := 256
  const MAX_UNDO: nat := 512

  ghost function Elements(xs: seq<nat>): set<nat> { set x | x in xs }

  ghost predicate Distinct(xs: seq<nat>) {
    forall i, j :: 0 <= i < j < |xs| ==> xs[i] != xs[j]
  }

  /** One more slot, seen from the three sets the analysis builds. */
  lemma AnalysisStep(log: seq<Slot>, k: nat)
    requires k < |log|
    ensures SeenIn(log[..k + 1]) == SeenIn(log[..k]) + (if Known(log[k]) then {log[k].rec.txn} else {})
    ensures CommittedIn(log[..k + 1]) == CommittedIn(log[..k]) + (if Known(log[k]) && log[k].rec.kind.Commit? then {log[k].rec.txn} else {})
    ensures AbortedIn(log[..k + 1]) == AbortedIn(log[..k]) + (if Known(log[k]) && log[k].rec.kind.Abort? then {log[k].rec.txn} else {})
  {
    var a, b := log[..k + 1], log[..k];
    assert a == b + [log[k]];
    assert forall i :: 0 <= i < k ==> a[i] == b[i];
  }

  method Find(ids: seq<nat>, id: nat) returns (k: nat)
    ensures k <= |ids|
    ensures k < |ids| ==> ids[k] == id
    ensures k == |ids| ==> id !in ids
  {
    k := 0;
    while k < |ids| && ids[k] != id
      invariant k <= |ids| && id !in ids[..k]
    {
      k := k + 1;
    }
    assert ids[..|ids|] == ids;
  }

  /** The tracking table of the analysis pass: one row per transaction seen. */
  ghost predicate TableOk(log: seq<Slot>, ids: seq<nat>, committed: seq<bool>, aborted: seq<bool>) {
    && |ids| == |committed| == |aborted| <= |log|
    && Distinct(ids) && Elements(ids) == SeenIn(log)
    && (forall i :: 0 <= i < |ids| ==> (committed[i] <==> ids[i] in CommittedIn(log)))
    && (forall i :: 0 <= i < |ids| ==> (aborted[i] <==> ids[i] in AbortedIn(log)))
  }

  lemma CommittedAreSeen(log: seq<Slot>)
    ensures CommittedIn(log) <= SeenIn(log) && AbortedIn(log) <= SeenIn(log)
  {
  }

  /** Adding a row for a transaction not seen before. */
  lemma TableAdd(log: seq<Slot>, k: nat, ids: seq<nat>, committed: seq<bool>, aborted: seq<bool>)
    requires k < |log| && TableOk(log[..k], ids, committed, aborted)
    requires Known(log[k]) && log[k].rec.txn !in ids
    ensures TableOk(log[..k + 1], ids + [log[k].rec.txn], committed + [log[k].rec.kind.Commit?], aborted + [log[k].rec.kind.Abort?])
  {
    AnalysisStep(log, k);
    CommittedAreSeen(log[..k]);
    var t := log[k].rec.txn;
    assert t !in Elements(ids);
    var ids' := ids + [t];
    forall x ensures x in Elements(ids') <==> x in SeenIn(log[..k + 1]) {
      assert x in ids' <==> x in ids || x == t;
      assert x in ids <==> x in Elements(ids);
    }
  }

  /** Updating the row of a transaction seen before. */
  lemma TableSet(log: seq<Slot>, k: nat, ids: seq<nat>, committed: seq<bool>, aborted: seq<bool>, j: nat)
    requires k < |log| && TableOk(log[..k], ids, committed, aborted)
    requires Known(log[k]) && j < |ids| && ids[j] == log[k].rec.txn
    ensures TableOk(log[..k + 1], ids, committed[j := committed[j] || log[k].rec.kind.Commit?], aborted[j := aborted[j] || log[k].rec.kind.Abort?])
  {
    AnalysisStep(log, k);
    assert ids[j] in Elements(ids);
  }

  lemma TableSkip(log: seq<Slot>, k: nat, ids: seq<nat>, committed: seq<bool>, aborted: seq<bool>)
    requires k < |log| && TableOk(log[..k], ids, committed, aborted) && !Known(log[k])
    ensures TableOk(log[..k + 1], ids, committed, aborted)
  {
    AnalysisStep(log, k);
  }

  ghost predicate MaxLsn(log: seq<Slot>, m: nat) {
    && (forall i :: 0 <= i < |log| && log[i].Holds? ==> log[i].rec.lsn <= m)
    && (m == 0 || exists i :: 0 <= i < |log| && log[i].Holds? && log[i].rec.lsn == m)
  }

  lemma MaxLsnStep(log: seq<Slot>, k: nat, m: nat)
    requires k < |log| && MaxLsn(log[..k], m)
    ensures MaxLsn(log[..k + 1], if log[k].Holds? && log[k].rec.lsn > m then log[k].rec.lsn else m)
  {
  }

  /** Phase 1: ANALYSIS. The 256-row table never overflows, since there are only 64 slots. */
  method Analyze(log: seq<Slot>) returns (ids: seq<nat>, committed: seq<bool>, aborted: seq<bool>, maxLsn: nat)
    requires |log| == LOG_SECTORS
    ensures TableOk(log, ids, committed, aborted) && MaxLsn(log, maxLsn)
  {
    ids, committed, aborted, maxLsn := [], [], [], 0;
    for s := 0 to LOG_SECTORS
      invariant TableOk(log[..s], ids, committed, aborted) && MaxLsn(log[..s], maxLsn)
    {
      MaxLsnStep(log, s, maxLsn);
      if log[s].Blank? || log[s].rec.lsn == 0 {
        TableSkip(log, s, ids, committed, aborted);
        continue;
      }
      var rec := log[s].rec;
      if rec.lsn > maxLsn { maxLsn := rec.lsn; }
      var k := Find(ids, rec.txn);
      if k == |ids| && |ids| < MAX_TXNS && rec.txn != 0 {
        TableAdd(log, s, ids, committed, aborted);
        ids, committed, aborted := ids + [rec.txn], committed + [rec.kind.Commit?], aborted + [rec.kind.Abort?];
      } else if k < |ids| {
        SeenIsKnown(log, s, ids, k);
        TableSet(log, s, ids, committed, aborted, k);
        committed, aborted := committed[k := committed[k] || rec.kind.Commit?], aborted[k := aborted[k] || rec.kind.Abort?];
      } else {
        TableSkip(log, s, ids, committed, aborted);
      }
    }
    assert log[..LOG_SECTORS] == log;
  }

  lemma SeenIsKnown(log: seq<Slot>, s: nat, ids: seq<nat>, k: nat)
    requires s < |log| && log[s].Holds? && log[s].rec.lsn != 0
    requires k < |ids| && ids[k] == log[s].rec.txn && Elements(ids) == SeenIn(log[..s])
    ensures Known(log[s])
  {
    assert ids[k] in Elements(ids);
  }

  /** Splits the table into the transactions to redo and those to undo. */
  method Categorize(ghost log: seq<Slot>, ids: seq<nat>, committed: seq<bool>, aborted: seq<bool>) returns (redo: seq<nat>, undo: seq<nat>)
    requires TableOk(log, ids, committed, aborted)
    ensures Elements(redo) == CommittedIn(log) && Elements(undo) == LosersIn(log)
  {
    redo, undo := [], [];
    for i := 0 to |ids|
      invariant forall x :: x in redo <==> exists j :: 0 <= j < i && ids[j] == x && committed[j]
      invariant forall x :: x in undo <==> exists j :: 0 <= j < i && ids[j] == x && !committed[j] && !aborted[j]
    {
      if committed[i] {
        redo := redo + [ids[i]];
      } else if !aborted[i] {
        undo := undo + [ids[i]];
      }
    }
    SplitTable(log, ids, committed, aborted, redo, undo);
  }

  lemma SplitTable(log: seq<Slot>, ids: seq<nat>, committed: seq<bool>, aborted: seq<bool>, redo: seq<nat>, undo: seq<nat>)
    requires TableOk(log, ids, committed, aborted)
    requires forall x :: x in redo <==> exists j :: 0 <= j < |ids| && ids[j] == x && committed[j]
    requires forall x :: x in undo <==> exists j :: 0 <= j < |ids| && ids[j] == x && !committed[j] && !aborted[j]
    ensures Elements(redo) == CommittedIn(log) && Elements(undo) == LosersIn(log)
  {
    CommittedAreSeen(log);
    forall x ensures x in Elements(redo) <==> x in CommittedIn(log) {
      if x in CommittedIn(log) {
        assert x in Elements(ids);
        var j :| 0 <= j < |ids| && ids[j] == x;
        assert committed[j];
      }
    }
    forall x ensures x in Elements(undo) <==> x in LosersIn(log) {
      if x in LosersIn(log) {
        assert x in Elements(ids);
        var j :| 0 <= j < |ids| && ids[j] == x;
        assert !committed[j] && !aborted[j];
      }
      if x in undo {
        var j :| 0 <= j < |ids| && ids[j] == x && !committed[j] && !aborted[j];
        assert ids[j] in Elements(ids);
      }
    }
  }

  method IsListed(ids: seq<nat>, id: nat) returns (b: bool)
    ensures b <==> id in Elements(ids)
  {
    var k := Find(ids, id);
    b := k < |ids|;
  }

  lemma WritesOfNext(log: seq<Slot>, k: nat, ids: set<nat>)
    requires k < |log|
    ensures WritesOf(log[..k + 1], ids)
         == if IsWriteOf(log[k], ids) then WritesOf(log[..k], ids) + [log[k].rec] else WritesOf(log[..k], ids)
  {
    assert log[..k + 1][..k] == log[..k];
  }

  lemma RedosNext(d: Image, rs: seq<Record>, r: Record)
    ensures PutAll(d, Redos(rs + [r])) == Put(PutAll(d, Redos(rs)), Redo(r))
  {
    assert Redos(rs + [r])[..|rs|] == Redos(rs);
  }

  lemma UndosNext(d: Image, rs: seq<Record>, k: nat)
    requires k < |rs|
    ensures PutAll(d, Undos(rs[..k + 1])) == Put(PutAll(d, Undos(rs[..k])), Undo(rs[k]))
  {
    assert Undos(rs[..k + 1])[..k] == Undos(rs[..k]);
  }

  /** The undo candidates, in slot order. MAX_UNDO never truncates the list. */
  method CollectLosers(log: seq<Slot>, undo: seq<nat>) returns (us: seq<Record>)
    requires |log| == LOG_SECTORS
    ensures us == WritesOf(log, Elements(undo))
  {
    us := [];
    for s := 0 to LOG_SECTORS
      invariant us == WritesOf(log[..s], Elements(undo))
    {
      WritesOfNext(log, s, Elements(undo));
      if log[s].Blank? || !log[s].rec.kind.Write? { continue; }
      var loser := IsListed(undo, log[s].rec.txn);
      if loser && |us| < MAX_UNDO { us := us + [log[s].rec]; }
    }
    assert log[..LOG_SECTORS] == log;
  }

  /** The in-place exchange sort, newest LSN first. */
  method SortUndo(a: array<Record>)
    modifies a
    ensures a[..] == UndoOrder(old(a[..]))
  {
    for i := 0 to a.Length
      invariant SortFrom(a[..], i, i + 1) == UndoOrder(old(a[..]))
    {
      for j := i + 1 to a.Length
        invariant SortFrom(a[..], i, j) == UndoOrder(old(a[..]))
      {
        ghost var before := a[..];
        if a[j].lsn > a[i].lsn {
          a[i], a[j] := a[j], a[i];
        }
        assert a[..] == Exchange(before, i, j);
      }
    }
  }

  class Device {
    var log: seq<Slot>       // the log region
    var disk: Image          // the data region
    var nextLsn: nat
    var flushedLsn: nat
    var nextTxn: nat

    constructor (log: seq<Slot>, disk: Image)
      ensures this.log == log && this.disk == disk
    {
      this.log, this.disk := log, disk;
      nextLsn, flushedLsn, nextTxn := 1, 0, 1;
    }

    /** Phase 2: REDO, slot by slot, one read-modify-write per committed record. */
    method RedoPass(redo: seq<nat>)
      requires |log| == LOG_SECTORS
      modifies this`disk
      ensures disk == PutAll(old(disk), Redos(WritesOf(log, Elements(redo))))
    {
      for s := 0 to LOG_SECTORS
        invariant disk == PutAll(old(disk), Redos(WritesOf(log[..s], Elements(redo))))
      {
        WritesOfNext(log, s, Elements(redo));
        if log[s].Blank? || !log[s].rec.kind.Write? { continue; }
        var committed := IsListed(redo, log[s].rec.txn);
        if committed {
          RedosNext(old(disk), WritesOf(log[..s], Elements(redo)), log[s].rec);
          disk := Put(disk, Redo(log[s].rec));
        }
      }
      assert log[..LOG_SECTORS] == log;
    }

    /** Phase 3: UNDO of the losers' records, newest first. */
    method UndoPass(undo: seq<nat>)
      requires |log| == LOG_SECTORS
      modifies this`disk
      ensures disk == PutAll(old(disk), Undos(UndoOrder(WritesOf(log, Elements(undo)))))
    {
      var us := CollectLosers(log, undo);
      var a := new Record[|us|](i requires 0 <= i < |us| => us[i]);
      assert a[..] == us;
      SortUndo(a);
      ghost var sorted := a[..];
      for i := 0 to a.Length
        invariant a[..] == sorted
        invariant disk == PutAll(old(disk), Undos(sorted[..i]))
      {
        UndosNext(old(disk), sorted, i);
        disk := Put(disk, Undo(a[i]));
      }
      assert sorted[..a.Length] == sorted;
    }

    /** Recovery. It writes exactly `RecoveryWrites`, leaves the log alone, and resumes numbering above
        everything the log mentions. */
    method Recover()
      requires |log| == LOG_SECTORS
      modifies this
      ensures log == old(log) && disk == Recovered(log, old(disk))
      ensures flushedLsn + 1 == nextLsn && MaxLsn(log, flushedLsn)
      ensures nextTxn > 0 && (forall t :: t in SeenIn(log) ==> t < nextTxn) && (nextTxn == 1 || nextTxn - 1 in SeenIn(log))
    {
      var ids, committed, aborted, maxLsn := Analyze(log);
      var redo, undo := Categorize(log, ids, committed, aborted);
      RedoPass(redo);
      UndoPass(undo);
      PutAllAppend(old(disk), Redos(WritesOf(log, CommittedIn(log))), Undos(UndoOrder(WritesOf(log, LosersIn(log)))));
      nextLsn, flushedLsn, nextTxn := maxLsn + 1, maxLsn, 1;
      for i := 0 to |ids|
        invariant log == old(log) && disk == Recovered(log, old(disk)) && flushedLsn == maxLsn && nextLsn == maxLsn + 1
        invariant nextTxn > 0 && (forall j :: 0 <= j < i ==> ids[j] < nextTxn) && (nextTxn == 1 || nextTxn - 1 in ids)
      {
        if ids[i] >= nextTxn { nextTxn := ids[i] + 1; }
      }
      forall t | t in SeenIn(log) ensures t < nextTxn {
        assert t in Elements(ids);
      }
      assert nextTxn - 1 in ids ==> nextTxn - 1 in Elements(ids);
    }
  }
}
