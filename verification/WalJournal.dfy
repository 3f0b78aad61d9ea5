/** The data region as the file system changes it through the log: begin, write, commit, abort, checkpoint and
    eviction keep the state one from which a crash is recovered, for any sequence of such calls. */
module WalJournal {
  import opened Sectors
  import opened WalHistory
  import opened WalRecovery
  import opened WalManager
  import WalCrash
  import WalBoot

  // ---------------------------------------------------------------- crash safety of the whole state

  /** The state is one that the crash model allows between two operations: the cache shows the history, and
      the disk is what log-before-data allows for every durable prefix a later flush may still reach. */
  ghost predicate Sound(init: Image, h: seq<Record>, flushed: nat, cache: Image, disk: Image) {
    WalCrash.Inv(init, WalCrash.Sys(h, flushed, |h|, WalCrash.Running, cache, disk))
  }

  lemma SoundTracks(init: Image, h: seq<Record>, flushed: nat, cache: Image, disk: Image)
    requires Sound(init, h, flushed, cache, disk)
    ensures Tracks(init, h, cache)
  {
    assert h[..|h|] == h;
  }

  lemma SoundStart(init: Image)
    ensures Sound(init, [], 0, init, init)
  {
    WalCrash.CrashRunKeeps(init, [WalCrash.Start(init)], [], 0);
  }

  /** Flushing more of the log. */
  lemma SoundFlush(init: Image, h: seq<Record>, flushed: nat, flushed': nat, cache: Image, disk: Image)
    requires Sound(init, h, flushed, cache, disk) && flushed <= flushed' <= |h|
    ensures Sound(init, h, flushed', cache, disk)
  {
  }

  /** Eviction of one sector whose log records are durable. */
  lemma SoundWriteBack(init: Image, h: seq<Record>, flushed: nat, cache: Image, disk: Image, n: nat)
    requires Sound(init, h, flushed, cache, disk) && n in cache
    requires forall i :: flushed <= i < |h| && h[i].kind.Write? ==> h[i].sector != n
    ensures Sound(init, h, flushed, cache, disk[n := cache[n]])
  {
    var x := WalCrash.Sys(h, flushed, |h|, WalCrash.Running, cache, disk);
    WalCrash.NextKeeps(init, x, WalCrash.WriteBack(n), x.(disk := disk[n := cache[n]]));
  }

  ghost predicate DiskAllowed(init: Image, h: seq<Record>, flushed: nat, disk: Image) {
    forall k :: flushed <= k <= |h| ==> CrashImage(init, h[..k], disk)
  }

  lemma {:induction false} DiskGrows(init: Image, h: seq<Record>, rs: seq<Record>, flushed: nat, disk: Image)
    requires flushed <= |h| && DiskAllowed(init, h, flushed, disk) && forall r :: r in rs ==> !r.kind.Abort?
    ensures DiskAllowed(init, h + rs, flushed, disk)
  {
    if rs == [] {
      assert h + rs == h;
    } else {
      var n := |rs| - 1;
      var g := h + rs[..n];
      DiskGrows(init, h, rs[..n], flushed, disk);
      assert g[..|g|] == g && h + rs == g + [rs[n]];
      WalCrash.CrashImageGrows(init, g, rs[n], disk);
      forall k | flushed <= k <= |h + rs| ensures CrashImage(init, (h + rs)[..k], disk) {
        if k <= |g| { assert (h + rs)[..k] == g[..k]; } else { assert (h + rs)[..k] == g + [rs[n]]; }
      }
    }
  }

  /** Logging more, without an abort, and applying it to the cache. */
  lemma SoundLogged(init: Image, h: seq<Record>, rs: seq<Record>, flushed: nat, cache: Image, disk: Image, cache': Image)
    requires Sound(init, h, flushed, cache, disk) && Tracks(init, h + rs, cache')
    requires forall r :: r in rs ==> !r.kind.Abort?
    ensures Sound(init, h + rs, flushed, cache', disk)
  {
    assert DiskAllowed(init, h, flushed, disk);
    DiskGrows(init, h, rs, flushed, disk);
    assert (h + rs)[..|h + rs|] == h + rs;
  }

  lemma SoundMark(init: Image, h: seq<Record>, r: Record, flushed: nat, cache: Image, disk: Image)
    requires Sound(init, h, flushed, cache, disk) && CanAppend(init, h, r) && !r.kind.Write? && !r.kind.Abort?
    ensures Sound(init, h + [r], flushed, cache, disk)
  {
    SoundTracks(init, h, flushed, cache, disk);
    TracksMark(init, h, cache, r);
    SoundLogged(init, h, [r], flushed, cache, disk, cache);
  }

  lemma SoundWrite(init: Image, h: seq<Record>, flushed: nat, cache: Image, disk: Image, txn: nat, sector: nat, offset: nat, after: seq<byte>)
    requires Sound(init, h, flushed, cache, disk) && txn != 0 && Begun(h, txn) && !Finished(h, txn)
    requires sector in cache && offset + |after| <= SECTOR_SIZE && RangeFree(h, txn, sector, offset, |after|)
    ensures var before := cache[sector][offset..offset + |after|];
      Sound(init, h + Chunks(|h| + 1, txn, sector, offset, before, after), flushed, Put(cache, Patch(sector, offset, after)), disk)
  {
    var before := cache[sector][offset..offset + |after|];
    SoundTracks(init, h, flushed, cache, disk);
    TracksWrite(init, h, txn, sector, offset, before, after);
    ChunksWrite(|h| + 1, txn, sector, offset, before, after);
    SoundLogged(init, h, Chunks(|h| + 1, txn, sector, offset, before, after), flushed, cache, disk, Put(cache, Patch(sector, offset, after)));
  }

  /** With the log flushed, the visible contents may be on disk. */
  lemma SoundSynced(init: Image, h: seq<Record>, cache: Image)
    requires Tracks(init, h, cache)
    ensures Sound(init, h, |h|, cache, cache)
  {
    assert h[..|h|] == h;
    forall s, o | s in init && 0 <= o < SECTOR_SIZE ensures CrashByte(init, h, cache[s][o], s, o) {
      WalCrash.VisibleIsAllowed(init, h, |h|, |h|, s, o);
    }
  }

  /** An abort that found all its records: cache and disk hold the rolled-back contents. */
  lemma SoundAbort(init: Image, h: seq<Record>, cache: Image, txn: nat, lo: nat)
    requires Tracks(init, h, cache) && txn != 0 && Begun(h, txn) && !Finished(h, txn)
    requires lo <= |h| && forall i :: 0 <= i < lo && h[i].kind.Write? ==> h[i].txn != txn
    ensures var c := RolledBack(cache, WritesBy(h, lo, txn));
      Sound(init, h + [Record(|h| + 1, txn, Abort, 0, 0, [], [])], |h|, c, c)
  {
    var c, h' := RolledBack(cache, WritesBy(h, lo, txn)), h + [Record(|h| + 1, txn, Abort, 0, 0, [], [])];
    TracksAbort(init, h, cache, txn, lo);
    assert h'[..|h'|] == h';
    forall k | |h| <= k <= |h'| ensures CrashImage(init, h'[..k], c) {
      forall s, o | s in init && 0 <= o < SECTOR_SIZE ensures CrashByte(init, h'[..k], c[s][o], s, o) {
        WalCrash.VisibleIsAllowed(init, h', k, |h'|, s, o);
      }
    }
  }

  /** What a crash between two operations leaves is recovered. */
  lemma SoundRecovers(init: Image, h: seq<Record>, flushed: nat, cache: Image, disk: Image, s: nat, o: nat)
    requires Sound(init, h, flushed, cache, disk) && Recoverable(flushed) && s in init && o < SECTOR_SIZE
    ensures disk.Keys == init.Keys
    ensures Recovered(LogOf(h[..flushed]), disk)[s][o] == LastCommitted(init, h[..flushed], s, o)
  {
    assert CrashImage(init, h[..flushed], disk);
    LoggedPrefix(init, h, flushed);
    RecoveryCorrect(init, h[..flushed], disk, s, o);
  }

  /** A rollback that found all its records takes every byte that only the transaction changed back to what
      it was when the transaction began at record `b`. */
  lemma AbortedByte(init: Image, h: seq<Record>, cache: Image, b: nat, txn: nat, lo: nat, s: nat, o: nat)
    requires Tracks(init, h, cache) && b <= lo <= |h| && s in init && o < SECTOR_SIZE
    requires forall i :: 0 <= i < b ==> h[i].txn != txn
    requires forall i :: 0 <= i < lo && h[i].kind.Write? ==> h[i].txn != txn
    requires WalCrash.OnlyChangedBy(h, b, txn, s, o)
    ensures s in RolledBack(cache, WritesBy(h, lo, txn))
    ensures RolledBack(cache, WritesBy(h, lo, txn))[s][o] == View(init, h[..b])[s][o]
  {
    RolledBackIsUndo(cache, h, lo, txn);
    WalCrash.AbortRestores(init, h, b, txn, s, o);
  }

  /** Everything but the BEGIN record of the transaction is still readable, and so is the rest of it. */
  predicate InRing(n: nat, first: nat) { n <= first + LOG_SECTORS }

  lemma AllReadable(h: seq<Record>, id: nat, first: nat)
    requires LiveIn(h, id, first) && InRing(|h|, first)
    ensures first - 1 <= ReadableFrom(|h|, first)
    ensures forall i :: 0 <= i < ReadableFrom(|h|, first) && h[i].kind.Write? ==> h[i].txn != id
  {
  }

  /** Every byte that nobody else has changed since transaction `id` began is what it was then. */
  ghost predicate Restored(init: Image, h: seq<Record>, id: nat, first: nat, cache: Image)
    requires 0 < first <= |h|
  {
    && cache.Keys == init.Keys
    && forall s, o :: s in init && 0 <= o < SECTOR_SIZE && WalCrash.OnlyChangedBy(h, first - 1, id, s, o)
                      ==> cache[s][o] == View(init, h[..first - 1])[s][o]
  }

  lemma RolledBackKeys(d: Image, rs: seq<Record>)
    ensures RolledBack(d, rs).Keys == d.Keys
    decreases |rs|
  {
  }

  ghost predicate MayMark(init: Image, h: seq<Record>, r: Record) {
    CanAppend(init, h, r) && !r.kind.Write? && !r.kind.Abort?
  }

  lemma MarkSound(init: Image, h: seq<Record>, r: Record, flushed: nat, flushed': nat, cache: Image, disk: Image)
    requires Sound(init, h, flushed, cache, disk) && MayMark(init, h, r) && flushed <= flushed' <= |h| + 1
    ensures Sound(init, h + [r], flushed', cache, disk)
  {
    SoundMark(init, h, r, flushed, cache, disk);
    SoundFlush(init, h + [r], flushed, flushed', cache, disk);
  }

  lemma SyncSound(init: Image, h: seq<Record>, flushed: nat, cache: Image, disk: Image)
    requires Sound(init, h, flushed, cache, disk)
    ensures Sound(init, h, |h|, cache, cache)
  {
    SoundTracks(init, h, flushed, cache, disk);
    SoundSynced(init, h, cache);
  }

  lemma CommitMay(init: Image, h: seq<Record>, id: nat, first: nat)
    requires id != 0 && LiveIn(h, id, first)
    ensures MayMark(init, h, Record(|h| + 1, id, Commit, 0, 0, [], []))
  {
    LiveBegun(h, id, first);
  }

  lemma AbortSound(init: Image, h: seq<Record>, flushed: nat, cache: Image, disk: Image, id: nat, first: nat)
    requires Sound(init, h, flushed, cache, disk) && id != 0 && LiveIn(h, id, first) && InRing(|h|, first)
    ensures var c := RolledBack(cache, WritesBy(h, ReadableFrom(|h|, first), id));
      && Sound(init, h + [Record(|h| + 1, id, Abort, 0, 0, [], [])], |h|, c, c)
      && Restored(init, h, id, first, c)
  {
    var lo := ReadableFrom(|h|, first);
    var c := RolledBack(cache, WritesBy(h, lo, id));
    SoundTracks(init, h, flushed, cache, disk);
    LiveBegun(h, id, first);
    AllReadable(h, id, first);
    SoundAbort(init, h, cache, id, lo);
    RolledBackKeys(cache, WritesBy(h, lo, id));
    forall s, o | s in init && 0 <= o < SECTOR_SIZE && WalCrash.OnlyChangedBy(h, first - 1, id, s, o)
      ensures c[s][o] == View(init, h[..first - 1])[s][o]
    {
      AbortedByte(init, h, cache, first - 1, id, lo, s, o);
    }
  }

  /** The same, from what an abort leaves. */
  lemma AbortOutcome(init: Image, h: seq<Record>, flushed: nat, cache: Image, disk: Image, id: nat, first: nat, h': seq<Record>, cache': Image)
    requires Sound(init, h, flushed, cache, disk) && id != 0 && LiveIn(h, id, first)
    requires h' == h + [Record(|h| + 1, id, Abort, 0, 0, [], [])]
    requires cache' == RolledBack(cache, WritesBy(h, ReadableFrom(|h|, first), id))
    ensures InRing(|h|, first) ==> Sound(init, h', |h|, cache', cache') && Restored(init, h, id, first, cache')
  {
    if InRing(|h|, first) { AbortSound(init, h, flushed, cache, disk, id, first); }
  }

  lemma BeginMay(init: Image, h: seq<Record>, id: nat)
    requires IdsBelow(h, id)
    ensures MayMark(init, h, Record(|h| + 1, id, Begin, 0, 0, [], []))
  {
  }

  lemma CheckpointMay(init: Image, h: seq<Record>)
    ensures MayMark(init, h, Record(|h| + 1, 0, Checkpoint, 0, 0, [], []))
  {
  }

  /** A checkpoint: the cache is on disk, and then so is the CHECKPOINT record. */
  lemma CheckpointSound(init: Image, h: seq<Record>, flushed: nat, cache: Image, disk: Image)
    requires Sound(init, h, flushed, cache, disk)
    ensures Sound(init, h + [Record(|h| + 1, 0, Checkpoint, 0, 0, [], [])], |h| + 1, cache, cache)
  {
    SyncSound(init, h, flushed, cache, disk);
    CheckpointMay(init, h);
    MarkSound(init, h, Record(|h| + 1, 0, Checkpoint, 0, 0, [], []), |h|, |h| + 1, cache, cache);
  }

  lemma CommitSound(init: Image, h: seq<Record>, flushed: nat, cache: Image, disk: Image, id: nat, first: nat)
    requires Sound(init, h, flushed, cache, disk) && id != 0 && LiveIn(h, id, first)
    ensures var g := h + [Record(|h| + 1, id, Commit, 0, 0, [], [])];
      && Sound(init, g, |g|, cache, disk)
      && Sound(init, g + [Record(|g| + 1, 0, Checkpoint, 0, 0, [], [])], |g| + 1, cache, cache)
  {
    var r := Record(|h| + 1, id, Commit, 0, 0, [], []);
    CommitMay(init, h, id, first);
    MarkSound(init, h, r, flushed, |h| + 1, cache, disk);
    CheckpointSound(init, h + [r], |h| + 1, cache, disk);
  }

  class Journal {
    const wal: Wal
    ghost const init: Image      // the data region when the log was created

    ghost predicate Safe()
      reads wal
    {
      wal.Ring() && Sound(init, wal.h, wal.flushedLsn, wal.cache, wal.disk)
    }

    constructor Format(image: Image)
      ensures Safe() && fresh(wal) && init == image == wal.cache == wal.disk && wal.h == []
    {
      wal := new Wal.Format(image);
      init := image;
      new;
      SoundStart(image);
    }

    method Begin() returns (txn: Txn)
      requires Safe()
      modifies wal
      ensures Safe() && fresh(txn) && wal.Live(txn) && txn.firstLsn == |wal.h|
      ensures wal.h == old(wal.h) + [Record(|wal.h|, txn.id, Kind.Begin, 0, 0, [], [])] && txn.id == old(wal.nextTxn)
      ensures wal.cache == old(wal.cache)
    {
      ghost var h0, f0, id := wal.h, wal.flushedLsn, wal.nextTxn;
      txn := wal.Begin();
      BeginMay(init, h0, id);
      MarkSound(init, h0, Record(|h0| + 1, id, Kind.Begin, 0, 0, [], []), f0, wal.flushedLsn, wal.cache, wal.disk);
    }

    /** A write keeps the state safe unless it overwrites bytes of another transaction that is still running. */
    method Write(txn: Txn, sector: nat, bytes: seq<byte>, offset: nat)
      requires Safe() && wal.Live(txn)
      requires sector in wal.cache && offset + |bytes| <= SECTOR_SIZE
      modifies wal, txn
      ensures wal.Live(txn) && txn.id == old(txn.id) && txn.firstLsn == old(txn.firstLsn)
      ensures old(RangeFree(wal.h, txn.id, sector, offset, |bytes|)) ==> Safe()
      ensures wal.cache == Put(old(wal.cache), Patch(sector, offset, bytes))
      ensures wal.h == old(wal.h) + Chunks(|old(wal.h)| + 1, txn.id, sector, offset, old(wal.cache)[sector][offset..offset + |bytes|], bytes)
    {
      ghost var h0, f0, c0 := wal.h, wal.flushedLsn, wal.cache;
      wal.Write(txn, sector, bytes, offset);
      if RangeFree(h0, txn.id, sector, offset, |bytes|) {
        LiveBegun(h0, txn.id, txn.firstLsn);
        SoundWrite(init, h0, f0, c0, wal.disk, txn.id, sector, offset, bytes);
        SoundFlush(init, wal.h, f0, wal.flushedLsn, wal.cache, wal.disk);
      }
    }

    /** Eviction keeps the state safe when the log reaches the disk before the data. */
    method Evict(sector: nat)
      requires Safe() && sector in wal.cache
      modifies wal
      ensures wal.Ring() && wal.h == old(wal.h) && wal.cache == old(wal.cache)
      ensures (forall i :: old(wal.flushedLsn) <= i < |wal.h| && wal.h[i].kind.Write? ==> wal.h[i].sector != sector) ==> Safe()
    {
      ghost var d0 := wal.disk;
      wal.WriteBack(sector);
      if forall i :: wal.flushedLsn <= i < |wal.h| && wal.h[i].kind.Write? ==> wal.h[i].sector != sector {
        SoundWriteBack(init, wal.h, wal.flushedLsn, wal.cache, d0, sector);
      }
    }

    method Checkpoint()
      requires Safe()
      modifies wal
      ensures Safe() && wal.cache == old(wal.cache)
    {
      ghost var h0, f0, d0 := wal.h, wal.flushedLsn, wal.disk;
      wal.Checkpoint();
      CheckpointSound(init, h0, f0, wal.cache, d0);
    }

    /** A commit keeps the state safe, and its COMMIT record is part of the durable log. */
    method Commit(txn: Txn)
      requires Safe() && wal.Live(txn)
      modifies wal, txn
      ensures Safe() && wal.cache == old(wal.cache)
      ensures wal.flushedLsn == |wal.h|
      ensures var committed := old(wal.h) + [Record(old(wal.nextLsn), old(txn.id), Kind.Commit, 0, 0, [], [])];
        wal.h == committed || wal.h == committed + [Record(|wal.h|, 0, Kind.Checkpoint, 0, 0, [], [])]
    {
      ghost var h0, f0, d0, id, first := wal.h, wal.flushedLsn, wal.disk, txn.id, txn.firstLsn;
      var ok := wal.Commit(txn);
      CommitSound(init, h0, f0, wal.cache, d0, id, first);
    }

    /** An abort whose write records are all in the log keeps the state safe and restores every byte that only
        the transaction has changed since it began. */
    method Abort(txn: Txn)
      requires Safe() && wal.Live(txn)
      modifies wal, txn
      ensures wal.Ring() && wal.h == old(wal.h) + [Record(old(wal.nextLsn), old(txn.id), Kind.Abort, 0, 0, [], [])]
      ensures old(InRing(|wal.h|, txn.firstLsn)) ==> Safe() && Restored(init, old(wal.h), old(txn.id), old(txn.firstLsn), wal.cache)
    {
      ghost var h0, f0, c0, d0, id, first := wal.h, wal.flushedLsn, wal.cache, wal.disk, txn.id, txn.firstLsn;
      wal.Abort(txn);
      AbortOutcome(init, h0, f0, c0, d0, id, first, wal.h, wal.cache);
    }

    /** A crash and the mount after it: every byte is back at its last committed value. */
    method Restart() returns (d: WalBoot.Device)
      requires Safe() && Recoverable(wal.flushedLsn)
      ensures d.disk.Keys == init.Keys
      ensures forall s, o :: s in init && 0 <= o < SECTOR_SIZE ==>
        d.disk[s][o] == LastCommitted(init, wal.h[..wal.flushedLsn], s, o)
    {
      d := new WalBoot.Device(wal.log, wal.disk);
      d.Recover();
      forall s, o | s in init && 0 <= o < SECTOR_SIZE
        ensures d.disk[s][o] == LastCommitted(init, wal.h[..wal.flushedLsn], s, o)
      {
        SoundRecovers(init, wal.h, wal.flushedLsn, wal.cache, wal.disk, s, o);
      }
    }
  }
}
