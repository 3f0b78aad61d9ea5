/** A client of the log: one transaction at a time makes any number of writes and then commits or aborts. */
module WalSerial {
  import opened Sectors
  import opened WalHistory
  import opened WalRecovery
  import opened WalManager
  import opened WalJournal
  import WalCrash

  /** Every transaction that wrote, other than `id`, has finished. */
  ghost predicate OthersDone(h: seq<Record>, id: nat) {
    forall i :: 0 <= i < |h| && h[i].kind.Write? && h[i].txn != id ==> Finished(h, h[i].txn)
  }

  /** Every transaction that wrote has finished. */
  ghost predicate Quiet(h: seq<Record>) {
    forall i :: 0 <= i < |h| && h[i].kind.Write? ==> Finished(h, h[i].txn)
  }

  /** Since record `first` only transaction `id` has logged anything, and it has not aborted. */
  ghost predicate Alone(h: seq<Record>, first: nat, id: nat) {
    0 < first <= |h| && forall i :: first - 1 <= i < |h| ==> h[i].txn == id && !h[i].kind.Abort?
  }

  /** How many records `n` bytes become. */
  function Pieces(n: nat): nat { if n == 0 then 0 else 1 + Pieces(n - ChunkSize(n)) }

  function RecordsOf(ws: seq<Patch>): nat {
    if ws == [] then 0 else RecordsOf(ws[..|ws| - 1]) + Pieces(|ws[|ws| - 1].bytes|)
  }

  lemma {:induction false} ChunksCount(lsn: nat, txn: nat, sector: nat, offset: nat, before: seq<byte>, after: seq<byte>)
    requires |before| == |after|
    ensures |Chunks(lsn, txn, sector, offset, before, after)| == Pieces(|after|)
    decreases |after|
  {
    if after != [] {
      var c := ChunkSize(|after|);
      ChunksCons(lsn, txn, sector, offset, before, after);
      ChunksCount(lsn + 1, txn, sector, offset + c, before[c..], after[c..]);
    }
  }

  lemma FinishedLonger(h: seq<Record>, rs: seq<Record>, t: nat)
    requires Finished(h, t)
    ensures Finished(h + rs, t)
  {
    var i :| 0 <= i < |h| && h[i].txn == t && (h[i].kind.Commit? || h[i].kind.Abort?);
    assert (h + rs)[i] == h[i];
  }

  lemma OthersStayDone(h: seq<Record>, rs: seq<Record>, id: nat)
    requires OthersDone(h, id) && forall k :: 0 <= k < |rs| ==> rs[k].txn == id
    ensures OthersDone(h + rs, id)
  {
    var g := h + rs;
    forall i | 0 <= i < |g| && g[i].kind.Write? && g[i].txn != id ensures Finished(g, g[i].txn) {
      FinishedLonger(h, rs, h[i].txn);
    }
  }

  lemma AloneGrows(h: seq<Record>, rs: seq<Record>, first: nat, id: nat)
    requires Alone(h, first, id) && forall r :: r in rs ==> r.txn == id && !r.kind.Abort?
    ensures Alone(h + rs, first, id)
  {
  }

  /** The transaction is under way and nothing else is, it has logged `n` records, and it found `image`. */
  ghost predicate Solo(init: Image, h: seq<Record>, id: nat, first: nat, n: nat, image: Image) {
    && OthersDone(h, id) && Alone(h, first, id) && |h| == first + n
    && View(init, h[..first - 1]) == image
  }

  lemma SoloBegin(init: Image, h: seq<Record>, id: nat)
    requires Quiet(h) && id != 0
    ensures Solo(init, h + [Record(|h| + 1, id, Begin, 0, 0, [], [])], id, |h| + 1, 0, View(init, h))
  {
    var rs := [Record(|h| + 1, id, Begin, 0, 0, [], [])];
    OthersStayDone(h, rs, id);
    assert (h + rs)[..|h|] == h;
  }

  lemma SoloWrite(init: Image, h: seq<Record>, id: nat, first: nat, n: nat, image: Image, sector: nat, offset: nat, before: seq<byte>, after: seq<byte>)
    requires Solo(init, h, id, first, n, image) && |before| == |after|
    ensures Solo(init, h + Chunks(|h| + 1, id, sector, offset, before, after), id, first, n + Pieces(|after|), image)
  {
    var rs := Chunks(|h| + 1, id, sector, offset, before, after);
    ChunksCount(|h| + 1, id, sector, offset, before, after);
    ChunksWrite(|h| + 1, id, sector, offset, before, after);
    OthersStayDone(h, rs, id);
    AloneGrows(h, rs, first, id);
    assert (h + rs)[..first - 1] == h[..first - 1];
  }

  lemma SoloFree(h: seq<Record>, id: nat, sector: nat, offset: nat, n: nat)
    requires OthersDone(h, id)
    ensures RangeFree(h, id, sector, offset, n)
  {
  }

  /** Restoring what only the transaction changed restores everything, when nobody else changed anything. */
  lemma SoloRestored(init: Image, h: seq<Record>, id: nat, first: nat, n: nat, image: Image, cache: Image)
    requires Solo(init, h, id, first, n, image) && Restored(init, h, id, first, cache)
    ensures cache == image
  {
    forall s, o | s in init && 0 <= o < SECTOR_SIZE ensures cache[s][o] == image[s][o] {
      assert WalCrash.OnlyChangedBy(h, first - 1, id, s, o);
    }
    SameBytes(cache, image);
  }

  /** A COMMIT or ABORT record ends the only transaction under way. */
  lemma SoloEnds(h: seq<Record>, id: nat, rs: seq<Record>)
    requires OthersDone(h, id) && rs != [] && rs[0].txn == id && (rs[0].kind.Commit? || rs[0].kind.Abort?)
    requires forall k :: 0 <= k < |rs| ==> !rs[k].kind.Write?
    ensures Quiet(h + rs)
  {
    var g := h + rs;
    assert g[|h|] == rs[0];
    assert Finished(g, id);
    forall i | 0 <= i < |g| && g[i].kind.Write? ensures Finished(g, g[i].txn) {
      if h[i].txn != id { FinishedLonger(h, rs, h[i].txn); }
    }
  }

  /** With no transaction under way, what readers see is what has been committed. */
  lemma QuietIsCommitted(init: Image, h: seq<Record>, s: nat, o: nat)
    requires Logged(init, h) && Quiet(h) && s in init && o < SECTOR_SIZE
    ensures LastCommitted(init, h, s, o) == View(init, h)[s][o]
  {
    ViewByte(init, h, s, o);
    assert h[..|h|] == h;
    forall i | 0 <= i < |h| && Touches(h[i], s, o)
      ensures h[i].txn in WalHistory.Aborted(h) <==> h[i].txn in Txns(h) - WalHistory.Committed(h)
    {
      FinishedOnce(init, h, |h|, h[i].txn);
    }
    SameDead(h, s, o, WalHistory.Aborted(h), Txns(h) - WalHistory.Committed(h), init[s][o]);
  }

  lemma PutAllNext(d: Image, ws: seq<Patch>, k: nat)
    requires k < |ws|
    ensures PutAll(d, ws[..k + 1]) == Put(PutAll(d, ws[..k]), ws[k])
    ensures RecordsOf(ws[..k + 1]) == RecordsOf(ws[..k]) + Pieces(|ws[k].bytes|)
  {
    assert ws[..k + 1][..k] == ws[..k];
  }

  /** A write while no other transaction is under way. */
  method WriteUndisturbed(j: Journal, txn: Txn, p: Patch)
    requires j.Safe() && j.wal.Live(txn) && Fits(p, j.wal.cache) && OthersDone(j.wal.h, txn.id)
    modifies j.wal, txn
    ensures j.Safe() && j.wal.Live(txn) && txn.id == old(txn.id) && txn.firstLsn == old(txn.firstLsn)
    ensures j.wal.cache == Put(old(j.wal.cache), p)
    ensures j.wal.h == old(j.wal.h) + Chunks(|old(j.wal.h)| + 1, old(txn.id), p.sector, p.offset,
      old(j.wal.cache)[p.sector][p.offset..p.offset + |p.bytes|], p.bytes)
  {
    SoloFree(j.wal.h, txn.id, p.sector, p.offset, |p.bytes|);
    j.Write(txn, p.sector, p.bytes, p.offset);
  }

  /** One of the writes. */
  method WriteOne(j: Journal, txn: Txn, p: Patch, ghost n: nat, ghost image: Image)
    requires j.Safe() && j.wal.Live(txn) && Fits(p, j.wal.cache)
    requires Solo(j.init, j.wal.h, txn.id, txn.firstLsn, n, image)
    modifies j.wal, txn
    ensures j.Safe() && j.wal.Live(txn) && txn.id == old(txn.id) && txn.firstLsn == old(txn.firstLsn)
    ensures Solo(j.init, j.wal.h, txn.id, txn.firstLsn, n + Pieces(|p.bytes|), image)
    ensures j.wal.cache == Put(old(j.wal.cache), p)
  {
    ghost var h0, id, first, before := j.wal.h, txn.id, txn.firstLsn, j.wal.cache[p.sector][p.offset..p.offset + |p.bytes|];
    WriteUndisturbed(j, txn, p);
    SoloWrite(j.init, h0, id, first, n, image, p.sector, p.offset, before, p.bytes);
  }

  method WriteAll(j: Journal, txn: Txn, ws: seq<Patch>, ghost image: Image)
    requires j.Safe() && j.wal.Live(txn) && (forall p :: p in ws ==> Fits(p, j.wal.cache)) && image == j.wal.cache
    requires Solo(j.init, j.wal.h, txn.id, txn.firstLsn, 0, image)
    modifies j.wal, txn
    ensures j.Safe() && j.wal.Live(txn)
    ensures Solo(j.init, j.wal.h, txn.id, txn.firstLsn, RecordsOf(ws), image)
    ensures j.wal.cache == PutAll(image, ws)
  {
    for k := 0 to |ws|
      invariant j.Safe() && j.wal.Live(txn)
      invariant Solo(j.init, j.wal.h, txn.id, txn.firstLsn, RecordsOf(ws[..k]), image)
      invariant j.wal.cache == PutAll(image, ws[..k])
    {
      PutAllNext(image, ws, k);
      assert ws[k] in ws;
      WriteOne(j, txn, ws[k], RecordsOf(ws[..k]), image);
    }
    assert ws[..|ws|] == ws;
  }

  /** A whole transaction. Committed, its writes are visible and durable; aborted, nothing has changed, as long
      as it logged no more records than the log holds. */
  method Transact(j: Journal, ws: seq<Patch>, commit: bool)
    requires j.Safe() && Quiet(j.wal.h) && forall p :: p in ws ==> Fits(p, j.wal.cache)
    modifies j.wal
    ensures commit || RecordsOf(ws) <= LOG_SECTORS ==> j.Safe() && Quiet(j.wal.h)
    ensures commit ==> j.wal.cache == PutAll(old(j.wal.cache), ws) && j.wal.flushedLsn == |j.wal.h|
    ensures !commit && RecordsOf(ws) <= LOG_SECTORS ==> j.wal.cache == old(j.wal.cache)
  {
    ghost var h0, image := j.wal.h, j.wal.cache;
    SoundTracks(j.init, h0, j.wal.flushedLsn, image, j.wal.disk);
    var txn := j.Begin();
    SoloBegin(j.init, h0, txn.id);
    WriteAll(j, txn, ws, image);
    if commit { CommitAlone(j, txn); } else { AbortAlone(j, txn, RecordsOf(ws), image); }
  }

  method CommitAlone(j: Journal, txn: Txn)
    requires j.Safe() && j.wal.Live(txn) && OthersDone(j.wal.h, txn.id)
    modifies j.wal, txn
    ensures j.Safe() && Quiet(j.wal.h) && j.wal.cache == old(j.wal.cache) && j.wal.flushedLsn == |j.wal.h|
  {
    ghost var h0, id := j.wal.h, txn.id;
    j.Commit(txn);
    ghost var c, k := Record(|h0| + 1, id, Commit, 0, 0, [], []), Record(|h0| + 2, 0, Checkpoint, 0, 0, [], []);
    SoloEnds(h0, id, [c]);
    SoloEnds(h0, id, [c, k]);
    assert h0 + [c, k] == h0 + [c] + [k];
  }

  method AbortAlone(j: Journal, txn: Txn, ghost n: nat, ghost image: Image)
    requires j.Safe() && j.wal.Live(txn) && Solo(j.init, j.wal.h, txn.id, txn.firstLsn, n, image)
    modifies j.wal, txn
    ensures n <= LOG_SECTORS ==> j.Safe() && Quiet(j.wal.h) && j.wal.cache == image
  {
    ghost var h0, id, first := j.wal.h, txn.id, txn.firstLsn;
    j.Abort(txn);
    if n <= LOG_SECTORS {
      SoloEnds(h0, id, [Record(|h0| + 1, id, Abort, 0, 0, [], [])]);
      SoloRestored(j.init, h0, id, first, n, image, j.wal.cache);
    }
  }

  /** A crash after any such transactions: the next mount finds what readers saw, when the log is flushed and
      at most its first record has been overwritten. */
  method CrashAndMount(j: Journal) returns (disk: Image)
    requires j.Safe() && Quiet(j.wal.h) && j.wal.flushedLsn == |j.wal.h| && Recoverable(|j.wal.h|)
    ensures disk == j.wal.cache
  {
    var d := j.Restart();
    disk := d.disk;
    SoundTracks(j.init, j.wal.h, j.wal.flushedLsn, j.wal.cache, j.wal.disk);
    assert j.wal.h[..j.wal.flushedLsn] == j.wal.h;
    forall s, o | s in j.init && 0 <= o < SECTOR_SIZE ensures disk[s][o] == j.wal.cache[s][o] {
      QuietIsCommitted(j.init, j.wal.h, s, o);
    }
    SameBytes(disk, j.wal.cache);
  }
}
