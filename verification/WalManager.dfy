/** The log manager as the kernel runs it: the record buffer, the 64-slot ring on disk, and transactions. */
module WalManager {
  import opened Sectors
  import opened WalHistory
  import opened WalRecovery
  import opened Options

  const BUFFER_RECORDS: nat := 8
  const MAX_UNDO_RECORDS: nat := 64

  datatype TxnState = Active | Committed | Aborted

  class Txn {
    var id: nat
    var state: TxnState
    var firstLsn: nat
    var lastLsn: nat

    constructor (id: nat, firstLsn: nat)
      ensures this.id == id && state == Active && this.firstLsn == lastLsn == firstLsn
    {
      this.id := id;
      state := Active;
      this.firstLsn := firstLsn;
      lastLsn := firstLsn;
    }
  }

  // ---------------------------------------------------------------- the ring

  function SlotOf(lsn: nat): nat
    requires lsn > 0
  {
    (lsn - 1) % LOG_SECTORS
  }

  /** Writing the next record into its slot moves the window by one. */
  lemma LogOfNext(h: seq<Record>, k: nat)
    requires k < |h|
    ensures LogOf(h[..k + 1]) == LogOf(h[..k])[k % LOG_SECTORS := Holds(h[k])]
  {
    assert h[..k + 1][..k] == h[..k];
    var next, log := LogOf(h[..k + 1]), LogOf(h[..k])[k % LOG_SECTORS := Holds(h[k])];
    assert forall i :: 0 <= i < LOG_SECTORS ==> next[i] == log[i];
  }

  /** Rewriting a record that is still the newest of its slot changes nothing. */
  lemma LogOfRewrite(h: seq<Record>, k: nat, j: nat)
    requires j < k <= |h| && k <= j + LOG_SECTORS
    ensures LogOf(h[..k])[j % LOG_SECTORS := Holds(h[j])] == LogOf(h[..k])
  {
    InSlot(h[..k], j);
  }

  /** The ring invariant: LSNs are consecutive, the buffer holds the newest records and every
      unflushed one, and the durable log is exactly the window of the flushed prefix. */
  ghost predicate RingOk(log: seq<Slot>, buffer: seq<Record>, flushed: nat, h: seq<Record>) {
    && flushed <= |h|
    && |buffer| <= BUFFER_RECORDS && |h| - flushed <= |buffer| <= |h|
    && buffer == h[|h| - |buffer|..]
    && (forall i :: 0 <= i < |h| ==> h[i].lsn == i + 1)
    && log == LogOf(h[..flushed])
  }

  lemma RingAppend(log: seq<Slot>, buffer: seq<Record>, flushed: nat, h: seq<Record>, r: Record)
    requires RingOk(log, buffer, flushed, h) && |buffer| < BUFFER_RECORDS && r.lsn == |h| + 1
    ensures RingOk(log, buffer + [r], flushed, h + [r])
  {
    assert (h + [r])[..flushed] == h[..flushed];
  }

  lemma RingEmptied(log: seq<Slot>, buffer: seq<Record>, h: seq<Record>)
    requires RingOk(log, buffer, |h|, h)
    ensures RingOk(log, [], |h|, h)
  {
  }

  /** Records since the last checkpoint, or since the log began. */
  function LogUsed(nextLsn: nat, checkpointLsn: nat): int {
    if checkpointLsn == 0 then nextLsn - 1 else nextLsn - checkpointLsn
  }

  /** That is the length of the history from the checkpoint record on. */
  lemma LogUsedCounts(h: seq<Record>, checkpointLsn: nat)
    requires checkpointLsn <= |h|
    ensures LogUsed(|h| + 1, checkpointLsn) == |if checkpointLsn == 0 then h else h[checkpointLsn - 1..]|
  {
  }

  ghost predicate IdsBelow(h: seq<Record>, n: nat) {
    n > 0 && forall i :: 0 <= i < |h| ==> h[i].txn < n
  }

  // ---------------------------------------------------------------- splitting a write

  function ChunkSize(n: nat): nat { if n > MAX_DATA_SIZE then MAX_DATA_SIZE else n }

  /** The records one logged write becomes: pieces of at most 232 bytes, in order. */
  function Chunks(lsn: nat, txn: nat, sector: nat, offset: nat, before: seq<byte>, after: seq<byte>): seq<Record>
    requires |before| == |after|
    decreases |after|
  {
    if after == [] then []
    else
      var c := ChunkSize(|after|);
      [Record(lsn, txn, Write, sector, offset, before[..c], after[..c])]
      + Chunks(lsn + 1, txn, sector, offset + c, before[c..], after[c..])
  }

  /** Every piece is a record that fits its sector: from 1 to 232 bytes, and full but for the last. */
  lemma {:induction false} PieceSizes(lsn: nat, txn: nat, sector: nat, offset: nat, before: seq<byte>, after: seq<byte>)
    requires |before| == |after|
    ensures var rs := Chunks(lsn, txn, sector, offset, before, after);
      && (forall i :: 0 <= i < |rs| ==> 0 < |rs[i].after| <= 232 && |rs[i].before| == |rs[i].after| && rs[i].lsn == lsn + i)
      && (forall i :: 0 <= i < |rs| - 1 ==> |rs[i].after| == 232)
      && |after| <= 232 * |rs| < |after| + 232
    decreases |after|
  {
    if after != [] {
      var c := ChunkSize(|after|);
      ChunksCons(lsn, txn, sector, offset, before, after);
      PieceSizes(lsn + 1, txn, sector, offset + c, before[c..], after[c..]);
    }
  }

  /** No other unfinished transaction has written the range. */
  ghost predicate RangeFree(h: seq<Record>, txn: nat, sector: nat, offset: nat, n: nat) {
    forall i, o: nat :: 0 <= i < |h| && Touches(h[i], sector, o) && offset <= o < offset + n && h[i].txn != txn
                   ==> Finished(h, h[i].txn)
  }

  lemma PutTwice(d: Image, sector: nat, offset: nat, a: seq<byte>, b: seq<byte>)
    requires sector in d && offset + |a| + |b| <= SECTOR_SIZE
    ensures Put(Put(d, Patch(sector, offset, a)), Patch(sector, offset + |a|, b)) == Put(d, Patch(sector, offset, a + b))
  {
    SameBytes(Put(Put(d, Patch(sector, offset, a)), Patch(sector, offset + |a|, b)), Put(d, Patch(sector, offset, a + b)));
  }

  lemma PutSplit(d: Image, sector: nat, offset: nat, bytes: seq<byte>, c: nat)
    requires sector in d && offset + |bytes| <= SECTOR_SIZE && c <= |bytes|
    ensures Put(Put(d, Patch(sector, offset, bytes[..c])), Patch(sector, offset + c, bytes[c..])) == Put(d, Patch(sector, offset, bytes))
  {
    PutTwice(d, sector, offset, bytes[..c], bytes[c..]);
    assert bytes[..c] + bytes[c..] == bytes;
  }

  lemma FinishedAppend(h: seq<Record>, r: Record, t: nat)
    ensures Finished(h, t) ==> Finished(h + [r], t)
    ensures !r.kind.Commit? && !r.kind.Abort? ==> (Finished(h + [r], t) <==> Finished(h, t))
  {
    var h' := h + [r];
    if Finished(h, t) {
      var i :| 0 <= i < |h| && h[i].txn == t && (h[i].kind.Commit? || h[i].kind.Abort?);
      assert h'[i].txn == t;
    }
    if Finished(h', t) && !r.kind.Commit? && !r.kind.Abort? {
      var i :| 0 <= i < |h'| && h'[i].txn == t && (h'[i].kind.Commit? || h'[i].kind.Abort?);
      assert h[i].txn == t;
    }
  }

  lemma BegunAppend(h: seq<Record>, r: Record, t: nat)
    requires Begun(h, t)
    ensures Begun(h + [r], t)
  {
    var i :| 0 <= i < |h| && h[i].kind.Begin? && h[i].txn == t;
    assert (h + [r])[i] == h[i];
  }

  /** One more write record by a transaction that may write the range. */
  lemma ChunkAppends(init: Image, h: seq<Record>, r: Record, n: nat)
    requires Logged(init, h) && r.kind.Write? && r.txn != 0 && Begun(h, r.txn) && !Finished(h, r.txn) && r.lsn == |h| + 1
    requires r.sector in init && r.offset + n <= SECTOR_SIZE && |r.after| <= n && |r.before| == |r.after|
    requires r.before == View(init, h)[r.sector][r.offset..r.offset + |r.after|]
    requires RangeFree(h, r.txn, r.sector, r.offset, n)
    ensures Logged(init, h + [r]) && Begun(h + [r], r.txn) && !Finished(h + [r], r.txn)
    ensures View(init, h + [r]) == Put(View(init, h), Redo(r))
    ensures RangeFree(h + [r], r.txn, r.sector, r.offset, n)
  {
    var h' := h + [r];
    assert h'[..|h|] == h;
    assert Exclusive(h, r);
    FinishedAppend(h, r, r.txn);
    BegunAppend(h, r, r.txn);
    forall i, o: nat | 0 <= i < |h'| && Touches(h'[i], r.sector, o) && r.offset <= o < r.offset + n && h'[i].txn != r.txn
      ensures Finished(h', h'[i].txn)
    {
      assert Touches(h[i], r.sector, o);
      FinishedAppend(h, r, h[i].txn);
    }
  }

  ghost predicate MayWrite(init: Image, h: seq<Record>, txn: nat, sector: nat, offset: nat, before: seq<byte>) {
    && Logged(init, h) && txn != 0 && Begun(h, txn) && !Finished(h, txn)
    && sector in init && offset + |before| <= SECTOR_SIZE
    && before == View(init, h)[sector][offset..offset + |before|]
    && RangeFree(h, txn, sector, offset, |before|)
  }

  /** A patch leaves the bytes behind it in the sector alone. */
  lemma TailUntouched(v: Image, p: Patch, c: nat, n: nat)
    requires p.sector in v && |p.bytes| == c <= n && p.offset + n <= SECTOR_SIZE
    ensures Put(v, p)[p.sector][p.offset + c..p.offset + n] == v[p.sector][p.offset + c..p.offset + n]
  {
  }

  /** After the first piece is logged, the rest may still be. */
  lemma RestMayWrite(init: Image, h: seq<Record>, txn: nat, sector: nat, offset: nat, before: seq<byte>, r: Record, c: nat)
    requires MayWrite(init, h, txn, sector, offset, before) && c <= |before|
    requires r.kind.Write? && r.lsn == |h| + 1 && r.txn == txn && r.sector == sector && r.offset == offset
    requires r.before == before[..c] && |r.after| == c
    ensures MayWrite(init, h + [r], txn, sector, offset + c, before[c..])
    ensures View(init, h + [r]) == Put(View(init, h), Redo(r))
  {
    var v := View(init, h);
    assert r.before == v[sector][offset..offset + c];
    ChunkAppends(init, h, r, |before|);
    TailUntouched(v, Redo(r), c, |before|);
    assert before[c..] == v[sector][offset + c..offset + |before|];
  }

  lemma Regroup<T>(h: seq<T>, r: T, rest: seq<T>)
    ensures h + ([r] + rest) == h + [r] + rest
  {
  }

  lemma ChunksCons(lsn: nat, txn: nat, sector: nat, offset: nat, before: seq<byte>, after: seq<byte>)
    requires |before| == |after| && after != []
    ensures var c := ChunkSize(|after|);
      Chunks(lsn, txn, sector, offset, before, after)
        == [Record(lsn, txn, Write, sector, offset, before[..c], after[..c])]
           + Chunks(lsn + 1, txn, sector, offset + c, before[c..], after[c..])
  {
  }

  lemma ChunksGrow(h: seq<Record>, txn: nat, sector: nat, offset: nat, before: seq<byte>, after: seq<byte>)
    requires |before| == |after| && after != []
    ensures var c := ChunkSize(|after|);
      h + Chunks(|h| + 1, txn, sector, offset, before, after)
        == h + [Record(|h| + 1, txn, Write, sector, offset, before[..c], after[..c])]
           + Chunks(|h| + 2, txn, sector, offset + c, before[c..], after[c..])
  {
  }

  lemma NoBytes(d: Image, sector: nat, offset: nat)
    ensures Put(d, Patch(sector, offset, [])) == d
  {
    SameBytes(d, Put(d, Patch(sector, offset, [])));
  }

  // ---------------------------------------------------------------- what the data region holds

  /** The history is well formed and the visible contents are what it says. */
  ghost predicate Tracks(init: Image, h: seq<Record>, cache: Image) {
    Logged(init, h) && cache == View(init, h)
  }

  /** A record that changes no data. */
  lemma TracksMark(init: Image, h: seq<Record>, cache: Image, r: Record)
    requires Tracks(init, h, cache) && CanAppend(init, h, r) && !r.kind.Write? && !r.kind.Abort?
    ensures Tracks(init, h + [r], cache)
  {
    assert (h + [r])[..|h|] == h;
  }

  /** A write logged in pieces and then applied to the cache: every piece's before-image is right, and
      together they have the effect of the one write. */
  lemma {:induction false} TracksWrite(init: Image, h: seq<Record>, txn: nat, sector: nat, offset: nat, before: seq<byte>, after: seq<byte>)
    requires |before| == |after| && MayWrite(init, h, txn, sector, offset, before)
    ensures Tracks(init, h + Chunks(|h| + 1, txn, sector, offset, before, after), Put(View(init, h), Patch(sector, offset, after)))
    ensures !Finished(h + Chunks(|h| + 1, txn, sector, offset, before, after), txn)
    decreases |after|
  {
    if after == [] {
      NoBytes(View(init, h), sector, offset);
      assert h + Chunks(|h| + 1, txn, sector, offset, before, after) == h;
    } else {
      var c := ChunkSize(|after|);
      var r := Record(|h| + 1, txn, Write, sector, offset, before[..c], after[..c]);
      RestMayWrite(init, h, txn, sector, offset, before, r, c);
      TracksWrite(init, h + [r], txn, sector, offset + c, before[c..], after[c..]);
      ChunksGrow(h, txn, sector, offset, before, after);
      PutSplit(View(init, h), sector, offset, after, c);
    }
  }

  /** The slot of an LSN holds that record exactly while it is flushed and not yet overwritten. */
  lemma WindowHolds(h: seq<Record>, flushed: nat, lsn: nat)
    requires 0 < lsn && flushed <= |h| && forall i :: 0 <= i < |h| ==> h[i].lsn == i + 1
    ensures var slot := LogOf(h[..flushed])[SlotOf(lsn)];
      && (slot.Holds? && slot.rec.lsn == lsn <==> lsn <= flushed < lsn + LOG_SECTORS)
      && (lsn <= flushed < lsn + LOG_SECTORS ==> slot == Holds(h[lsn - 1]))
  {
    var g, i := h[..flushed], SlotOf(lsn);
    if lsn <= flushed < lsn + LOG_SECTORS {
      InSlot(g, lsn - 1);
    } else if LogOf(g)[i].Holds? {
      var j := FromSlot(g, i);
    }
  }

  // ---------------------------------------------------------------- rolling back from the ring

  /** Writes of `t` in h[lo..], oldest first. */
  function WritesBy(h: seq<Record>, lo: nat, t: nat): (rs: seq<Record>)
    requires lo <= |h|
    ensures |rs| <= |h| - lo
    decreases |h|
  {
    if lo == |h| then []
    else
      var n := |h| - 1;
      if h[n].kind.Write? && h[n].txn == t then WritesBy(h[..n], lo, t) + [h[n]] else WritesBy(h[..n], lo, t)
  }

  /** Restoring the before-images of `rs`, newest first. */
  function RolledBack(d: Image, rs: seq<Record>): Image
    decreases |rs|
  {
    if rs == [] then d else RolledBack(Put(d, Undo(rs[|rs| - 1])), rs[..|rs| - 1])
  }

  /** `lsns` are readable and name the records `rs`. */
  ghost predicate RecordsAt(h: seq<Record>, lsns: seq<nat>, rs: seq<Record>) {
    |lsns| == |rs| && forall i :: 0 <= i < |lsns| ==> 1 <= lsns[i] <= |h| < lsns[i] + LOG_SECTORS && rs[i] == h[lsns[i] - 1]
  }

  /** What a scan that has reached index `k` has found. */
  ghost function FoundBy(h: seq<Record>, lo: nat, t: nat, k: nat): (rs: seq<Record>)
    requires k <= |h|
    ensures |rs| <= if k <= lo then 0 else k - lo
  {
    if k <= lo then [] else WritesBy(h[..k], lo, t)
  }

  lemma FoundByNext(h: seq<Record>, lo: nat, t: nat, k: nat)
    requires lo <= k < |h|
    ensures FoundBy(h, lo, t, k + 1)
         == if h[k].kind.Write? && h[k].txn == t then FoundBy(h, lo, t, k) + [h[k]] else FoundBy(h, lo, t, k)
  {
    assert h[..k + 1][..k] == h[..k];
  }

  lemma RecordsAtAppend(h: seq<Record>, lsns: seq<nat>, rs: seq<Record>, k: nat)
    requires RecordsAt(h, lsns, rs) && k < |h| < k + 1 + LOG_SECTORS
    ensures RecordsAt(h, lsns + [k + 1], rs + [h[k]])
  {
  }

  lemma {:induction false} PutAllCons(d: Image, p: Patch, ps: seq<Patch>)
    ensures PutAll(d, [p] + ps) == PutAll(Put(d, p), ps)
  {
    PutAllAppend(d, [p], ps);
    assert PutAll(d, [p][..0]) == d;
  }

  lemma RolledBackSnoc(d: Image, rs: seq<Record>, r: Record)
    ensures RolledBack(d, rs + [r]) == RolledBack(Put(d, Undo(r)), rs)
  {
    assert (rs + [r])[..|rs|] == rs;
  }

  /** Reading the records back and undoing them is the rollback of the history, when none is missing. */
  lemma {:induction false} RolledBackIsUndo(d: Image, h: seq<Record>, lo: nat, t: nat)
    requires lo <= |h| && forall i :: 0 <= i < lo && h[i].kind.Write? ==> h[i].txn != t
    ensures RolledBack(d, WritesBy(h, lo, t)) == PutAll(d, UndoOf(h, t))
    decreases |h|
  {
    if lo == |h| {
      NoUndo(h, t);
    } else {
      var n := |h| - 1;
      if h[n].kind.Write? && h[n].txn == t {
        RolledBackSnoc(d, WritesBy(h[..n], lo, t), h[n]);
        RolledBackIsUndo(Put(d, Undo(h[n])), h[..n], lo, t);
        PutAllCons(d, Undo(h[n]), UndoOf(h[..n], t));
      } else {
        RolledBackIsUndo(d, h[..n], lo, t);
      }
    }
  }

  lemma {:induction false} NoUndo(h: seq<Record>, t: nat)
    requires forall i :: 0 <= i < |h| && h[i].kind.Write? ==> h[i].txn != t
    ensures UndoOf(h, t) == []
  {
    if h != [] { NoUndo(h[..|h| - 1], t); }
  }

  /** The first index a rollback can still read: the start of the transaction or of the window. */
  function ReadableFrom(n: nat, firstLsn: nat): (lo: nat)
    requires 0 < firstLsn <= n
    ensures lo < n && firstLsn - 1 <= lo && n <= lo + LOG_SECTORS
    ensures n <= firstLsn - 1 + LOG_SECTORS ==> lo == firstLsn - 1
  {
    if n <= firstLsn - 1 + LOG_SECTORS then firstLsn - 1 else n - LOG_SECTORS
  }

  /** An abort whose records are all still readable leaves the history without the transaction. */
  lemma TracksAbort(init: Image, h: seq<Record>, cache: Image, txn: nat, lo: nat)
    requires Tracks(init, h, cache) && txn != 0 && Begun(h, txn) && !Finished(h, txn)
    requires lo <= |h| && forall i :: 0 <= i < lo && h[i].kind.Write? ==> h[i].txn != txn
    ensures Tracks(init, h + [Record(|h| + 1, txn, Abort, 0, 0, [], [])], RolledBack(cache, WritesBy(h, lo, txn)))
  {
    RolledBackIsUndo(cache, h, lo, txn);
    assert (h + [Record(|h| + 1, txn, Abort, 0, 0, [], [])])[..|h|] == h;
  }

  // ---------------------------------------------------------------- transactions

  /** Transaction `id` is under way: its BEGIN record is `first`, nothing of it is older, and it has not finished. */
  ghost predicate LiveIn(h: seq<Record>, id: nat, first: nat) {
    && 0 < first <= |h| && h[first - 1].kind.Begin? && h[first - 1].txn == id
    && (forall i :: 0 <= i < first - 1 ==> h[i].txn != id)
    && !Finished(h, id)
  }

  lemma LiveAppend(h: seq<Record>, rs: seq<Record>, id: nat, first: nat)
    requires LiveIn(h, id, first) && forall r :: r in rs && r.txn == id ==> !r.kind.Commit? && !r.kind.Abort?
    ensures LiveIn(h + rs, id, first)
  {
    forall i | 0 <= i < |h + rs| && (h + rs)[i].txn == id ensures !(h + rs)[i].kind.Commit? && !(h + rs)[i].kind.Abort? {
      if i >= |h| { assert (h + rs)[i] == rs[i - |h|]; }
    }
  }

  lemma LiveBegun(h: seq<Record>, id: nat, first: nat)
    requires LiveIn(h, id, first)
    ensures Begun(h, id)
  {
  }

  lemma FreshLive(h: seq<Record>, id: nat)
    requires IdsBelow(h, id)
    ensures LiveIn(h + [Record(|h| + 1, id, Begin, 0, 0, [], [])], id, |h| + 1)
  {
  }

  lemma {:induction false} ChunksWrite(lsn: nat, txn: nat, sector: nat, offset: nat, before: seq<byte>, after: seq<byte>)
    requires |before| == |after|
    ensures forall r :: r in Chunks(lsn, txn, sector, offset, before, after) ==> r.kind.Write? && r.txn == txn
    decreases |after|
  {
    if after != [] {
      var c := ChunkSize(|after|);
      ChunksCons(lsn, txn, sector, offset, before, after);
      ChunksWrite(lsn + 1, txn, sector, offset + c, before[c..], after[c..]);
    }
  }

  class Wal {
    var log: seq<Slot>       // the log region on disk
    var disk: Image          // the data region on disk
    var cache: Image         // the data region as seen through the buffer cache
    var nextLsn: nat
    var flushedLsn: nat
    var nextTxn: nat
    var buffer: seq<Record>
    var checkpointLsn: nat
    var checkpointing: bool
    var checkpointPending: bool
    ghost var h: seq<Record>     // every record appended since the log was created

    ghost predicate Ring()
      reads this
    {
      nextLsn == |h| + 1 && IdsBelow(h, nextTxn) && RingOk(log, buffer, flushedLsn, h)
    }

    /** A handle the caller may still use. */
    ghost predicate Live(txn: Txn)
      reads this, txn
    {
      txn.state == Active && 0 < txn.id < nextTxn && LiveIn(h, txn.id, txn.firstLsn)
    }

    /** wal_init on a freshly formatted device. */
    constructor Format(image: Image)
      ensures Ring() && h == [] && cache == disk == image && nextLsn == 1 && nextTxn == 1
      ensures !checkpointPending && !checkpointing && checkpointLsn == 0
    {
      log, disk, cache := LogOf([]), image, image;
      nextLsn, flushedLsn, nextTxn, buffer := 1, 0, 1, [];
      checkpointLsn, checkpointing, checkpointPending := 0, false, false;
      h := [];
    }

    /** Writes the whole buffer to its slots, again if need be; the buffer is not emptied. */
    method Flush(upTo: nat)
      requires Ring()
      modifies this`log, this`flushedLsn
      ensures Ring()
      ensures flushedLsn == if upTo <= old(flushedLsn) then old(flushedLsn) else |h|
    {
      if upTo <= flushedLsn { return; }
      if buffer == [] { return; }
      var max := flushedLsn;
      ghost var b := |h| - |buffer|;
      for i := 0 to |buffer|
        invariant b + i <= |h| && flushedLsn == old(flushedLsn)
        invariant max == if flushedLsn < b + i then b + i else flushedLsn
        invariant log == LogOf(h[..max])
      {
        var rec := buffer[i];
        assert rec == h[b + i];
        if max == b + i { LogOfNext(h, b + i); } else { LogOfRewrite(h, max, b + i); }
        log := log[SlotOf(rec.lsn) := Holds(rec)];
        if rec.lsn > max { max := rec.lsn; }
      }
      flushedLsn := max;
    }

    /** Reads a record back. It succeeds exactly on the flushed LSNs that are still in the window. */
    method ReadRecord(lsn: nat) returns (r: Option<Record>)
      requires Ring()
      ensures r.Some? <==> 1 <= lsn <= flushedLsn && flushedLsn < lsn + LOG_SECTORS
      ensures r.Some? ==> r.value == h[lsn - 1]
    {
      if lsn == 0 { return None; }
      var slot := log[SlotOf(lsn)];
      WindowHolds(h, flushedLsn, lsn);
      if slot.Blank? || slot.rec.lsn != lsn { return None; }
      return Some(slot.rec);
    }

    /** Flushes and empties a full buffer. */
    method MakeRoom()
      requires Ring()
      modifies this`log, this`flushedLsn, this`buffer
      ensures Ring() && |buffer| < BUFFER_RECORDS && old(flushedLsn) <= flushedLsn
      ensures old(|buffer|) < BUFFER_RECORDS ==> log == old(log) && flushedLsn == old(flushedLsn) && buffer == old(buffer)
      ensures old(|buffer|) == BUFFER_RECORDS ==> flushedLsn == |h| && buffer == []
    {
      if |buffer| == BUFFER_RECORDS {
        Flush(nextLsn - 1);
        RingEmptied(log, buffer, h);
        buffer := [];
      }
    }

    /** Appends a record under the next LSN to the buffer, which is flushed and emptied first when it is full. */
    method Buffer(r: Record)
      requires Ring() && r.txn < nextTxn && r.lsn == nextLsn
      modifies this`log, this`flushedLsn, this`buffer, this`nextLsn, this`h
      ensures Ring() && h == old(h) + [r]
      ensures old(flushedLsn) <= flushedLsn < r.lsn
      ensures if old(|buffer|) < BUFFER_RECORDS then log == old(log) && flushedLsn == old(flushedLsn) && buffer == old(buffer) + [r]
              else flushedLsn == |old(h)| && buffer == [r]
    {
      MakeRoom();
      RingAppend(log, buffer, flushedLsn, h, r);
      buffer := buffer + [r];
      h := h + [r];
      nextLsn := nextLsn + 1;
    }

    /** Appends a record; notes that a checkpoint is due once the log is three quarters full. */
    method Append(rec: Record) returns (lsn: nat)
      requires Ring() && rec.txn < nextTxn
      modifies this`log, this`flushedLsn, this`buffer, this`nextLsn, this`h, this`checkpointLsn, this`checkpointPending
      ensures Ring()
      ensures lsn == old(nextLsn) && h == old(h) + [rec.(lsn := lsn)]
      ensures old(flushedLsn) <= flushedLsn < lsn
      ensures checkpointLsn == if rec.kind.Checkpoint? then lsn else old(checkpointLsn)
      ensures checkpointPending == (old(checkpointPending) || (LogUsed(nextLsn, checkpointLsn) >= LOG_SECTORS * 3 / 4 && !checkpointing))
    {
      lsn := nextLsn;
      Buffer(rec.(lsn := lsn));
      checkpointLsn := if rec.kind.Checkpoint? then lsn else checkpointLsn;
      checkpointPending := checkpointPending || (LogUsed(nextLsn, checkpointLsn) >= LOG_SECTORS * 3 / 4 && !checkpointing);
    }

    /** Appends a record and flushes the log through it. */
    method AppendDurable(rec: Record) returns (lsn: nat)
      requires Ring() && rec.txn < nextTxn
      modifies this`log, this`flushedLsn, this`buffer, this`nextLsn, this`h, this`checkpointLsn, this`checkpointPending
      ensures Ring() && flushedLsn == |h|
      ensures lsn == old(nextLsn) && h == old(h) + [rec.(lsn := lsn)]
      ensures checkpointLsn == if rec.kind.Checkpoint? then lsn else old(checkpointLsn)
      ensures checkpointPending == (old(checkpointPending) || (LogUsed(nextLsn, checkpointLsn) >= LOG_SECTORS * 3 / 4 && !checkpointing))
    {
      lsn := Append(rec);
      Flush(lsn);
    }

    method Begin() returns (txn: Txn)
      requires Ring()
      modifies this`log, this`flushedLsn, this`buffer, this`nextLsn, this`nextTxn, this`h, this`checkpointLsn, this`checkpointPending
      ensures Ring() && fresh(txn) && Live(txn)
      ensures txn.id == old(nextTxn) && nextTxn == txn.id + 1 && txn.firstLsn == |h|
      ensures h == old(h) + [Record(|h|, txn.id, Kind.Begin, 0, 0, [], [])] && old(flushedLsn) <= flushedLsn
    {
      var id := nextTxn;
      nextTxn := nextTxn + 1;
      var lsn := Append(Record(0, id, Kind.Begin, 0, 0, [], []));
      FreshLive(old(h), id);
      txn := new Txn(id, lsn);
    }

    /** Logs a write before the data changes, in pieces of at most 232 bytes. */
    method LogWrite(txn: Txn?, sector: nat, before: seq<byte>, after: seq<byte>, offset: nat) returns (ok: bool)
      requires Ring() && |before| == |after|
      requires txn != null && txn.state == Active ==> Live(txn)
      modifies this`log, this`flushedLsn, this`buffer, this`nextLsn, this`h, this`checkpointLsn, this`checkpointPending
      modifies if txn == null then {} else {txn}
      ensures Ring()
      ensures ok <==> txn != null && old(txn.state) == Active
      ensures !ok ==> h == old(h)
      ensures ok ==> h == old(h) + Chunks(|old(h)| + 1, txn.id, sector, offset, before, after)
      ensures ok ==> txn.id == old(txn.id) && txn.firstLsn == old(txn.firstLsn) && Live(txn)
      ensures ok && after != [] ==> txn.lastLsn == |h|
      ensures old(flushedLsn) <= flushedLsn && nextTxn == old(nextTxn)
    {
      if txn == null || txn.state != Active { return false; }
      var done := 0;
      assert before[0..] == before && after[0..] == after;
      while done < |after|
        invariant done <= |after| && Ring() && old(h) <= h && nextTxn == old(nextTxn) && old(flushedLsn) <= flushedLsn
        invariant txn.state == Active && txn.id == old(txn.id) && txn.firstLsn == old(txn.firstLsn) && (done > 0 ==> txn.lastLsn == |h|)
        invariant h + Chunks(|h| + 1, txn.id, sector, offset + done, before[done..], after[done..])
               == old(h) + Chunks(|old(h)| + 1, txn.id, sector, offset, before, after)
      {
        done := LogPiece(txn, sector, before, after, offset, done);
      }
      assert h + [] == h;
      ChunksWrite(|old(h)| + 1, txn.id, sector, offset, before, after);
      LiveAppend(old(h), Chunks(|old(h)| + 1, txn.id, sector, offset, before, after), txn.id, txn.firstLsn);
      return true;
    }

    method LogPiece(txn: Txn, sector: nat, before: seq<byte>, after: seq<byte>, offset: nat, done: nat) returns (done': nat)
      requires Ring() && txn.id < nextTxn && done < |after| == |before|
      modifies this`log, this`flushedLsn, this`buffer, this`nextLsn, this`h, this`checkpointLsn, this`checkpointPending
      modifies txn`lastLsn
      ensures Ring() && done < done' <= |after| && old(h) <= h && old(flushedLsn) <= flushedLsn && txn.lastLsn == |h|
      ensures h + Chunks(|h| + 1, txn.id, sector, offset + done', before[done'..], after[done'..])
           == old(h) + Chunks(|old(h)| + 1, txn.id, sector, offset + done, before[done..], after[done..])
    {
      var size := ChunkSize(|after| - done);
      var b, a := before[done..], after[done..];
      var lsn := Append(Record(0, txn.id, Kind.Write, sector, offset + done, b[..size], a[..size]));
      txn.lastLsn := lsn;
      done' := done + size;
      ChunksCons(lsn, txn.id, sector, offset + done, b, a);
      assert b[size..] == before[done'..] && a[size..] == after[done'..];
      Regroup(old(h), h[lsn - 1], Chunks(|h| + 1, txn.id, sector, offset + done', before[done'..], after[done'..]));
    }

    /** A write inside a transaction: read the old bytes, log, then change the cache. */
    method Write(txn: Txn, sector: nat, bytes: seq<byte>, offset: nat)
      requires Ring() && Live(txn)
      requires sector in cache && offset + |bytes| <= SECTOR_SIZE
      modifies this`log, this`flushedLsn, this`buffer, this`nextLsn, this`h, this`checkpointLsn, this`checkpointPending, this`cache
      modifies txn
      ensures Ring() && Live(txn) && txn.id == old(txn.id) && txn.firstLsn == old(txn.firstLsn)
      ensures cache == Put(old(cache), Patch(sector, offset, bytes))
      ensures h == old(h) + Chunks(|old(h)| + 1, txn.id, sector, offset, old(cache)[sector][offset..offset + |bytes|], bytes)
      ensures old(flushedLsn) <= flushedLsn && nextTxn == old(nextTxn)
    {
      var before := cache[sector][offset..offset + |bytes|];
      var ok := LogWrite(txn, sector, before, bytes, offset);
      cache := Put(cache, Patch(sector, offset, bytes));
    }

    /** cache_flush, as far as the log is concerned. */
    method FlushCache()
      modifies this`disk
      ensures disk == cache
    {
      disk := cache;
    }

    /** Eviction of one cached sector. */
    method WriteBack(sector: nat)
      requires sector in cache
      modifies this`disk
      ensures disk == old(disk)[sector := cache[sector]]
    {
      disk := disk[sector := cache[sector]];
    }

    method Checkpoint()
      requires Ring()
      modifies this`log, this`flushedLsn, this`buffer, this`nextLsn, this`h, this`checkpointLsn, this`checkpointPending, this`disk, this`checkpointing
      ensures Ring() && checkpointing == old(checkpointing)
      ensures !old(checkpointing) ==>
        disk == cache && flushedLsn == |h| && checkpointLsn == |h|
        && h == old(h) + [Record(|h|, 0, Kind.Checkpoint, 0, 0, [], [])]
      ensures old(checkpointing) ==> h == old(h) && flushedLsn == old(flushedLsn) && disk == old(disk) && checkpointLsn == old(checkpointLsn)
      ensures checkpointPending == old(checkpointPending)
    {
      if checkpointing { return; }
      checkpointing := true;
      FlushCache();
      Flush(nextLsn - 1);
      var lsn := AppendDurable(Record(0, 0, Kind.Checkpoint, 0, 0, [], []));
      checkpointing := false;
    }

    /** Commit. Once it returns true, the COMMIT record is on disk and readable under its LSN. */
    method Commit(txn: Txn?) returns (ok: bool)
      requires Ring()
      requires txn != null && txn.state == Active ==> Live(txn)
      modifies this`log, this`flushedLsn, this`buffer, this`nextLsn, this`h, this`checkpointLsn, this`checkpointPending, this`disk, this`checkpointing
      modifies if txn == null then {} else {txn}
      ensures Ring()
      ensures ok <==> txn != null && old(txn.state) == Active
      ensures !ok ==> h == old(h) && flushedLsn == old(flushedLsn) && disk == old(disk)
      ensures ok ==> txn.state == TxnState.Committed
      ensures ok ==>
        var committed := old(h) + [Record(old(nextLsn), old(txn.id), Kind.Commit, 0, 0, [], [])];
        if old(!checkpointing && (checkpointPending || LogUsed(nextLsn + 1, checkpointLsn) >= LOG_SECTORS * 3 / 4))
        then h == committed + [Record(|h|, 0, Kind.Checkpoint, 0, 0, [], [])] && disk == cache && checkpointLsn == |h|
        else h == committed && disk == old(disk) && checkpointLsn == old(checkpointLsn)
      ensures ok ==> !checkpointPending
      ensures ok ==> old(nextLsn) <= flushedLsn == |h| < old(nextLsn) + LOG_SECTORS
    {
      if txn == null || txn.state != Active { return false; }
      var lsn := AppendDurable(Record(0, txn.id, Kind.Commit, 0, 0, [], []));
      txn.state := TxnState.Committed;
      if checkpointPending {
        checkpointPending := false;
        Checkpoint();
      }
      return true;
    }

    /** The LSNs a rollback finds: the writes of the transaction that are still in the window. */
    method CollectUndo(first: nat, id: nat, end: nat) returns (lsns: seq<nat>)
      requires Ring() && 0 < first <= |h| && end == nextLsn && flushedLsn == |h|
      ensures |lsns| <= MAX_UNDO_RECORDS
      ensures RecordsAt(h, lsns, WritesBy(h, ReadableFrom(|h|, first), id))
    {
      lsns := [];
      var lsn := first;
      ghost var lo := ReadableFrom(|h|, first);
      while lsn < end && |lsns| < MAX_UNDO_RECORDS
        invariant first <= lsn <= end
        invariant RecordsAt(h, lsns, FoundBy(h, lo, id, lsn - 1))
      {
        var r := ReadRecord(lsn);
        if r.Some? {
          FoundByNext(h, lo, id, lsn - 1);
          if r.value.txn == id && r.value.kind.Write? {
            RecordsAtAppend(h, lsns, FoundBy(h, lo, id, lsn - 1), lsn - 1);
            lsns := lsns + [lsn];
          }
        }
        lsn := lsn + 1;
      }
      assert h[..|h|] == h;
    }

    /** Restores the before-images, newest first, through the cache. */
    method RollBack(lsns: seq<nat>, ghost rs: seq<Record>)
      requires Ring() && flushedLsn == |h| && RecordsAt(h, lsns, rs)
      modifies this`cache
      ensures cache == RolledBack(old(cache), rs)
    {
      var i := |lsns|;
      assert rs[..|rs|] == rs;
      while i > 0
        invariant 0 <= i <= |lsns|
        invariant RolledBack(cache, rs[..i]) == RolledBack(old(cache), rs)
      {
        var r := ReadRecord(lsns[i - 1]);
        RolledBackSnoc(cache, rs[..i - 1], rs[i - 1]);
        assert rs[..i] == rs[..i - 1] + [rs[i - 1]];
        cache := Put(cache, Undo(r.value));
        i := i - 1;
      }
    }

    /** Flushes the log, reads the transaction's writes back and undoes those the log still holds. */
    method UndoWrites(first: nat, id: nat)
      requires Ring() && 0 < first <= |h|
      modifies this`log, this`flushedLsn, this`cache, this`disk
      ensures Ring() && flushedLsn == |h|
      ensures cache == disk == RolledBack(old(cache), WritesBy(h, ReadableFrom(|h|, first), id))
    {
      var end := nextLsn;
      Flush(end);
      var lsns := CollectUndo(first, id, end);
      RollBack(lsns, WritesBy(h, ReadableFrom(|h|, first), id));
      FlushCache();
    }

    /** Abort: undoes the transaction, with the cache flushed to disk, and logs the ABORT record. */
    method Abort(txn: Txn?)
      requires Ring()
      requires txn != null && txn.state == Active ==> Live(txn)
      modifies this`log, this`flushedLsn, this`buffer, this`nextLsn, this`h, this`checkpointLsn, this`checkpointPending, this`disk, this`cache
      modifies if txn == null then {} else {txn}
      ensures Ring()
      ensures txn == null || old(txn.state) != Active ==>
        h == old(h) && cache == old(cache) && disk == old(disk) && flushedLsn == old(flushedLsn)
      ensures txn != null && old(txn.state) == Active ==>
        && txn.state == TxnState.Aborted
        && h == old(h) + [Record(old(nextLsn), old(txn.id), Kind.Abort, 0, 0, [], [])] && flushedLsn == |old(h)|
        && cache == disk == RolledBack(old(cache), WritesBy(old(h), ReadableFrom(|old(h)|, old(txn.firstLsn)), old(txn.id)))
    {
      if txn == null || txn.state != Active { return; }
      UndoWrites(txn.firstLsn, txn.id);
      var lsn := Append(Record(0, txn.id, Kind.Abort, 0, 0, [], []));
      txn.state := TxnState.Aborted;
    }
  }
}
