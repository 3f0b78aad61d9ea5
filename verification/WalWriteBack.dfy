/** Data that reaches the disk ahead of its log records. A checkpoint flushes the cache before the log, and eviction
    and the periodic flusher do not look at the log at all. A crash right after is recovered exactly when no write
    record of the sectors written back was still waiting in the eight-record buffer. */
module WalWriteBack {
  import opened Sectors
  import opened WalHistory
  import opened WalRecovery
  import opened WalManager
  import opened WalJournal
  import opened WalWrap
  import WalCrash

  /** How many write records of the given sectors are not durable yet. */
  function Pending(h: seq<Record>, flushed: nat, ns: set<nat>): nat {
    if |h| <= flushed then 0
    else
      var n := |h| - 1;
      Pending(h[..n], flushed, ns) + if h[n].kind.Write? && h[n].sector in ns then 1 else 0
  }

  lemma {:induction false} PendingBound(h: seq<Record>, flushed: nat, ns: set<nat>)
    requires flushed <= |h|
    ensures Pending(h, flushed, ns) <= |h| - flushed
  {
    if |h| > flushed { PendingBound(h[..|h| - 1], flushed, ns); }
  }

  lemma {:induction false} NonePending(h: seq<Record>, flushed: nat, ns: set<nat>)
    requires Pending(h, flushed, ns) == 0
    ensures forall i :: flushed <= i < |h| && h[i].kind.Write? ==> h[i].sector !in ns
  {
    if |h| > flushed {
      var n := |h| - 1;
      NonePending(h[..n], flushed, ns);
      forall i | flushed <= i < |h| && h[i].kind.Write? ensures h[i].sector !in ns { assert i < n ==> h[..n][i] == h[i]; }
    }
  }

  /** A state the log manager can be in between two of its operations: at most eight records wait in the buffer. */
  ghost predicate InUse(init: Image, h: seq<Record>, flushed: nat, cache: Image, disk: Image) {
    && Sound(init, h, flushed, cache, disk) && Recoverable(flushed)
    && RingOk(LogOf(h[..flushed]), h[flushed..], flushed, h)
  }

  /** A crash that leaves data region `d` and the durable log is recovered to what is committed. */
  ghost predicate CrashRecovers(init: Image, h: seq<Record>, flushed: nat, d: Image)
    requires flushed <= |h|
  {
    && d.Keys == init.Keys
    && forall s, o :: s in init && 0 <= o < SECTOR_SIZE ==>
         Recovered(LogOf(h[..flushed]), d)[s][o] == LastCommitted(init, h[..flushed], s, o)
  }

  lemma SoundCrash(init: Image, h: seq<Record>, flushed: nat, cache: Image, d: Image)
    requires Sound(init, h, flushed, cache, d) && Recoverable(flushed)
    ensures CrashRecovers(init, h, flushed, d)
  {
    assert CrashImage(init, h[..flushed], d);
    forall s, o | s in init && 0 <= o < SECTOR_SIZE
      ensures Recovered(LogOf(h[..flushed]), d)[s][o] == LastCommitted(init, h[..flushed], s, o)
    {
      SoundRecovers(init, h, flushed, cache, d, s, o);
    }
  }

  // ---------------------------------------------------------------- the cache flush of a checkpoint

  /** A crash after the cache flush, with `m` write records pending, is recovered. */
  ghost predicate CheckpointRecovers(init: Image, h: seq<Record>, flushed: nat, cache: Image, disk: Image, m: nat) {
    InUse(init, h, flushed, cache, disk) && Pending(h, flushed, cache.Keys) == m ==> CrashRecovers(init, h, flushed, cache)
  }

  /** The same for every such state. */
  ghost predicate CheckpointSafe(m: nat) {
    forall init: Image, h: seq<Record>, flushed: nat, cache: Image, disk: Image ::
      CheckpointRecovers(init, h, flushed, cache, disk, m)
  }

  /** With every write durable, as after the flush of a commit, the flushed cache is a disk the crash model allows. */
  lemma FlushedCacheSound(init: Image, h: seq<Record>, flushed: nat, cache: Image, disk: Image)
    requires Sound(init, h, flushed, cache, disk)
    requires forall i :: flushed <= i < |h| && h[i].kind.Write? ==> h[i].sector !in cache.Keys
    ensures Sound(init, h, flushed, cache, cache)
  {
    assert h[..|h|] == h;
    forall k | flushed <= k <= |h| ensures CrashImage(init, h[..k], cache) {
      forall s, o | s in init && 0 <= o < SECTOR_SIZE ensures CrashByte(init, h[..k], cache[s][o], s, o) {
        WalCrash.VisibleIsAllowed(init, h, k, |h|, s, o);
      }
    }
  }

  lemma CheckpointWithout(init: Image, h: seq<Record>, flushed: nat, cache: Image, disk: Image, m: nat)
    requires m == 0 || m > BUFFER_RECORDS
    ensures CheckpointRecovers(init, h, flushed, cache, disk, m)
  {
    if InUse(init, h, flushed, cache, disk) && Pending(h, flushed, cache.Keys) == m {
      PendingBound(h, flushed, cache.Keys);
      NonePending(h, flushed, cache.Keys);
      FlushedCacheSound(init, h, flushed, cache, disk);
      SoundCrash(init, h, flushed, cache, cache);
    }
  }

  // ---------------------------------------------------------------- one sector

  /** A crash after sector `n` is written back, with `m` write records of it pending, is recovered. */
  ghost predicate EvictRecovers(init: Image, h: seq<Record>, flushed: nat, cache: Image, disk: Image, n: nat, m: nat) {
    InUse(init, h, flushed, cache, disk) && n in cache && Pending(h, flushed, {n}) == m ==>
      CrashRecovers(init, h, flushed, disk[n := cache[n]])
  }

  ghost predicate EvictSafe(m: nat) {
    forall init: Image, h: seq<Record>, flushed: nat, cache: Image, disk: Image, n: nat ::
      EvictRecovers(init, h, flushed, cache, disk, n, m)
  }

  lemma EvictWithout(init: Image, h: seq<Record>, flushed: nat, cache: Image, disk: Image, n: nat, m: nat)
    requires m == 0 || m > BUFFER_RECORDS
    ensures EvictRecovers(init, h, flushed, cache, disk, n, m)
  {
    if InUse(init, h, flushed, cache, disk) && n in cache && Pending(h, flushed, {n}) == m {
      PendingBound(h, flushed, {n});
      NonePending(h, flushed, {n});
      SoundWriteBack(init, h, flushed, cache, disk, n);
      SoundCrash(init, h, flushed, cache, disk[n := cache[n]]);
    }
  }

  // ---------------------------------------------------------------- a transaction still in the buffer

  /** Seven checkpoints and a BEGIN fill the buffer, which the next append flushes and empties. The transaction then
      changes byte 0 and writes byte 1 again and again. */
  function LateAt(i: nat): Record {
    if i < 7 then Record(i + 1, 0, Checkpoint, 0, 0, [], [])
    else if i == 7 then Record(8, 1, Begin, 0, 0, [], [])
    else if i == 8 then Record(9, 1, Write, DATA_SECTOR, 0, [0], [1])
    else Record(i + 1, 1, Write, DATA_SECTOR, 1, [0], [0])
  }

  function Late(n: nat): (h: seq<Record>)
    ensures |h| == n && forall i :: 0 <= i < n ==> h[i] == LateAt(i)
  {
    seq(n, i requires 0 <= i < n => LateAt(i))
  }

  lemma LateNext(n: nat)
    ensures Late(n + 1)[..n] == Late(n)
  {
  }

  lemma {:induction false} LateView(n: nat)
    ensures View(Blanks(), Late(n))[DATA_SECTOR][0] == if n < 9 then 0 else 1
    ensures View(Blanks(), Late(n))[DATA_SECTOR][1] == 0
  {
    if n > 0 {
      LateView(n - 1);
      LateNext(n - 1);
    }
  }

  lemma LateAppends(n: nat)
    ensures CanAppend(Blanks(), Late(n), LateAt(n))
  {
    LateView(n);
    assert n > 7 ==> Late(n)[7].kind.Begin?;
    OneByte(View(Blanks(), Late(n))[DATA_SECTOR], LateAt(n).offset);
  }

  lemma {:induction false} LateLogged(n: nat)
    ensures Logged(Blanks(), Late(n))
  {
    if n > 0 {
      LateLogged(n - 1);
      LateAppends(n - 1);
      LateNext(n - 1);
    }
  }

  lemma {:induction false} LatePending(m: nat)
    ensures Pending(Late(8 + m), 8, {DATA_SECTOR}) == m
  {
    if m > 0 {
      LatePending(m - 1);
      LateNext(8 + m - 1);
    }
  }

  /** Neither the transaction's data nor its write records are on disk. */
  lemma SoundFromStart(init: Image, h: seq<Record>, flushed: nat)
    requires Logged(init, h) && flushed <= |h| && forall r :: r in h ==> !r.kind.Abort?
    ensures Sound(init, h, flushed, View(init, h), init)
  {
    SoundStart(init);
    assert [] + h == h;
    SoundLogged(init, [], h, 0, init, init, View(init, h));
    SoundFlush(init, h, 0, flushed, View(init, h), init);
  }

  lemma LateNoAbort(n: nat, r: Record)
    requires r in Late(n)
    ensures !r.kind.Abort?
  {
  }

  lemma LateInUse(m: nat)
    requires m <= BUFFER_RECORDS
    ensures InUse(Blanks(), Late(8 + m), 8, View(Blanks(), Late(8 + m)), Blanks())
  {
    var h := Late(8 + m);
    LateLogged(8 + m);
    forall r | r in h ensures !r.kind.Abort? { LateNoAbort(8 + m, r); }
    SoundFromStart(Blanks(), h, 8);
  }

  lemma NothingLogged(g: seq<Record>, ids: set<nat>)
    requires forall i :: 0 <= i < |g| ==> !g[i].kind.Write?
    ensures WritesOf(LogOf(g), ids) == []
  {
    var rs := WritesOf(LogOf(g), ids);
    if rs != [] {
      WritesOfMembers(LogOf(g), ids, rs[0]);
      var i :| 0 <= i < LOG_SECTORS && IsWriteOf(LogOf(g)[i], ids) && LogOf(g)[i].rec == rs[0];
      var j := FromSlot(g, i);
      assert false;
    }
  }

  /** Recovery from a log without write records writes nothing. */
  lemma RecoversNothing(g: seq<Record>, d: Image)
    requires forall i :: 0 <= i < |g| ==> !g[i].kind.Write?
    ensures Recovered(LogOf(g), d) == d
  {
    var log := LogOf(g);
    NothingLogged(g, CommittedIn(log));
    NothingLogged(g, LosersIn(log));
  }

  lemma {:induction false} NothingCommitted(g: seq<Record>, s: nat, o: nat, dead: set<nat>, v: byte)
    requires forall i :: 0 <= i < |g| ==> !g[i].kind.Write?
    ensures LastValue(g, s, o, dead, v) == v
  {
    if g != [] { NothingCommitted(g[..|g| - 1], s, o, dead, v); }
  }

  /** The write of an unfinished transaction is on disk ahead of its log record, and survives the crash. */
  lemma LateLeaks(m: nat)
    requires m > 0
    ensures !CrashRecovers(Blanks(), Late(8 + m), 8, View(Blanks(), Late(8 + m)))
  {
    var h := Late(8 + m);
    var g, c := h[..8], View(Blanks(), h);
    LateView(8 + m);
    RecoversNothing(g, c);
    NothingCommitted(g, DATA_SECTOR, 0, Txns(g) - WalHistory.Committed(g), 0);
    assert Recovered(LogOf(g), c)[DATA_SECTOR][0] == 1 && LastCommitted(Blanks(), g, DATA_SECTOR, 0) == 0;
  }

  lemma OnlySector(m: nat)
    ensures var c := View(Blanks(), Late(8 + m)); c.Keys == {DATA_SECTOR} && Blanks()[DATA_SECTOR := c[DATA_SECTOR]] == c
  {
    var c := View(Blanks(), Late(8 + m));
    assert c.Keys == Blanks().Keys == {DATA_SECTOR};
  }

  /** For each number of pending records the buffer can hold: a checkpoint after which the crash is not recovered. */
  lemma CheckpointLeaks(m: nat)
    requires 0 < m <= BUFFER_RECORDS
    ensures !CheckpointRecovers(Blanks(), Late(8 + m), 8, View(Blanks(), Late(8 + m)), Blanks(), m)
  {
    LateInUse(m);
    LatePending(m);
    LateLeaks(m);
    OnlySector(m);
  }

  /** And an eviction. */
  lemma EvictLeaks(m: nat)
    requires 0 < m <= BUFFER_RECORDS
    ensures !EvictRecovers(Blanks(), Late(8 + m), 8, View(Blanks(), Late(8 + m)), Blanks(), DATA_SECTOR, m)
  {
    LateInUse(m);
    LatePending(m);
    LateLeaks(m);
    OnlySector(m);
  }

  /** The cache flush of a checkpoint is safe against a crash exactly when no write record is pending; more than eight
      never are. */
  lemma CheckpointExact(m: nat)
    ensures CheckpointSafe(m) <==> m == 0 || m > BUFFER_RECORDS
  {
    if m == 0 || m > BUFFER_RECORDS {
      forall init: Image, h: seq<Record>, flushed: nat, cache: Image, disk: Image
        ensures CheckpointRecovers(init, h, flushed, cache, disk, m)
      {
        CheckpointWithout(init, h, flushed, cache, disk, m);
      }
    } else {
      CheckpointLeaks(m);
    }
  }

  /** Writing one sector back is safe against a crash exactly when no write record of it is pending. */
  lemma EvictExact(m: nat)
    ensures EvictSafe(m) <==> m == 0 || m > BUFFER_RECORDS
  {
    if m == 0 || m > BUFFER_RECORDS {
      forall init: Image, h: seq<Record>, flushed: nat, cache: Image, disk: Image, n: nat
        ensures EvictRecovers(init, h, flushed, cache, disk, n, m)
      {
        EvictWithout(init, h, flushed, cache, disk, n, m);
      }
    } else {
      EvictLeaks(m);
    }
  }
}
