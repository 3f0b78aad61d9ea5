/** Where an abort stops being complete: it reads back the records it undoes, and the log holds 64. The BEGIN
    record carries no data, so a transaction may log 64 more. */
module WalRollback {
  import opened Sectors
  import opened WalHistory
  import opened WalRecovery
  import opened WalManager
  import opened WalJournal
  import opened WalSerial
  import opened WalWrap

  /** Aborting transaction `id` now brings back what it found. */
  ghost predicate Restores(init: Image, h: seq<Record>, id: nat, first: nat) {
    Logged(init, h) && LiveIn(h, id, first) && Alone(h, first, id) ==>
      RolledBack(View(init, h), WritesBy(h, ReadableFrom(|h|, first), id)) == View(init, h[..first - 1])
  }

  /** Whatever a transaction that ran alone and logged `m` records after its BEGIN did, an abort undoes it. */
  ghost predicate RestoresAll(m: nat) {
    forall init: Image, h: seq<Record>, id: nat, first: nat :: |h| == first + m ==> Restores(init, h, id, first)
  }

  lemma ShortRestores(init: Image, h: seq<Record>, id: nat, first: nat)
    requires Logged(init, h) && LiveIn(h, id, first) && Alone(h, first, id) && InRing(|h|, first)
    ensures RolledBack(View(init, h), WritesBy(h, ReadableFrom(|h|, first), id)) == View(init, h[..first - 1])
  {
    var lo, v := ReadableFrom(|h|, first), View(init, h);
    AllReadable(h, id, first);
    RolledBackKeys(v, WritesBy(h, lo, id));
    forall s, o | s in init && 0 <= o < SECTOR_SIZE ensures RolledBack(v, WritesBy(h, lo, id))[s][o] == View(init, h[..first - 1])[s][o] {
      AbortedByte(init, h, v, first - 1, id, lo, s, o);
    }
    SameBytes(RolledBack(v, WritesBy(h, lo, id)), View(init, h[..first - 1]));
  }

  /** A transaction that changes byte 0 and then writes byte 1 again and again. */
  function LongAt(i: nat): Record {
    if i == 0 then Record(1, 1, Begin, 0, 0, [], [])
    else if i == 1 then Record(2, 1, Write, DATA_SECTOR, 0, [0], [1])
    else Record(i + 1, 1, Write, DATA_SECTOR, 1, [0], [0])
  }

  function Long(n: nat): (h: seq<Record>)
    ensures |h| == n && forall i :: 0 <= i < n ==> h[i] == LongAt(i)
  {
    seq(n, i requires 0 <= i < n => LongAt(i))
  }

  lemma LongNext(n: nat)
    ensures Long(n + 1)[..n] == Long(n)
  {
  }

  lemma {:induction false} LongView(n: nat)
    ensures View(Blanks(), Long(n))[DATA_SECTOR][0] == if n < 2 then 0 else 1
    ensures View(Blanks(), Long(n))[DATA_SECTOR][1] == 0
  {
    if n > 0 {
      LongView(n - 1);
      LongNext(n - 1);
    }
  }

  lemma LongAppends(n: nat)
    ensures CanAppend(Blanks(), Long(n), LongAt(n))
  {
    LongView(n);
    assert n > 0 ==> Long(n)[0].kind.Begin?;
    OneByte(View(Blanks(), Long(n))[DATA_SECTOR], LongAt(n).offset);
  }

  lemma {:induction false} LongLogged(n: nat)
    ensures Logged(Blanks(), Long(n))
  {
    if n > 0 {
      LongLogged(n - 1);
      LongAppends(n - 1);
      LongNext(n - 1);
    }
  }

  /** Every record a rollback reads is one of h[lo..]. */
  lemma {:induction false} WritesByFrom(h: seq<Record>, lo: nat, t: nat, k: nat) returns (i: nat)
    requires lo <= |h| && k < |WritesBy(h, lo, t)|
    ensures lo <= i < |h| && WritesBy(h, lo, t)[k] == h[i]
    decreases |h|
  {
    var n := |h| - 1;
    if k < |WritesBy(h[..n], lo, t)| { i := WritesByFrom(h[..n], lo, t, k); } else { i := n; }
  }

  /** None of the records touches the byte. */
  predicate Misses(rs: seq<Record>, s: nat, o: nat) {
    forall k :: 0 <= k < |rs| ==> !Covers(Undo(rs[k]), s, o)
  }

  lemma {:induction false} RollbackMisses(d: Image, rs: seq<Record>, s: nat, o: nat)
    requires s in d && o < SECTOR_SIZE && Misses(rs, s, o)
    ensures s in RolledBack(d, rs) && RolledBack(d, rs)[s][o] == d[s][o]
    decreases |rs|
  {
    if rs != [] { RollbackMisses(Put(d, Undo(rs[|rs| - 1])), rs[..|rs| - 1], s, o); }
  }

  lemma LongLive(n: nat)
    requires n > 0
    ensures LiveIn(Long(n), 1, 1) && Alone(Long(n), 1, 1)
  {
  }

  lemma LongMissed(m: nat)
    requires m > LOG_SECTORS
    ensures Misses(WritesBy(Long(m + 1), ReadableFrom(m + 1, 1), 1), DATA_SECTOR, 0)
  {
    var rs := WritesBy(Long(m + 1), ReadableFrom(m + 1, 1), 1);
    forall k | 0 <= k < |rs| ensures !Covers(Undo(rs[k]), DATA_SECTOR, 0) {
      var i := WritesByFrom(Long(m + 1), ReadableFrom(m + 1, 1), 1, k);
    }
  }

  lemma LongRollbackMisses(m: nat, v: Image)
    requires m > LOG_SECTORS && DATA_SECTOR in v && v[DATA_SECTOR][0] == 1
    ensures var c := RolledBack(v, WritesBy(Long(m + 1), ReadableFrom(m + 1, 1), 1));
      DATA_SECTOR in c && c[DATA_SECTOR][0] == 1
  {
    LongMissed(m);
    RollbackMisses(v, WritesBy(Long(m + 1), ReadableFrom(m + 1, 1), 1), DATA_SECTOR, 0);
  }

  /** With more records than the log holds, the abort leaves byte 0 changed. */
  lemma LongAbortKeepsWrite(m: nat)
    requires m > LOG_SECTORS
    ensures var c := RolledBack(View(Blanks(), Long(m + 1)), WritesBy(Long(m + 1), ReadableFrom(m + 1, 1), 1));
      DATA_SECTOR in c && c[DATA_SECTOR][0] == 1
  {
    LongView(m + 1);
    LongRollbackMisses(m, View(Blanks(), Long(m + 1)));
  }

  lemma LongNotRestored(m: nat)
    requires m > LOG_SECTORS
    ensures !Restores(Blanks(), Long(m + 1), 1, 1)
  {
    LongLogged(m + 1);
    LongLive(m + 1);
    LongAbortKeepsWrite(m);
    assert Long(m + 1)[..0] == [];
  }

  /** An abort undoes everything exactly for the transactions whose write records fit the log. */
  lemma AbortExact(m: nat)
    ensures RestoresAll(m) <==> m <= LOG_SECTORS
  {
    if m <= LOG_SECTORS {
      forall init: Image, h: seq<Record>, id: nat, first: nat | |h| == first + m ensures Restores(init, h, id, first) {
        if Logged(init, h) && LiveIn(h, id, first) && Alone(h, first, id) { ShortRestores(init, h, id, first); }
      }
    } else {
      LongNotRestored(m);
    }
  }
}
