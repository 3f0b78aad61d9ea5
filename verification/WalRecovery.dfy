/** What recovery writes, as a function of the durable log, and why that is the committed state. */
module WalRecovery {
  import opened Sectors
  import opened WalHistory

  const LOG_SECTORS: nat := 64

  /** One sector of the log region. `Blank` is a sector whose checksum does not verify. */
  datatype Slot = Blank | Holds(rec: Record)

  predicate Known(slot: Slot) {
    slot.Holds? && slot.rec.lsn != 0 && slot.rec.txn != 0
  }

  function SeenIn(log: seq<Slot>): set<nat> {
    set i | 0 <= i < |log| && Known(log[i]) :: log[i].rec.txn
  }

  function CommittedIn(log: seq<Slot>): set<nat> {
    set i | 0 <= i < |log| && Known(log[i]) && log[i].rec.kind.Commit? :: log[i].rec.txn
  }

  function AbortedIn(log: seq<Slot>): set<nat> {
    set i | 0 <= i < |log| && Known(log[i]) && log[i].rec.kind.Abort? :: log[i].rec.txn
  }

  /** Transactions to roll back: seen, with neither a COMMIT nor an ABORT record. */
  function LosersIn(log: seq<Slot>): set<nat> {
    SeenIn(log) - CommittedIn(log) - AbortedIn(log)
  }

  predicate IsWriteOf(slot: Slot, ids: set<nat>) {
    slot.Holds? && slot.rec.kind.Write? && slot.rec.txn in ids
  }

  /** Write records of the transactions in `ids`, in slot order. */
  function WritesOf(log: seq<Slot>, ids: set<nat>): (rs: seq<Record>)
    ensures |rs| <= |log|
  {
    if log == [] then []
    else
      var n := |log| - 1;
      if IsWriteOf(log[n], ids) then WritesOf(log[..n], ids) + [log[n].rec] else WritesOf(log[..n], ids)
  }

  function Redos(rs: seq<Record>): (ps: seq<Patch>)
    ensures |ps| == |rs|
  {
    seq(|rs|, i requires 0 <= i < |rs| => Redo(rs[i]))
  }

  function Undos(rs: seq<Record>): (ps: seq<Patch>)
    ensures |ps| == |rs|
  {
    seq(|rs|, i requires 0 <= i < |rs| => Undo(rs[i]))
  }

  /** The exchange sort of the undo list from position (i, j) on, newest LSN first. */
  function SortFrom(rs: seq<Record>, i: nat, j: nat): seq<Record>
    requires i < j
    decreases |rs| - i, |rs| - j
  {
    if i >= |rs| then rs
    else if j >= |rs| then SortFrom(rs, i + 1, i + 2)
    else SortFrom(Exchange(rs, i, j), i, j + 1)
  }

  function Exchange(rs: seq<Record>, i: nat, j: nat): seq<Record>
    requires i < j < |rs|
  {
    if rs[j].lsn > rs[i].lsn then rs[i := rs[j]][j := rs[i]] else rs
  }

  function UndoOrder(rs: seq<Record>): seq<Record> { SortFrom(rs, 0, 1) }

  /** Every sector write of recovery, in order: REDO of the committed, then UNDO of the losers. */
  function RecoveryWrites(log: seq<Slot>): seq<Patch> {
    Redos(WritesOf(log, CommittedIn(log))) + Undos(UndoOrder(WritesOf(log, LosersIn(log))))
  }

  function Recovered(log: seq<Slot>, d: Image): (r: Image)
    ensures r.Keys == d.Keys
  {
    PutAll(d, RecoveryWrites(log))
  }

  predicate LogFits(log: seq<Slot>, d: Image) {
    forall i :: 0 <= i < |log| && log[i].Holds? ==> WriteFits(d, log[i].rec)
  }

  // ---------------------------------------------------------------- the undo order

  predicate NewestFirst(rs: seq<Record>) {
    forall a, b :: 0 <= a < b < |rs| ==> rs[a].lsn >= rs[b].lsn
  }

  /** The state of the exchange sort at (i, j): positions before i are final, position i leads up to j. */
  predicate SortedUpTo(rs: seq<Record>, i: nat, j: nat) {
    && (forall a, b :: 0 <= a < i && a < b < |rs| ==> rs[a].lsn >= rs[b].lsn)
    && (forall b :: i < b < j && b < |rs| ==> rs[i].lsn >= rs[b].lsn)
  }

  lemma ExchangeStep(rs: seq<Record>, i: nat, j: nat)
    requires i < j < |rs| && SortedUpTo(rs, i, j)
    ensures SortedUpTo(Exchange(rs, i, j), i, j + 1)
  {
    var xs := Exchange(rs, i, j);
    forall a, b | 0 <= a < i && a < b < |xs| ensures xs[a].lsn >= xs[b].lsn {
      assert rs[a].lsn >= rs[b].lsn && rs[a].lsn >= rs[i].lsn && rs[a].lsn >= rs[j].lsn;
    }
  }

  lemma ExchangeKeeps(rs: seq<Record>, i: nat, j: nat)
    requires i < j < |rs|
    ensures multiset(Exchange(rs, i, j)) == multiset(rs)
  {
  }

  lemma RoundDone(rs: seq<Record>, i: nat, j: nat)
    requires SortedUpTo(rs, i, j) && i < |rs| <= j
    ensures SortedUpTo(rs, i + 1, i + 2)
  {
  }

  lemma AllRoundsDone(rs: seq<Record>, i: nat, j: nat)
    requires SortedUpTo(rs, i, j) && |rs| <= i
    ensures NewestFirst(rs)
  {
  }

  /** The exchange sort orders newest first ... */
  lemma {:induction false} SortFromSorts(rs: seq<Record>, i: nat, j: nat)
    requires i < j && SortedUpTo(rs, i, j)
    ensures NewestFirst(SortFrom(rs, i, j))
    decreases |rs| - i, |rs| - j
  {
    if i >= |rs| {
      AllRoundsDone(rs, i, j);
    } else if j >= |rs| {
      RoundDone(rs, i, j);
      SortFromSorts(rs, i + 1, i + 2);
    } else {
      ExchangeStep(rs, i, j);
      SortFromSorts(Exchange(rs, i, j), i, j + 1);
    }
  }

  /** ... and keeps the records. */
  lemma {:induction false} SortFromKeeps(rs: seq<Record>, i: nat, j: nat)
    requires i < j
    ensures multiset(SortFrom(rs, i, j)) == multiset(rs)
    decreases |rs| - i, |rs| - j
  {
    if i < |rs| {
      if j >= |rs| {
        SortFromKeeps(rs, i + 1, i + 2);
      } else {
        SortFromKeeps(Exchange(rs, i, j), i, j + 1);
        ExchangeKeeps(rs, i, j);
      }
    }
  }

  lemma UndoOrderIsOrder(rs: seq<Record>)
    ensures NewestFirst(UndoOrder(rs))
    ensures multiset(UndoOrder(rs)) == multiset(rs)
    ensures |UndoOrder(rs)| == |rs|
    ensures forall r :: r in UndoOrder(rs) <==> r in rs
  {
    SortFromSorts(rs, 0, 1);
    SortFromKeeps(rs, 0, 1);
    assert |multiset(UndoOrder(rs))| == |UndoOrder(rs)| && |multiset(rs)| == |rs|;
    forall r ensures r in UndoOrder(rs) <==> r in rs {
      assert r in multiset(UndoOrder(rs)) <==> r in multiset(rs);
    }
  }

  lemma {:induction false} WritesOfMembers(log: seq<Slot>, ids: set<nat>, r: Record)
    ensures r in WritesOf(log, ids) <==> exists i :: 0 <= i < |log| && IsWriteOf(log[i], ids) && log[i].rec == r
  {
    if log != [] {
      var n := |log| - 1;
      WritesOfMembers(log[..n], ids, r);
      if r in WritesOf(log[..n], ids) {
        var i :| 0 <= i < n && IsWriteOf(log[..n][i], ids) && log[i].rec == r;
        assert IsWriteOf(log[i], ids);
      }
    }
  }

  lemma RecoveryFits(log: seq<Slot>, d: Image)
    requires LogFits(log, d)
    ensures forall p :: p in RecoveryWrites(log) ==> Fits(p, d)
  {
    var rs, us := WritesOf(log, CommittedIn(log)), WritesOf(log, LosersIn(log));
    UndoOrderIsOrder(us);
    forall p | p in RecoveryWrites(log) ensures Fits(p, d) {
      if p in Redos(rs) {
        var k :| 0 <= k < |rs| && Redos(rs)[k] == p;
        WritesOfMembers(log, CommittedIn(log), rs[k]);
      } else {
        var k :| 0 <= k < |us| && Undos(UndoOrder(us))[k] == p;
        assert UndoOrder(us)[k] in us;
        WritesOfMembers(log, LosersIn(log), UndoOrder(us)[k]);
      }
    }
  }

  /** Recovery is restartable: a crash after any number of its sector writes, followed by a rerun,
      ends in the image one complete run produces. */
  lemma Restartable(log: seq<Slot>, d: Image, k: nat)
    requires LogFits(log, d) && k <= |RecoveryWrites(log)|
    ensures Recovered(log, PutAll(d, RecoveryWrites(log)[..k])) == Recovered(log, d)
  {
    RecoveryFits(log, d);
    Replay(d, RecoveryWrites(log), k);
  }

  // ---------------------------------------------------------------- the log of a history

  /** What slot i holds after a history: record n went to slot n % 64, over whatever was there. */
  function SlotAfter(h: seq<Record>, i: nat): Slot {
    if h == [] then Blank
    else if (|h| - 1) % LOG_SECTORS == i then Holds(h[|h| - 1])
    else SlotAfter(h[..|h| - 1], i)
  }

  /** The log region after a history. */
  function LogOf(h: seq<Record>): (log: seq<Slot>)
    ensures |log| == LOG_SECTORS
  {
    seq(LOG_SECTORS, i requires 0 <= i < LOG_SECTORS => SlotAfter(h, i))
  }

  /** How many of the oldest records have been overwritten. */
  function Lost(h: seq<Record>): (k: nat)
    ensures k <= |h| <= k + LOG_SECTORS
  {
    if |h| <= LOG_SECTORS then 0 else |h| - LOG_SECTORS
  }

  lemma OtherSlot(a: nat, b: nat)
    requires a < b < a + LOG_SECTORS
    ensures a % LOG_SECTORS != b % LOG_SECTORS
  {
  }

  /** A record that is still in the log is in its slot, and no slot holds anything else. */
  lemma {:induction false} InSlot(h: seq<Record>, j: nat)
    requires Lost(h) <= j < |h|
    ensures LogOf(h)[j % LOG_SECTORS] == Holds(h[j])
  {
    var n := |h| - 1;
    if j < n {
      OtherSlot(j, n);
      InSlot(h[..n], j);
    }
  }

  lemma {:induction false} FromSlot(h: seq<Record>, i: nat) returns (j: nat)
    requires i < LOG_SECTORS && LogOf(h)[i].Holds?
    ensures Lost(h) <= j < |h| && j % LOG_SECTORS == i && LogOf(h)[i].rec == h[j]
  {
    var n := |h| - 1;
    if i == n % LOG_SECTORS {
      j := n;
    } else {
      j := FromSlot(h[..n], i);
    }
  }

  predicate InLog(log: seq<Slot>, r: Record) { exists i :: 0 <= i < |log| && log[i] == Holds(r) }

  /** `log` holds the records of `g`, which are numbered and name their transactions as the code does. */
  ghost predicate HoldsExactly(log: seq<Slot>, g: seq<Record>) {
    && (forall r :: InLog(log, r) <==> r in g)
    && forall r :: r in g ==> r.lsn != 0 && (r.kind.Checkpoint? <==> r.txn == 0)
  }

  lemma WindowHeld(init: Image, h: seq<Record>)
    requires Logged(init, h)
    ensures HoldsExactly(LogOf(h), h[Lost(h)..])
  {
    LoggedAll(init, h);
    var log, g := LogOf(h), h[Lost(h)..];
    forall r | InLog(log, r) ensures r in g {
      var i :| 0 <= i < |log| && log[i] == Holds(r);
      var j := FromSlot(h, i);
      assert g[j - Lost(h)] == r;
    }
    forall r | r in g ensures InLog(log, r) {
      var k :| 0 <= k < |g| && g[k] == r;
      InSlot(h, Lost(h) + k);
    }
  }

  lemma KnownIn(log: seq<Slot>, g: seq<Record>, k: nat) returns (i: nat)
    requires HoldsExactly(log, g) && k < |g| && g[k].txn != 0
    ensures i < |log| && log[i] == Holds(g[k]) && Known(log[i])
  {
    assert g[k] in g;
    assert InLog(log, g[k]);
    i :| i < |log| && log[i] == Holds(g[k]);
  }

  lemma KnownFrom(log: seq<Slot>, g: seq<Record>, i: nat) returns (k: nat)
    requires HoldsExactly(log, g) && i < |log| && log[i].Holds?
    ensures k < |g| && g[k] == log[i].rec
  {
    assert InLog(log, log[i].rec);
    k :| k < |g| && g[k] == log[i].rec;
  }

  lemma SameCommitted(log: seq<Slot>, g: seq<Record>)
    requires HoldsExactly(log, g)
    ensures CommittedIn(log) == Committed(g)
  {
    forall t | t in Committed(g) ensures t in CommittedIn(log) {
      var k :| 0 <= k < |g| && g[k].kind.Commit? && g[k].txn == t;
      assert g[k] in g;
      var i := KnownIn(log, g, k);
    }
    forall t | t in CommittedIn(log) ensures t in Committed(g) {
      var i :| 0 <= i < |log| && Known(log[i]) && log[i].rec.kind.Commit? && log[i].rec.txn == t;
      var k := KnownFrom(log, g, i);
    }
  }

  lemma SameAborted(log: seq<Slot>, g: seq<Record>)
    requires HoldsExactly(log, g)
    ensures AbortedIn(log) == Aborted(g)
  {
    forall t | t in Aborted(g) ensures t in AbortedIn(log) {
      var k :| 0 <= k < |g| && g[k].kind.Abort? && g[k].txn == t;
      assert g[k] in g;
      var i := KnownIn(log, g, k);
    }
    forall t | t in AbortedIn(log) ensures t in Aborted(g) {
      var i :| 0 <= i < |log| && Known(log[i]) && log[i].rec.kind.Abort? && log[i].rec.txn == t;
      var k := KnownFrom(log, g, i);
    }
  }

  lemma SameSeen(log: seq<Slot>, g: seq<Record>)
    requires HoldsExactly(log, g)
    ensures SeenIn(log) == Txns(g) - {0}
  {
    forall t | t in Txns(g) - {0} ensures t in SeenIn(log) {
      var k :| 0 <= k < |g| && g[k].txn == t;
      var i := KnownIn(log, g, k);
    }
    forall t | t in SeenIn(log) ensures t in Txns(g) - {0} {
      var i :| 0 <= i < |log| && Known(log[i]) && log[i].rec.txn == t;
      var k := KnownFrom(log, g, i);
    }
  }

  /** The analysis finds exactly the transactions of the records that are still in the log, and their fate. */
  lemma WindowAnalysis(init: Image, h: seq<Record>)
    requires Logged(init, h)
    ensures CommittedIn(LogOf(h)) == Committed(h[Lost(h)..])
    ensures AbortedIn(LogOf(h)) == Aborted(h[Lost(h)..])
    ensures SeenIn(LogOf(h)) == Txns(h[Lost(h)..]) - {0}
  {
    WindowHeld(init, h);
    SameCommitted(LogOf(h), h[Lost(h)..]);
    SameAborted(LogOf(h), h[Lost(h)..]);
    SameSeen(LogOf(h), h[Lost(h)..]);
  }

  lemma WindowFits(init: Image, h: seq<Record>)
    requires Logged(init, h)
    ensures LogFits(LogOf(h), init)
  {
    LoggedAll(init, h);
    forall i | 0 <= i < LOG_SECTORS && LogOf(h)[i].Holds? ensures WriteFits(init, LogOf(h)[i].rec) {
      var j := FromSlot(h, i);
    }
  }

  /** Recovery still sees everything that matters: at most the very first record is gone, and that record
      is a BEGIN or a CHECKPOINT. */
  predicate Recoverable(n: nat) { n <= LOG_SECTORS + 1 }

  /** A record that carries data or a fate is still in the log. */
  lemma StillLogged(init: Image, h: seq<Record>, i: nat)
    requires Logged(init, h) && Recoverable(|h|) && i < |h| && !h[i].kind.Begin? && !h[i].kind.Checkpoint?
    ensures Lost(h) <= i && h[i] in h[Lost(h)..] && h[i].txn != 0
  {
    LoggedAll(init, h);
    FirstRecord(init, h);
    assert h[Lost(h)..][i - Lost(h)] == h[i];
  }

  lemma RecoverableFates(init: Image, h: seq<Record>)
    requires Logged(init, h) && Recoverable(|h|)
    ensures Committed(h[Lost(h)..]) == Committed(h) && Aborted(h[Lost(h)..]) == Aborted(h)
  {
    forall t | t in Committed(h) ensures t in Committed(h[Lost(h)..]) {
      var i :| 0 <= i < |h| && h[i].kind.Commit? && h[i].txn == t;
      StillLogged(init, h, i);
    }
    forall t | t in Aborted(h) ensures t in Aborted(h[Lost(h)..]) {
      var i :| 0 <= i < |h| && h[i].kind.Abort? && h[i].txn == t;
      StillLogged(init, h, i);
    }
  }

  lemma RecoverableAnalysis(init: Image, h: seq<Record>)
    requires Logged(init, h) && Recoverable(|h|)
    ensures CommittedIn(LogOf(h)) == Committed(h) && AbortedIn(LogOf(h)) == Aborted(h)
    ensures forall i :: 0 <= i < |h| && h[i].kind.Write? ==> Lost(h) <= i && h[i].txn in SeenIn(LogOf(h))
  {
    WindowAnalysis(init, h);
    RecoverableFates(init, h);
    forall i | 0 <= i < |h| && h[i].kind.Write? ensures Lost(h) <= i && h[i].txn in Txns(h[Lost(h)..]) - {0} {
      StillLogged(init, h, i);
    }
  }

  // ---------------------------------------------------------------- recovery, byte by byte

  predicate LogHolds(log: seq<Slot>, h: seq<Record>) {
    |h| <= |log| && forall i :: 0 <= i < |log| ==> log[i] == if i < |h| then Holds(h[i]) else Blank
  }

  lemma UnwrappedLog(h: seq<Record>)
    requires |h| <= LOG_SECTORS
    ensures LogHolds(LogOf(h), h)
  {
    var log := LogOf(h);
    forall i | 0 <= i < LOG_SECTORS ensures log[i] == if i < |h| then Holds(h[i]) else Blank {
      if i < |h| {
        InSlot(h, i);
      } else if log[i].Holds? {
        var j := FromSlot(h, i);
      }
    }
  }

  lemma RedosAppend(rs: seq<Record>, r: Record, s: nat, o: nat, v: byte)
    ensures ByteAfter(Redos(rs + [r]), s, o, v)
         == if Covers(Redo(r), s, o) then r.after[o - r.offset] else ByteAfter(Redos(rs), s, o, v)
  {
    assert Redos(rs + [r])[..|rs|] == Redos(rs);
  }

  /** REDO in slot order leaves a byte at the newest value written by the transactions in `ids`. */
  lemma {:induction false} RedoByte(h: seq<Record>, log: seq<Slot>, n: nat, ids: set<nat>, s: nat, o: nat, v: byte)
    requires n <= |h| && LogHolds(log, h)
    ensures ByteAfter(Redos(WritesOf(log[..n], ids)), s, o, v) == LastValue(h[..n], s, o, Txns(h) - ids, v)
  {
    if n > 0 {
      RedoByte(h, log, n - 1, ids, s, o, v);
      assert log[..n][..n - 1] == log[..n - 1] && h[..n][..n - 1] == h[..n - 1];
      assert h[n - 1].txn in Txns(h);
      if IsWriteOf(log[n - 1], ids) {
        RedosAppend(WritesOf(log[..n - 1], ids), h[n - 1], s, o, v);
      }
    }
  }

  lemma {:induction false} BlankTail(h: seq<Record>, log: seq<Slot>, n: nat, ids: set<nat>)
    requires |h| <= n <= |log| && LogHolds(log, h)
    ensures WritesOf(log[..n], ids) == WritesOf(log[..|h|], ids)
  {
    if |h| < n {
      BlankTail(h, log, n - 1, ids);
      assert log[..n][..n - 1] == log[..n - 1];
    }
  }

  /** Only the writes of `ids` matter to a pass over the slots. */
  lemma {:induction false} SameWrites(log: seq<Slot>, log': seq<Slot>, ids: set<nat>)
    requires |log| == |log'|
    requires forall i :: 0 <= i < |log| ==> log[i] == log'[i] || (!IsWriteOf(log[i], ids) && !IsWriteOf(log'[i], ids))
    ensures WritesOf(log, ids) == WritesOf(log', ids)
  {
    if log != [] { SameWrites(log[..|log| - 1], log'[..|log| - 1], ids); }
  }

  /** A transaction that logs a write last of all has not committed. */
  lemma LastNotCommitted(init: Image, h: seq<Record>)
    requires Logged(init, h) && h != [] && h[|h| - 1].kind.Write?
    ensures h[|h| - 1].txn !in Committed(h)
  {
    var n := |h| - 1;
    forall i | 0 <= i < |h| && h[i].kind.Commit? ensures h[i].txn != h[n].txn {
      assert h[..n][i] == h[i];
    }
  }

  /** The slots after one wrap-around are those before it, except slot 0. */
  lemma OneSlotWrapped(h: seq<Record>, i: nat)
    requires |h| == LOG_SECTORS + 1 && i < LOG_SECTORS
    ensures LogOf(h)[i] == if i == 0 then Holds(h[LOG_SECTORS]) else Holds(h[i])
    ensures LogOf(h[..LOG_SECTORS])[i] == Holds(h[i])
  {
    if i == 0 { InSlot(h, LOG_SECTORS); } else { InSlot(h, i); }
    InSlot(h[..LOG_SECTORS], i);
  }

  /** The record that wraps into slot 0 is skipped by REDO, and so was the one it replaces. */
  lemma OneWrapped(init: Image, h: seq<Record>)
    requires Logged(init, h) && |h| == LOG_SECTORS + 1
    ensures WritesOf(LogOf(h), Committed(h)) == WritesOf(LogOf(h[..LOG_SECTORS]), Committed(h))
    ensures h[LOG_SECTORS].kind.Write? ==> h[LOG_SECTORS].txn !in Committed(h)
  {
    FirstRecord(init, h);
    if h[LOG_SECTORS].kind.Write? { LastNotCommitted(init, h); }
    var log, log' := LogOf(h), LogOf(h[..LOG_SECTORS]);
    forall i | 0 <= i < LOG_SECTORS
      ensures log[i] == log'[i] || (!IsWriteOf(log[i], Committed(h)) && !IsWriteOf(log'[i], Committed(h)))
    {
      OneSlotWrapped(h, i);
    }
    SameWrites(log, log', Committed(h));
  }

  lemma RedoUnwrapped(h: seq<Record>, ids: set<nat>, s: nat, o: nat, v: byte)
    requires |h| <= LOG_SECTORS
    ensures ByteAfter(Redos(WritesOf(LogOf(h), ids)), s, o, v) == LastValue(h, s, o, Txns(h) - ids, v)
  {
    var log := LogOf(h);
    UnwrappedLog(h);
    assert log[..LOG_SECTORS] == log && h[..|h|] == h;
    BlankTail(h, log, LOG_SECTORS, ids);
    RedoByte(h, log, |h|, ids, s, o, v);
  }

  /** REDO in slot order leaves a byte at the newest value written by a committed transaction. */
  lemma RedoRecoverable(init: Image, h: seq<Record>, s: nat, o: nat, v: byte)
    requires Logged(init, h) && Recoverable(|h|)
    ensures ByteAfter(Redos(WritesOf(LogOf(h), Committed(h))), s, o, v) == LastValue(h, s, o, Txns(h) - Committed(h), v)
  {
    if |h| <= LOG_SECTORS {
      RedoUnwrapped(h, Committed(h), s, o, v);
    } else {
      var g := h[..LOG_SECTORS];
      OneWrapped(init, h);
      RedoUnwrapped(g, Committed(h), s, o, v);
      assert forall i :: 0 <= i < |g| ==> g[i].txn in Txns(g) && h[i].txn in Txns(h);
      SameDead(g, s, o, Txns(g) - Committed(h), Txns(h) - Committed(h), v);
      assert h[LOG_SECTORS].txn in Txns(h);
    }
  }

  lemma {:induction false} UndosByteNone(rs: seq<Record>, s: nat, o: nat, v: byte)
    requires forall r :: r in rs ==> r.kind.Write? && |r.before| == |r.after| && !Touches(r, s, o)
    ensures ByteAfter(Undos(rs), s, o, v) == v
  {
    if rs != [] {
      var n := |rs| - 1;
      assert Undos(rs)[..n] == Undos(rs[..n]);
      assert rs[n] in rs;
      UndosByteNone(rs[..n], s, o, v);
    }
  }

  /** The undo list is written newest first, so the oldest record that touches a byte decides it. */
  lemma {:induction false} UndosByte(rs: seq<Record>, f: Record, s: nat, o: nat, v: byte)
    requires NewestFirst(rs) && f in rs && Touches(f, s, o)
    requires forall r :: r in rs ==> r.kind.Write? && |r.before| == |r.after|
    requires forall r :: r in rs && Touches(r, s, o) ==> r == f || r.lsn > f.lsn
    ensures |f.before| == |f.after|
    ensures ByteAfter(Undos(rs), s, o, v) == f.before[o - f.offset]
  {
    var n := |rs| - 1;
    assert Undos(rs)[..n] == Undos(rs[..n]);
    assert rs[n] in rs;
    if !Touches(rs[n], s, o) {
      assert f in rs[..n];
      UndosByte(rs[..n], f, s, o, v);
    } else {
      var k :| 0 <= k < |rs| && rs[k] == f;
    }
  }

  predicate Wrote(h: seq<Record>, t: nat, s: nat, o: nat) {
    exists m :: 0 <= m < |h| && Touches(h[m], s, o) && h[m].txn == t
  }

  /** No transaction that wrote the byte aborts at position j or later. */
  predicate Settled(h: seq<Record>, j: nat, s: nat, o: nat) {
    j <= |h| && forall i :: j <= i < |h| && h[i].kind.Abort? ==> !Wrote(h[..i], h[i].txn, s, o)
  }

  ghost predicate CrashByte(init: Image, h: seq<Record>, v: byte, s: nat, o: nat)
    requires s in init && o < SECTOR_SIZE
  {
    exists j: nat :: Settled(h, j, s, o) && v == View(init, h[..j])[s][o]
  }

  /** A data region that log-before-data allows at a crash whose durable log is `h`: each byte holds a
      value it had at some point of `h`, and the flush that precedes an ABORT record has taken place. */
  ghost predicate CrashImage(init: Image, h: seq<Record>, d: Image) {
    d.Keys == init.Keys && forall s, o :: s in init && 0 <= o < SECTOR_SIZE ==> CrashByte(init, h, d[s][o], s, o)
  }

  /** A byte that only aborted transactions wrote is back at its initial value in every crash image. */
  lemma OnlyAbortsByte(init: Image, h: seq<Record>, v: byte, s: nat, o: nat)
    requires Logged(init, h) && s in init && o < SECTOR_SIZE && CrashByte(init, h, v, s, o)
    requires forall i :: 0 <= i < |h| && Touches(h[i], s, o) ==> h[i].txn in Aborted(h)
    ensures v == init[s][o]
  {
    var j: nat :| Settled(h, j, s, o) && v == View(init, h[..j])[s][o];
    LoggedPrefix(init, h, j);
    ViewByte(init, h[..j], s, o);
    forall m | 0 <= m < j && Touches(h[..j][m], s, o) ensures h[..j][m].txn in Aborted(h[..j]) {
      AbortBefore(init, h, j, m, s, o);
    }
    DropDead(h[..j], 0, s, o, Aborted(h[..j]), init[s][o]);
  }

  lemma AbortBefore(init: Image, h: seq<Record>, j: nat, m: nat, s: nat, o: nat)
    requires Logged(init, h) && Settled(h, j, s, o)
    requires m < |h| && Touches(h[m], s, o) && h[m].txn in Aborted(h)
    ensures h[m].txn in Aborted(h[..j])
  {
    var i :| 0 <= i < |h| && h[i].kind.Abort? && h[i].txn == h[m].txn;
    LoggedAt(init, h, m);
    assert m <= i;
    assert Touches(h[..i][m], s, o);
    assert Wrote(h[..i], h[i].txn, s, o);
    assert h[..j][i].kind.Abort?;
  }

  /** A byte some loser wrote is rolled back to its last committed value. */
  lemma LoserByte(init: Image, h: seq<Record>, t: nat, s: nat, o: nat, v: byte)
    requires Logged(init, h) && Recoverable(|h|) && s in init && o < SECTOR_SIZE
    requires !Finished(h, t) && Wrote(h, t, s, o)
    ensures ByteAfter(Undos(UndoOrder(WritesOf(LogOf(h), LosersIn(LogOf(h))))), s, o, v) == LastCommitted(init, h, s, o)
  {
    var rs := WritesOf(LogOf(h), LosersIn(LogOf(h)));
    UndoOrderIsOrder(rs);
    var f := FindFirstTouch(h, t, s, o);
    SoleWriter(init, h, t, f, s, o);
    LoserWrites(init, h, t, f, s, o);
    UndosByte(UndoOrder(rs), h[f], s, o, v);
    BeforeByte(init, h, f, s, o);
    LoggedPrefix(init, h, f);
    ViewByte(init, h[..f], s, o);
    var dead := Txns(h) - Committed(h);
    assert t !in Committed(h) by { NotFinished(h, t); }
    DropDead(h, f, s, o, dead, init[s][o]);
    forall i | 0 <= i < f && Touches(h[..f][i], s, o)
      ensures h[..f][i].txn in dead <==> h[..f][i].txn in Aborted(h[..f])
    {
      assert h[i].txn in Txns(h);
      FinishedOnce(init, h, f, h[i].txn);
    }
    SameDead(h[..f], s, o, dead, Aborted(h[..f]), init[s][o]);
  }

  lemma NotFinished(h: seq<Record>, t: nat)
    ensures !Finished(h, t) <==> t !in Committed(h) && t !in Aborted(h)
  {
  }

  /** A record of the undo list is a logged write of a transaction that never finished. */
  lemma LoserRecord(init: Image, h: seq<Record>, r: Record) returns (i: nat)
    requires Logged(init, h) && Recoverable(|h|)
    requires r in WritesOf(LogOf(h), LosersIn(LogOf(h)))
    ensures i < |h| && r == h[i] && r.kind.Write? && |r.before| == |r.after| && r.lsn == i + 1
    ensures !Finished(h, r.txn)
  {
    var log := LogOf(h);
    RecoverableAnalysis(init, h);
    LoggedAll(init, h);
    WritesOfMembers(log, LosersIn(log), r);
    var k :| 0 <= k < |log| && IsWriteOf(log[k], LosersIn(log)) && log[k].rec == r;
    i := FromSlot(h, k);
    assert WriteFits(init, h[i]);
    NotFinished(h, r.txn);
  }

  lemma LoserListed(init: Image, h: seq<Record>, f: nat)
    requires Logged(init, h) && Recoverable(|h|)
    requires f < |h| && h[f].kind.Write? && !Finished(h, h[f].txn)
    ensures h[f] in WritesOf(LogOf(h), LosersIn(LogOf(h)))
  {
    var log := LogOf(h);
    RecoverableAnalysis(init, h);
    NotFinished(h, h[f].txn);
    InSlot(h, f);
    assert IsWriteOf(log[f % LOG_SECTORS], LosersIn(log));
    WritesOfMembers(log, LosersIn(log), h[f]);
  }

  /** Among the losers' records, the first write of `t` to the byte is the oldest that touches it. */
  lemma LoserWrites(init: Image, h: seq<Record>, t: nat, f: nat, s: nat, o: nat)
    requires Logged(init, h) && Recoverable(|h|) && !Finished(h, t) && FirstTouch(h, t, f, s, o)
    ensures h[f] in WritesOf(LogOf(h), LosersIn(LogOf(h)))
    ensures forall r :: r in WritesOf(LogOf(h), LosersIn(LogOf(h))) ==> r.kind.Write? && |r.before| == |r.after|
    ensures forall r :: r in WritesOf(LogOf(h), LosersIn(LogOf(h))) && Touches(r, s, o) ==> r == h[f] || r.lsn > h[f].lsn
  {
    LoserListed(init, h, f);
    SoleWriter(init, h, t, f, s, o);
    forall r | r in WritesOf(LogOf(h), LosersIn(LogOf(h)))
      ensures r.kind.Write? && |r.before| == |r.after|
      ensures Touches(r, s, o) ==> r == h[f] || r.lsn > h[f].lsn
    {
      var i := LoserRecord(init, h, r);
      LoggedAll(init, h);
      if Touches(r, s, o) && i < f {
        FinishedMono(h, f, h[i].txn);
        assert false;
      }
    }
  }

  /** Recovery correctness. For every history of at most 65 records, of which the log holds all but
      perhaps the first, and every data region a crash can leave, each byte ends at its last committed
      value, or at its initial value when no committed transaction wrote it; uncommitted and aborted
      effects are gone. */
  lemma RecoveryCorrect(init: Image, h: seq<Record>, d: Image, s: nat, o: nat)
    requires Logged(init, h) && Recoverable(|h|) && CrashImage(init, h, d)
    requires s in init && o < SECTOR_SIZE
    ensures Recovered(LogOf(h), d)[s][o] == LastCommitted(init, h, s, o)
  {
    var log := LogOf(h);
    var us := UndoOrder(WritesOf(log, LosersIn(log)));
    var redos := Redos(WritesOf(log, CommittedIn(log)));
    RecoverableAnalysis(init, h);
    WindowFits(init, h);
    RecoveryFits(log, d);
    PutAllByte(d, RecoveryWrites(log), s, o);
    ByteAfterAppend(redos, Undos(us), s, o, d[s][o]);
    RedoRecoverable(init, h, s, o, d[s][o]);
    var v := LastValue(h, s, o, Txns(h) - Committed(h), d[s][o]);
    if t :| !Finished(h, t) && Wrote(h, t, s, o) {
      LoserByte(init, h, t, s, o, v);
    } else {
      NoLoserByte(init, h, s, o, v);
      NoLoserValue(init, h, d[s][o], s, o);
    }
  }

  lemma NoLoserByte(init: Image, h: seq<Record>, s: nat, o: nat, v: byte)
    requires Logged(init, h) && Recoverable(|h|) && s in init && o < SECTOR_SIZE
    requires forall t :: Wrote(h, t, s, o) ==> Finished(h, t)
    ensures ByteAfter(Undos(UndoOrder(WritesOf(LogOf(h), LosersIn(LogOf(h))))), s, o, v) == v
  {
    var rs := WritesOf(LogOf(h), LosersIn(LogOf(h)));
    UndoOrderIsOrder(rs);
    forall r | r in rs ensures r.kind.Write? && |r.before| == |r.after| && !Touches(r, s, o) {
      var i := LoserRecord(init, h, r);
      assert Touches(r, s, o) ==> Wrote(h, r.txn, s, o);
    }
    UndosByteNone(UndoOrder(rs), s, o, v);
  }

  lemma NoLoserValue(init: Image, h: seq<Record>, v: byte, s: nat, o: nat)
    requires Logged(init, h) && s in init && o < SECTOR_SIZE && CrashByte(init, h, v, s, o)
    requires forall t :: Wrote(h, t, s, o) ==> Finished(h, t)
    ensures LastValue(h, s, o, Txns(h) - Committed(h), v) == LastCommitted(init, h, s, o)
  {
    var dead := Txns(h) - Committed(h);
    if forall i :: 0 <= i < |h| && Touches(h[i], s, o) ==> h[i].txn in dead {
      forall i | 0 <= i < |h| && Touches(h[i], s, o) ensures h[i].txn in Aborted(h) {
        assert Wrote(h, h[i].txn, s, o);
        NotFinished(h, h[i].txn);
      }
      OnlyAbortsByte(init, h, v, s, o);
    } else {
      LiveValue(h, s, o, dead, v, init[s][o]);
    }
  }

  lemma {:induction false} LiveValue(h: seq<Record>, s: nat, o: nat, dead: set<nat>, v: byte, w: byte)
    requires exists i :: 0 <= i < |h| && Touches(h[i], s, o) && h[i].txn !in dead
    ensures LastValue(h, s, o, dead, v) == LastValue(h, s, o, dead, w)
  {
    var n := |h| - 1;
    if !(Touches(h[n], s, o) && h[n].txn !in dead) {
      var i :| 0 <= i < |h| && Touches(h[i], s, o) && h[i].txn !in dead;
      assert Touches(h[..n][i], s, o);
      LiveValue(h[..n], s, o, dead, v, w);
    }
  }
}
