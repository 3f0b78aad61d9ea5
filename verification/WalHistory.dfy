/** Log records and what a history of records means for the bytes of the data region. */
module WalHistory {
  import opened Sectors

  const MAX_DATA_SIZE: nat := 232

  datatype Kind = Begin | Commit | Abort | Write | Checkpoint

  /** One log record. `before` and `after` are the images a Write record carries; they are empty in
      every other kind of record. */
  datatype Record = Record(lsn: nat, txn: nat, kind: Kind, sector: nat, offset: nat, before: seq<byte>, after: seq<byte>)

  function Redo(r: Record): Patch { Patch(r.sector, r.offset, r.after) }

  function Undo(r: Record): Patch { Patch(r.sector, r.offset, r.before) }

  predicate Touches(r: Record, s: nat, o: nat) {
    r.kind.Write? && r.sector == s && r.offset <= o < r.offset + |r.after|
  }

  predicate Finished(h: seq<Record>, t: nat) {
    exists i :: 0 <= i < |h| && h[i].txn == t && (h[i].kind.Commit? || h[i].kind.Abort?)
  }

  function Aborted(h: seq<Record>): set<nat> {
    set i | 0 <= i < |h| && h[i].kind.Abort? :: h[i].txn
  }

  function Committed(h: seq<Record>): set<nat> {
    set i | 0 <= i < |h| && h[i].kind.Commit? :: h[i].txn
  }

  function Txns(h: seq<Record>): set<nat> {
    set i | 0 <= i < |h| :: h[i].txn
  }

  /** The before-images of the writes of `t`, newest first: what rolling `t` back writes. */
  function UndoOf(h: seq<Record>, t: nat): seq<Patch> {
    if h == [] then []
    else
      var n := |h| - 1;
      if h[n].kind.Write? && h[n].txn == t then [Undo(h[n])] + UndoOf(h[..n], t) else UndoOf(h[..n], t)
  }

  /** The visible contents of the data region after a history: every logged write is applied, and an
      abort is preceded by the restoration of its transaction's before-images. */
  function View(init: Image, h: seq<Record>): (v: Image)
    ensures v.Keys == init.Keys
  {
    if h == [] then init
    else
      var n := |h| - 1;
      var v := View(init, h[..n]);
      match h[n].kind
      case Write => Put(v, Redo(h[n]))
      case Abort => PutAll(v, UndoOf(h[..n], h[n].txn))
      case _ => v
  }

  /** A byte written by one transaction is not written by another before the first has finished. */
  ghost predicate Exclusive(h: seq<Record>, r: Record) {
    forall i, o :: 0 <= i < |h| && Touches(h[i], r.sector, o) && Touches(r, r.sector, o) && h[i].txn != r.txn
                   ==> Finished(h, h[i].txn)
  }

  predicate WriteFits(init: Image, r: Record) {
    r.kind.Write? ==>
      && r.sector in init
      && r.offset + |r.after| <= SECTOR_SIZE
      && |r.before| == |r.after|
  }

  predicate Begun(h: seq<Record>, t: nat) {
    exists i :: 0 <= i < |h| && h[i].kind.Begin? && h[i].txn == t
  }

  /** What the code guarantees of the next record: LSNs are consecutive, a transaction begins under a
      fresh number before it logs anything else and logs nothing more once it has finished, and a Write
      record's before-image is what the bytes held when it was logged. */
  ghost predicate CanAppend(init: Image, h: seq<Record>, r: Record) {
    && r.lsn == |h| + 1
    && (r.kind.Checkpoint? <==> r.txn == 0)
    && (r.kind.Begin? ==> r.txn !in Txns(h))
    && (r.kind.Commit? || r.kind.Abort? || r.kind.Write? ==> Begun(h, r.txn) && !Finished(h, r.txn))
    && WriteFits(init, r)
    && (r.kind.Write? ==>
          && r.before == View(init, h)[r.sector][r.offset..r.offset + |r.after|]
          && Exclusive(h, r))
  }

  ghost predicate Logged(init: Image, h: seq<Record>) {
    h == [] || (Logged(init, h[..|h| - 1]) && CanAppend(init, h[..|h| - 1], h[|h| - 1]))
  }

  lemma {:induction false} LoggedAt(init: Image, h: seq<Record>, i: nat)
    requires Logged(init, h) && i < |h|
    ensures Logged(init, h[..i]) && CanAppend(init, h[..i], h[i])
  {
    var n := |h| - 1;
    if i < n {
      LoggedAt(init, h[..n], i);
      assert h[..n][..i] == h[..i];
    }
  }

  lemma LoggedAll(init: Image, h: seq<Record>)
    requires Logged(init, h)
    ensures forall i :: 0 <= i < |h| ==> WriteFits(init, h[i]) && h[i].lsn == i + 1 && (h[i].kind.Checkpoint? <==> h[i].txn == 0)
  {
    forall i | 0 <= i < |h|
      ensures WriteFits(init, h[i]) && h[i].lsn == i + 1 && (h[i].kind.Checkpoint? <==> h[i].txn == 0)
    {
      LoggedAt(init, h, i);
    }
  }

  lemma {:induction false} LoggedPrefix(init: Image, h: seq<Record>, k: nat)
    requires Logged(init, h) && k <= |h|
    ensures Logged(init, h[..k])
  {
    if k < |h| { LoggedAt(init, h, k); } else { assert h[..k] == h; }
  }

  /** The first record of a log carries no data. */
  lemma FirstRecord(init: Image, h: seq<Record>)
    requires Logged(init, h) && h != []
    ensures h[0].kind.Begin? || h[0].kind.Checkpoint?
  {
    LoggedAt(init, h, 0);
  }

  /** The newest value among the writes to (s, o) by transactions outside `dead`, or `v` if none. */
  function LastValue(h: seq<Record>, s: nat, o: nat, dead: set<nat>, v: byte): byte {
    if h == [] then v
    else
      var n := |h| - 1;
      if Touches(h[n], s, o) && h[n].txn !in dead then h[n].after[o - h[n].offset]
      else LastValue(h[..n], s, o, dead, v)
  }

  /** What recovery promises for byte (s, o): its last committed value, or its initial value. */
  function LastCommitted(init: Image, h: seq<Record>, s: nat, o: nat): byte
    requires s in init && o < SECTOR_SIZE
  {
    LastValue(h, s, o, Txns(h) - Committed(h), init[s][o])
  }

  /** Writes from position `f` on that are all dead do not matter. */
  lemma {:induction false} DropDead(h: seq<Record>, f: nat, s: nat, o: nat, dead: set<nat>, v: byte)
    requires f <= |h|
    requires forall i :: f <= i < |h| && Touches(h[i], s, o) ==> h[i].txn in dead
    ensures LastValue(h, s, o, dead, v) == LastValue(h[..f], s, o, dead, v)
  {
    if f == |h| {
      assert h[..f] == h;
    } else {
      var n := |h| - 1;
      DropDead(h[..n], f, s, o, dead, v);
      assert h[..n][..f] == h[..f];
    }
  }

  /** Only the fate of transactions that wrote the byte matters. */
  lemma {:induction false} SameDead(h: seq<Record>, s: nat, o: nat, dead: set<nat>, dead': set<nat>, v: byte)
    requires forall i :: 0 <= i < |h| && Touches(h[i], s, o) ==> (h[i].txn in dead <==> h[i].txn in dead')
    ensures LastValue(h, s, o, dead, v) == LastValue(h, s, o, dead', v)
  {
    if h != [] {
      SameDead(h[..|h| - 1], s, o, dead, dead', v);
    }
  }

  predicate FirstTouch(h: seq<Record>, t: nat, f: nat, s: nat, o: nat) {
    && f < |h| && Touches(h[f], s, o) && h[f].txn == t
    && forall i :: 0 <= i < f && Touches(h[i], s, o) ==> h[i].txn != t
  }

  lemma {:induction false} FindFirstTouch(h: seq<Record>, t: nat, s: nat, o: nat) returns (f: nat)
    requires exists i :: 0 <= i < |h| && Touches(h[i], s, o) && h[i].txn == t
    ensures FirstTouch(h, t, f, s, o)
  {
    f := 0;
    while !(Touches(h[f], s, o) && h[f].txn == t)
      invariant f < |h|
      invariant forall i :: 0 <= i < f && Touches(h[i], s, o) ==> h[i].txn != t
      invariant exists i :: f <= i < |h| && Touches(h[i], s, o) && h[i].txn == t
      decreases |h| - f
    {
      f := f + 1;
    }
  }

  lemma FinishedMono(h: seq<Record>, k: nat, t: nat)
    requires k <= |h|
    ensures Finished(h[..k], t) ==> Finished(h, t)
  {
  }

  /** Exclusivity seen from one byte: while `t` is unfinished nobody else writes the byte after `t`
      first did, and whoever wrote it earlier had already finished. */
  lemma SoleWriter(init: Image, h: seq<Record>, t: nat, f: nat, s: nat, o: nat)
    requires Logged(init, h) && !Finished(h, t) && FirstTouch(h, t, f, s, o)
    ensures forall i :: f <= i < |h| && Touches(h[i], s, o) ==> h[i].txn == t
    ensures forall i :: 0 <= i < f && Touches(h[i], s, o) ==> Finished(h[..f], h[i].txn)
  {
    forall i | f <= i < |h| && Touches(h[i], s, o) ensures h[i].txn == t {
      LoggedAt(init, h, i);
      FinishedMono(h, i, t);
      assert f < i ==> Touches(h[..i][f], s, o);
    }
    LoggedAt(init, h, f);
    forall i | 0 <= i < f && Touches(h[i], s, o) ensures Finished(h[..f], h[i].txn) {
      assert Touches(h[..f][i], s, o);
    }
  }

  /** A transaction finishes at most once. */
  lemma FinishedTwice(init: Image, h: seq<Record>, i: nat, j: nat)
    requires Logged(init, h) && i < j < |h|
    requires (h[i].kind.Commit? || h[i].kind.Abort?) && (h[j].kind.Commit? || h[j].kind.Abort?)
    ensures h[i].txn != h[j].txn
  {
  }

  lemma FinishedOnce(init: Image, h: seq<Record>, f: nat, t: nat)
    requires Logged(init, h) && f <= |h| && Finished(h[..f], t)
    ensures t in Aborted(h) <==> t in Aborted(h[..f])
    ensures t in Committed(h) <==> t in Committed(h[..f])
    ensures t in Aborted(h) <==> t !in Committed(h)
  {
    var j :| 0 <= j < f && h[..f][j].txn == t && (h[j].kind.Commit? || h[j].kind.Abort?);
    forall i | 0 <= i < |h| && i != j && h[i].txn == t ensures !h[i].kind.Commit? && !h[i].kind.Abort? {
      if h[i].kind.Commit? || h[i].kind.Abort? {
        FinishedTwice(init, h, if i < j then i else j, if i < j then j else i);
      }
    }
    assert h[..f][j] == h[j];
  }

  lemma {:induction false} UndoFits(init: Image, h: seq<Record>, t: nat)
    requires forall i :: 0 <= i < |h| ==> WriteFits(init, h[i])
    ensures forall p :: p in UndoOf(h, t) ==> Fits(p, init)
  {
    if h != [] {
      var n := |h| - 1;
      UndoFits(init, h[..n], t);
    }
  }

  /** Rolling `t` back leaves a byte at the before-image of the first write `t` made to it. */
  lemma {:induction false} UndoByte(init: Image, h: seq<Record>, t: nat, f: nat, s: nat, o: nat, v: byte)
    requires forall i :: 0 <= i < |h| ==> WriteFits(init, h[i])
    requires FirstTouch(h, t, f, s, o)
    ensures WriteFits(init, h[f])
    ensures ByteAfter(UndoOf(h, t), s, o, v) == h[f].before[o - h[f].offset]
  {
    var n := |h| - 1;
    if h[n].kind.Write? && h[n].txn == t {
      ByteAfterAppend([Undo(h[n])], UndoOf(h[..n], t), s, o, v);
    }
    var w := ByteAfter([Undo(h[n])], s, o, v);
    if f < n {
      UndoByte(init, h[..n], t, f, s, o, v);
      UndoByte(init, h[..n], t, f, s, o, w);
    } else {
      UndoNone(init, h[..n], t, s, o, w);
    }
  }

  lemma {:induction false} UndoNone(init: Image, h: seq<Record>, t: nat, s: nat, o: nat, v: byte)
    requires forall i :: 0 <= i < |h| ==> WriteFits(init, h[i])
    requires forall i :: 0 <= i < |h| && Touches(h[i], s, o) ==> h[i].txn != t
    ensures ByteAfter(UndoOf(h, t), s, o, v) == v
  {
    if h != [] {
      var n := |h| - 1;
      UndoNone(init, h[..n], t, s, o, v);
      if h[n].kind.Write? && h[n].txn == t {
        ByteAfterAppend([Undo(h[n])], UndoOf(h[..n], t), s, o, v);
      }
    }
  }

  /** The before-image of a logged write is the view just before it, byte by byte. */
  lemma BeforeByte(init: Image, h: seq<Record>, i: nat, s: nat, o: nat)
    requires Logged(init, h) && i < |h| && Touches(h[i], s, o)
    ensures s in init && o < SECTOR_SIZE && |h[i].before| == |h[i].after|
    ensures h[i].before[o - h[i].offset] == View(init, h[..i])[s][o]
  {
    LoggedAt(init, h, i);
  }

  /** What is visible is, byte by byte, the newest value written by a transaction that did not abort. */
  lemma {:induction false} ViewByte(init: Image, h: seq<Record>, s: nat, o: nat)
    requires Logged(init, h) && s in init && o < SECTOR_SIZE
    ensures View(init, h)[s][o] == LastValue(h, s, o, Aborted(h), init[s][o])
    decreases |h|
  {
    if h != [] {
      var n := |h| - 1;
      var g, r := h[..n], h[n];
      ViewByte(init, g, s, o);
      match r.kind {
        case Write =>
          assert Aborted(h) == Aborted(g);
          if Touches(r, s, o) && r.txn in Aborted(h) {
            assert Finished(g, r.txn);
          }
        case Abort => AbortByte(init, h, s, o);
        case _ => assert Aborted(h) == Aborted(g);
      }
    }
  }

  lemma {:induction false} AbortByte(init: Image, h: seq<Record>, s: nat, o: nat)
    requires Logged(init, h) && s in init && o < SECTOR_SIZE && h != [] && h[|h| - 1].kind.Abort?
    ensures View(init, h)[s][o] == LastValue(h, s, o, Aborted(h), init[s][o])
    decreases |h|, 0
  {
    var n := |h| - 1;
    var g, t := h[..n], h[n].txn;
    ViewByte(init, g, s, o);
    LoggedAll(init, g);
    UndoFits(init, g, t);
    var v := View(init, g);
    PutAllByte(v, UndoOf(g, t), s, o);
    assert Aborted(h) == Aborted(g) + {t};
    if exists i :: 0 <= i < |g| && Touches(g[i], s, o) && g[i].txn == t {
      UndoneByte(init, g, t, s, o, v[s][o]);
    } else {
      UndoNone(init, g, t, s, o, v[s][o]);
      SameDead(g, s, o, Aborted(g), Aborted(h), init[s][o]);
    }
  }

  /** A byte that `t` wrote goes back to its newest value by a transaction that neither aborted nor is `t`. */
  lemma {:induction false} UndoneByte(init: Image, g: seq<Record>, t: nat, s: nat, o: nat, v: byte)
    requires Logged(init, g) && s in init && o < SECTOR_SIZE && !Finished(g, t)
    requires exists i :: 0 <= i < |g| && Touches(g[i], s, o) && g[i].txn == t
    ensures ByteAfter(UndoOf(g, t), s, o, v) == LastValue(g, s, o, Aborted(g) + {t}, init[s][o])
    decreases |g|
  {
    var f := FindFirstTouch(g, t, s, o);
    LoggedAll(init, g);
    UndoByte(init, g, t, f, s, o, v);
    BeforeByte(init, g, f, s, o);
    LoggedPrefix(init, g, f);
    ViewByte(init, g[..f], s, o);
    RewindByte(init, g, t, f, s, o);
  }

  /** With `t` dead, the newest live value is the one from before `t` first wrote the byte. */
  lemma RewindByte(init: Image, g: seq<Record>, t: nat, f: nat, s: nat, o: nat)
    requires Logged(init, g) && s in init && o < SECTOR_SIZE && !Finished(g, t) && FirstTouch(g, t, f, s, o)
    ensures LastValue(g, s, o, Aborted(g) + {t}, init[s][o]) == LastValue(g[..f], s, o, Aborted(g[..f]), init[s][o])
  {
    SoleWriter(init, g, t, f, s, o);
    DropDead(g, f, s, o, Aborted(g) + {t}, init[s][o]);
    forall i | 0 <= i < f && Touches(g[..f][i], s, o)
      ensures g[..f][i].txn in Aborted(g) + {t} <==> g[..f][i].txn in Aborted(g[..f])
    {
      FinishedOnce(init, g, f, g[i].txn);
    }
    SameDead(g[..f], s, o, Aborted(g) + {t}, Aborted(g[..f]), init[s][o]);
  }
}
