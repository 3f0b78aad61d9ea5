/** The block index of a file: 12 direct pointers, one indirect block, one doubly indirect block. */
module IndexTree {
  import opened Sectors
  import opened FreeMap

  const DIRECT: nat := 12
  const PTRS: nat := 128
  const SINGLE_END: nat := DIRECT + PTRS
  const MAX_BLOCKS: nat := SINGLE_END + PTRS * PTRS

  function Zeros(): SectorData { seq(SECTOR_SIZE, i => 0) }

  /** The fields of struct inode_disk that locate data. */
  datatype InodeDisk = InodeDisk(direct: seq<nat>, indirect: nat, doubly: nat, length: nat)

  /** What a sector holds, as seen through the buffer cache. */
  datatype Block = Data(bytes: SectorData) | Pointers(ptrs: seq<nat>) | Node(inode: InodeDisk)

  type Store = map<nat, Block>

  function BlocksFor(length: nat): nat { (length + SECTOR_SIZE - 1) / SECTOR_SIZE }

  /** Second-level indirect blocks that `n` data blocks need. */
  function IndCount(n: nat): nat { if n <= SINGLE_END then 0 else (n - SINGLE_END + PTRS - 1) / PTRS }

  function Get(store: Store, x: nat, j: nat): nat {
    if x in store && store[x].Pointers? && j < |store[x].ptrs| then store[x].ptrs[j] else 0
  }

  /** byte_to_sector after the length test: the sector of data block `i`. */
  function Lookup(store: Store, d: InodeDisk, i: nat): nat {
    if i < DIRECT then (if i < |d.direct| then d.direct[i] else 0)
    else if i < SINGLE_END then Get(store, d.indirect, i - DIRECT)
    else Get(store, Get(store, d.doubly, (i - SINGLE_END) / PTRS), (i - SINGLE_END) % PTRS)
  }

  /** `n` consecutive entries of `xs` from `base`, zero where there are none. */
  function Window(xs: seq<nat>, base: nat, n: nat): (w: seq<nat>)
    ensures |w| == n
    ensures forall j :: 0 <= j < n ==> w[j] == if base + j < |xs| then xs[base + j] else 0
  {
    seq(n, j requires 0 <= j < n => if base + j < |xs| then xs[base + j] else 0)
  }

  lemma WindowAppend(xs: seq<nat>, x: nat, base: nat, n: nat)
    ensures Window(xs + [x], base, n)
         == if base <= |xs| < base + n then Window(xs, base, n)[|xs| - base := x] else Window(xs, base, n)
  {
  }

  /** A file on a volume. `blocks` are its data sectors in order and `inds` its second-level index sectors. */
  datatype Tree = Tree(store: Store, used: set<nat>, self: nat, d: InodeDisk, blocks: seq<nat>, inds: seq<nat>)

  predicate Distinct(s: seq<nat>) {
    forall i, j :: 0 <= i < j < |s| ==> s[i] != s[j]
  }

  /** A sector the file may own: allocated, not reserved, and not the inode's own. */
  predicate Ours(t: Tree, s: nat) { s in t.used && !Reserved(s) && s != t.self }

  /** Every sector of the file has one role only. */
  ghost predicate Separate(t: Tree) {
    && Distinct(t.blocks) && Distinct(t.inds)
    && (forall b :: b in t.blocks ==> Ours(t, b) && b !in t.inds && b != t.d.indirect && b != t.d.doubly && b in t.store && t.store[b].Data?)
    && (forall x :: x in t.inds ==> Ours(t, x) && x != t.d.indirect && x != t.d.doubly)
    && (t.d.indirect != 0 ==> Ours(t, t.d.indirect) && t.d.indirect != t.d.doubly)
    && (t.d.doubly != 0 ==> Ours(t, t.d.doubly))
    && t.self in t.used && (forall s :: Reserved(s) ==> s in t.used)
  }

  predicate Holds(t: Tree, x: nat, ptrs: seq<nat>) { x in t.store && t.store[x] == Pointers(ptrs) }

  /** The first `m` second-level blocks hold their share of the data pointers. */
  ghost predicate LeavesOk(t: Tree, m: nat) {
    m <= |t.inds| && forall k :: 0 <= k < m ==> Holds(t, t.inds[k], Window(t.blocks, SINGLE_END + PTRS * k, PTRS))
  }

  /** The pointers on disk spell out `blocks`; every pointer past the end is zero. */
  ghost predicate Shape(t: Tree) {
    var n := |t.blocks|;
    && n <= MAX_BLOCKS
    && t.d.direct == Window(t.blocks, 0, DIRECT)
    && (if n <= DIRECT then t.d.indirect == 0
        else t.d.indirect != 0 && Holds(t, t.d.indirect, Window(t.blocks, DIRECT, PTRS)))
    && (if n <= SINGLE_END then t.d.doubly == 0
        else t.d.doubly != 0 && Holds(t, t.d.doubly, Window(t.inds, 0, PTRS)))
    && |t.inds| == IndCount(n) && LeavesOk(t, |t.inds|)
  }

  ghost predicate Rep(t: Tree) { Separate(t) && Shape(t) }

  /** A file whose growth was interrupted: the direct pointers are right, but index sectors may not be written yet. */
  ghost predicate Partial(t: Tree) {
    && Separate(t) && t.d.direct == Window(t.blocks, 0, DIRECT)
    && (t.d.indirect == 0 ==> |t.blocks| <= DIRECT && t.inds == [] && t.d.doubly == 0)
  }

  /** The lookup path finds every block, at all three levels. */
  lemma LookupFinds(t: Tree, i: nat)
    requires Rep(t) && i < |t.blocks|
    ensures Lookup(t.store, t.d, i) == t.blocks[i]
  {
    if i >= SINGLE_END {
      var k := (i - SINGLE_END) / PTRS;
      assert k < |t.inds| <= PTRS;
      assert Holds(t, t.inds[k], Window(t.blocks, SINGLE_END + PTRS * k, PTRS));
      assert Get(t.store, t.d.doubly, k) == t.inds[k];
    }
  }

  // ---------------------------------------------------------------- what the file owns

  ghost function Owned(t: Tree): set<nat> {
    (set b | b in t.blocks) + (set x | x in t.inds) + ({t.d.indirect, t.d.doubly} - {0})
  }

  ghost function IndexSectors(t: Tree): set<nat> {
    (set x | x in t.inds) + ({t.d.indirect, t.d.doubly} - {0})
  }

  predicate SameAt(a: Store, b: Store, s: nat) {
    (s in a <==> s in b) && (s in a ==> a[s] == b[s])
  }

  /** `t` is `t0` grown at its end: new blocks are zero and come from free sectors, existing blocks keep
      their place, and no sector outside the file's own index has changed. */
  ghost predicate Grown(t0: Tree, t: Tree) {
    && t.self == t0.self && t.d.length == t0.d.length
    && t0.blocks <= t.blocks && t0.inds <= t.inds
    && (t0.d.indirect != 0 ==> t.d.indirect == t0.d.indirect)
    && (t0.d.doubly != 0 ==> t.d.doubly == t0.d.doubly)
    && t0.used <= t.used && Owned(t0) <= Owned(t)
    && t.used - t0.used == Owned(t) - Owned(t0)
    && (forall s :: s in t0.used && s !in IndexSectors(t0) ==> SameAt(t0.store, t.store, s))
    && (forall i :: |t0.blocks| <= i < |t.blocks| ==> Fresh(t0, t, t.blocks[i]))
  }

  predicate Fresh(t0: Tree, t: Tree, b: nat) {
    b !in t0.used && b in t.store && t.store[b] == Data(Zeros())
  }

  lemma OwnedAreUsed(t: Tree)
    requires Separate(t)
    ensures Owned(t) <= t.used
  {
  }

  /** Allocation and ownership stay in step. */
  lemma OwnOneMore(t0: Tree, t: Tree, t': Tree, x: nat)
    requires Separate(t0) && t0.used <= t.used && Owned(t0) <= Owned(t) && t.used - t0.used == Owned(t) - Owned(t0)
    requires x !in t.used && t'.used == t.used + {x} && Owned(t') == Owned(t) + {x}
    ensures t0.used <= t'.used && Owned(t0) <= Owned(t') && t'.used - t0.used == Owned(t') - Owned(t0)
  {
    OwnedAreUsed(t0);
    assert t'.used - t0.used == (t.used - t0.used) + {x};
    assert Owned(t') - Owned(t0) == (Owned(t) - Owned(t0)) + {x};
  }

  lemma GrownRefl(t: Tree)
    ensures Grown(t, t)
  {
  }

  // ---------------------------------------------------------------- the elementary steps

  /** Allocate a data sector, zero it, and append it to the file. */
  function PutData(t: Tree, s: nat): Tree {
    t.(store := t.store[s := Data(Zeros())], used := t.used + {s}, blocks := t.blocks + [s])
  }

  function TakeIndirect(t: Tree, x: nat): Tree { t.(used := t.used + {x}, d := t.d.(indirect := x)) }

  function TakeDoubly(t: Tree, x: nat): Tree { t.(used := t.used + {x}, d := t.d.(doubly := x)) }

  function TakeInd(t: Tree, x: nat): Tree { t.(used := t.used + {x}, inds := t.inds + [x]) }

  function WriteIndex(t: Tree, x: nat, ptrs: seq<nat>): Tree { t.(store := t.store[x := Pointers(ptrs)]) }

  /** A free sector has no role in the file yet. */
  lemma FreeIsNew(t: Tree, s: nat)
    requires Separate(t) && s !in t.used
    ensures !Reserved(s) && s != t.self && s != 0 && s != t.d.indirect && s != t.d.doubly && s !in t.inds && s !in t.blocks
  {
  }

  lemma PutDataSeparate(t: Tree, s: nat)
    requires Separate(t) && s !in t.used
    ensures Separate(PutData(t, s))
  {
    FreeIsNew(t, s);
  }

  lemma PutDataStep(t0: Tree, t: Tree, s: nat)
    requires Separate(t) && Grown(t0, t) && Separate(t0) && s !in t.used
    ensures Separate(PutData(t, s)) && Grown(t0, PutData(t, s))
  {
    var t' := PutData(t, s);
    PutDataSeparate(t, s);
    FreeIsNew(t, s);
    assert Owned(t') == Owned(t) + {s};
    OwnOneMore(t0, t, t', s);
    forall i | |t0.blocks| <= i < |t'.blocks| ensures Fresh(t0, t', t'.blocks[i]) {
      if i < |t.blocks| { assert Fresh(t0, t, t.blocks[i]) && t.blocks[i] in t.blocks; }
    }
  }

  lemma TakeIndirectStep(t0: Tree, t: Tree, x: nat)
    requires Separate(t) && Grown(t0, t) && Separate(t0) && x !in t.used && t.d.indirect == 0
    ensures Separate(TakeIndirect(t, x)) && Grown(t0, TakeIndirect(t, x))
  {
    var t' := TakeIndirect(t, x);
    assert !Reserved(x) && x != t.self && x !in t.inds && x !in t.blocks;
    assert Owned(t') == Owned(t) + {x};
    OwnOneMore(t0, t, t', x);
    assert forall i :: |t0.blocks| <= i < |t'.blocks| ==> Fresh(t0, t, t.blocks[i]);
  }

  lemma TakeDoublyStep(t0: Tree, t: Tree, x: nat)
    requires Separate(t) && Grown(t0, t) && Separate(t0) && x !in t.used && t.d.doubly == 0
    ensures Separate(TakeDoubly(t, x)) && Grown(t0, TakeDoubly(t, x))
  {
    var t' := TakeDoubly(t, x);
    assert !Reserved(x) && x != t.self && x !in t.inds && x !in t.blocks;
    assert Owned(t') == Owned(t) + {x};
    OwnOneMore(t0, t, t', x);
    assert forall i :: |t0.blocks| <= i < |t'.blocks| ==> Fresh(t0, t, t.blocks[i]);
  }

  lemma TakeIndStep(t0: Tree, t: Tree, x: nat)
    requires Separate(t) && Grown(t0, t) && Separate(t0) && x !in t.used
    ensures Separate(TakeInd(t, x)) && Grown(t0, TakeInd(t, x))
  {
    var t' := TakeInd(t, x);
    assert !Reserved(x) && x != t.self && x != t.d.indirect && x != t.d.doubly && x !in t.inds && x !in t.blocks;
    assert Owned(t') == Owned(t) + {x};
    OwnOneMore(t0, t, t', x);
    assert forall i :: |t0.blocks| <= i < |t'.blocks| ==> Fresh(t0, t, t.blocks[i]);
  }

  /** An index sector is not a data sector of the file, and was free or index before. */
  lemma IndexSectorFresh(t0: Tree, t: Tree, x: nat)
    requires Separate(t) && Separate(t0) && Grown(t0, t) && x in IndexSectors(t)
    ensures x !in t.blocks && (x !in t0.used || x in IndexSectors(t0))
  {
    assert x in Owned(t);
    assert forall b :: b in t0.blocks ==> b in t.blocks;
  }

  lemma WriteIndexStep(t0: Tree, t: Tree, x: nat, ptrs: seq<nat>)
    requires Separate(t) && Grown(t0, t) && Separate(t0) && x in IndexSectors(t)
    ensures Separate(WriteIndex(t, x, ptrs)) && Grown(t0, WriteIndex(t, x, ptrs))
  {
    var t' := WriteIndex(t, x, ptrs);
    IndexSectorFresh(t0, t, x);
    assert Owned(t') == Owned(t);
    forall i | |t0.blocks| <= i < |t'.blocks| ensures Fresh(t0, t', t'.blocks[i]) {
      assert Fresh(t0, t, t.blocks[i]) && t.blocks[i] in t.blocks;
    }
  }

  // ---------------------------------------------------------------- filling the three levels

  function SetDirect(t: Tree, i: nat, s: nat): Tree
    requires i < |t.d.direct|
  {
    t.(d := t.d.(direct := t.d.direct[i := s]))
  }

  lemma DirectAdd(t0: Tree, t: Tree, s: nat)
    requires Separate(t0) && Rep(t) && Grown(t0, t) && |t.blocks| < DIRECT && s !in t.used
    ensures Rep(SetDirect(PutData(t, s), |t.blocks|, s)) && Grown(t0, SetDirect(PutData(t, s), |t.blocks|, s))
  {
    PutDataStep(t0, t, s);
    WindowAppend(t.blocks, s, 0, DIRECT);
    var t' := SetDirect(PutData(t, s), |t.blocks|, s);
    assert Owned(t') == Owned(PutData(t, s));
    assert forall i :: |t0.blocks| <= i < |t'.blocks| ==> Fresh(t0, PutData(t, s), t'.blocks[i]);
  }

  /** Filling the indirect block: `buf` is its new content, not yet written. */
  ghost predicate MidSingle(t: Tree, buf: seq<nat>) {
    && Separate(t) && DIRECT <= |t.blocks| <= SINGLE_END
    && t.d.direct == Window(t.blocks, 0, DIRECT)
    && t.d.indirect != 0 && t.d.doubly == 0 && t.inds == []
    && buf == Window(t.blocks, DIRECT, PTRS)
  }

  lemma SingleNew(t0: Tree, t: Tree, x: nat)
    requires Separate(t0) && Rep(t) && Grown(t0, t) && |t.blocks| == DIRECT && x !in t.used
    ensures t.d.indirect == 0
    ensures MidSingle(TakeIndirect(t, x), Window([], 0, PTRS)) && Grown(t0, TakeIndirect(t, x))
  {
    TakeIndirectStep(t0, t, x);
    assert x != 0;
    assert Window([], 0, PTRS) == Window(t.blocks, DIRECT, PTRS);
  }

  lemma SingleAdd(t0: Tree, t: Tree, buf: seq<nat>, s: nat)
    requires Separate(t0) && MidSingle(t, buf) && Grown(t0, t) && |t.blocks| < SINGLE_END && s !in t.used
    ensures buf[|t.blocks| - DIRECT] == 0
    ensures MidSingle(PutData(t, s), buf[|t.blocks| - DIRECT := s]) && Grown(t0, PutData(t, s))
  {
    PutDataStep(t0, t, s);
    WindowAppend(t.blocks, s, 0, DIRECT);
    WindowAppend(t.blocks, s, DIRECT, PTRS);
  }

  lemma SingleEnd(t0: Tree, t: Tree, buf: seq<nat>)
    requires Separate(t0) && MidSingle(t, buf) && Grown(t0, t) && |t.blocks| > DIRECT
    ensures Rep(WriteIndex(t, t.d.indirect, buf)) && Grown(t0, WriteIndex(t, t.d.indirect, buf))
  {
    WriteIndexStep(t0, t, t.d.indirect, buf);
  }

  /** Everything but the content of the doubly indirect block itself, which is `dbl`. */
  ghost predicate MidDoubly(t: Tree, dbl: seq<nat>) {
    && Separate(t) && SINGLE_END <= |t.blocks| <= MAX_BLOCKS
    && t.d.direct == Window(t.blocks, 0, DIRECT)
    && t.d.indirect != 0 && Holds(t, t.d.indirect, Window(t.blocks, DIRECT, PTRS))
    && t.d.doubly != 0 && dbl == Window(t.inds, 0, PTRS)
    && |t.inds| == IndCount(|t.blocks|) && LeavesOk(t, |t.inds|)
  }

  lemma DoublyNew(t0: Tree, t: Tree, x: nat)
    requires Separate(t0) && Rep(t) && Grown(t0, t) && |t.blocks| == SINGLE_END && x !in t.used
    ensures t.d.doubly == 0
    ensures MidDoubly(TakeDoubly(t, x), Window([], 0, PTRS)) && Grown(t0, TakeDoubly(t, x))
  {
    TakeDoublyStep(t0, t, x);
    assert x != 0;
    assert t.inds == [];
  }

  lemma DoublyEnd(t0: Tree, t: Tree, dbl: seq<nat>)
    requires Separate(t0) && MidDoubly(t, dbl) && Grown(t0, t) && |t.blocks| > SINGLE_END
    ensures Rep(WriteIndex(t, t.d.doubly, dbl)) && Grown(t0, WriteIndex(t, t.d.doubly, dbl))
  {
    WriteIndexStep(t0, t, t.d.doubly, dbl);
    var t' := WriteIndex(t, t.d.doubly, dbl);
    forall k | 0 <= k < |t.inds| ensures Holds(t', t.inds[k], Window(t.blocks, SINGLE_END + PTRS * k, PTRS)) {
      assert t.inds[k] in t.inds;
    }
  }

  /** Filling second-level block `k`: `ind` is its new content, not yet written. */
  ghost predicate MidLeaf(t: Tree, dbl: seq<nat>, k: nat, ind: seq<nat>) {
    && Separate(t) && k < PTRS
    && SINGLE_END + PTRS * k <= |t.blocks| <= SINGLE_END + PTRS * (k + 1)
    && t.d.direct == Window(t.blocks, 0, DIRECT)
    && t.d.indirect != 0 && Holds(t, t.d.indirect, Window(t.blocks, DIRECT, PTRS))
    && t.d.doubly != 0 && dbl == Window(t.inds, 0, PTRS)
    && |t.inds| == k + 1 && LeavesOk(t, k)
    && ind == Window(t.blocks, SINGLE_END + PTRS * k, PTRS)
  }

  function LeafOf(n: nat): nat
    requires n >= SINGLE_END
  {
    (n - SINGLE_END) / PTRS
  }

  lemma LeafNew(t0: Tree, t: Tree, dbl: seq<nat>, y: nat)
    requires Separate(t0) && MidDoubly(t, dbl) && Grown(t0, t) && |t.blocks| < MAX_BLOCKS
    requires (|t.blocks| - SINGLE_END) % PTRS == 0 && y !in t.used
    ensures LeafOf(|t.blocks|) < PTRS && dbl[LeafOf(|t.blocks|)] == 0
    ensures MidLeaf(TakeInd(t, y), dbl[LeafOf(|t.blocks|) := y], LeafOf(|t.blocks|), Window([], 0, PTRS)) && Grown(t0, TakeInd(t, y))
  {
    var k := LeafOf(|t.blocks|);
    TakeIndStep(t0, t, y);
    WindowAppend(t.inds, y, 0, PTRS);
    assert |t.inds| == k;
    assert Window([], 0, PTRS) == Window(t.blocks, SINGLE_END + PTRS * k, PTRS);
    LeavesKept(t, TakeInd(t, y), k);
  }

  /** Leaves stay right while the blocks they cover and their sectors do not change. */
  lemma LeavesKept(t: Tree, t': Tree, m: nat)
    requires LeavesOk(t, m) && t.inds <= t'.inds && t.blocks <= t'.blocks && SINGLE_END + PTRS * m <= |t.blocks|
    requires forall k :: 0 <= k < m ==> SameAt(t.store, t'.store, t.inds[k])
    ensures LeavesOk(t', m)
  {
  }

  lemma LeafOld(t: Tree, dbl: seq<nat>)
    requires MidDoubly(t, dbl) && |t.blocks| < MAX_BLOCKS && (|t.blocks| - SINGLE_END) % PTRS != 0
    ensures LeafOf(|t.blocks|) < PTRS
    ensures var y := dbl[LeafOf(|t.blocks|)];
      && y != 0 && y in t.store && t.store[y].Pointers?
      && MidLeaf(t, dbl, LeafOf(|t.blocks|), t.store[y].ptrs)
  {
    var k := LeafOf(|t.blocks|);
    assert |t.inds| == k + 1;
    assert t.inds[k] in t.inds;
    assert Holds(t, t.inds[k], Window(t.blocks, SINGLE_END + PTRS * k, PTRS));
  }

  /** Appending past the first two levels leaves their windows alone. */
  lemma EarlierWindows(xs: seq<nat>, x: nat)
    requires |xs| >= SINGLE_END
    ensures Window(xs + [x], 0, DIRECT) == Window(xs, 0, DIRECT) && Window(xs + [x], DIRECT, PTRS) == Window(xs, DIRECT, PTRS)
  {
    WindowAppend(xs, x, 0, DIRECT);
    WindowAppend(xs, x, DIRECT, PTRS);
  }

  lemma OpenWindow(xs: seq<nat>, x: nat, base: nat, ind: seq<nat>)
    requires base <= |xs| < base + PTRS && ind == Window(xs, base, PTRS)
    ensures ind[|xs| - base] == 0 && Window(xs + [x], base, PTRS) == ind[|xs| - base := x]
  {
    WindowAppend(xs, x, base, PTRS);
  }

  lemma LeafAdd(t0: Tree, t: Tree, dbl: seq<nat>, k: nat, ind: seq<nat>, s: nat)
    requires Separate(t0) && MidLeaf(t, dbl, k, ind) && Grown(t0, t) && s !in t.used
    requires |t.blocks| < SINGLE_END + PTRS * (k + 1)
    ensures var j := |t.blocks| - (SINGLE_END + PTRS * k);
      && ind[j] == 0
      && MidLeaf(PutData(t, s), dbl, k, ind[j := s]) && Grown(t0, PutData(t, s))
  {
    PutDataStep(t0, t, s);
    EarlierWindows(t.blocks, s);
    OpenWindow(t.blocks, s, SINGLE_END + PTRS * k, ind);
    forall i | 0 <= i < k ensures SameAt(t.store, PutData(t, s).store, t.inds[i]) {
      assert t.inds[i] in t.inds;
    }
    LeavesKept(t, PutData(t, s), k);
  }

  lemma LeafEnd(t0: Tree, t: Tree, dbl: seq<nat>, k: nat, ind: seq<nat>)
    requires Separate(t0) && MidLeaf(t, dbl, k, ind) && Grown(t0, t) && |t.blocks| > SINGLE_END + PTRS * k
    ensures MidDoubly(WriteIndex(t, dbl[k], ind), dbl) && Grown(t0, WriteIndex(t, dbl[k], ind))
  {
    var t' := WriteIndex(t, dbl[k], ind);
    assert dbl[k] == t.inds[k] && t.inds[k] in t.inds;
    WriteIndexStep(t0, t, dbl[k], ind);
    assert IndCount(|t.blocks|) == k + 1;
    forall i | 0 <= i < k ensures SameAt(t.store, t'.store, t.inds[i]) {}
    LeavesKept(t, t', k);
    assert LeavesOk(t', k + 1);
  }
}
