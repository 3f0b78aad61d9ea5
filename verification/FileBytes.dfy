/** A file as a flat array of bytes, read off its index tree. */
module FileBytes {
  import opened Sectors
  import opened FreeMap
  import opened IndexTree

  /** Byte `o` of the file's blocks, which may reach past its length. */
  function ByteAt(t: Tree, o: nat): byte {
    var i := o / SECTOR_SIZE;
    if i < |t.blocks| && t.blocks[i] in t.store && t.store[t.blocks[i]].Data?
    then t.store[t.blocks[i]].bytes[o % SECTOR_SIZE] else 0
  }

  function Bytes(t: Tree, n: nat): (c: seq<byte>)
    ensures |c| == n
  {
    if n == 0 then [] else Bytes(t, n - 1) + [ByteAt(t, n - 1)]
  }

  function Contents(t: Tree): seq<byte> { Bytes(t, t.d.length) }

  lemma {:induction false} BytesAt(t: Tree, n: nat)
    ensures forall o :: 0 <= o < n ==> Bytes(t, n)[o] == ByteAt(t, o)
  {
    if n > 0 { BytesAt(t, n - 1); }
  }

  /** Contents are determined byte by byte. */
  lemma ContentsAre(t: Tree, c: seq<byte>)
    requires |c| == t.d.length && forall o :: 0 <= o < |c| ==> c[o] == ByteAt(t, o)
    ensures Contents(t) == c
  {
    BytesAt(t, t.d.length);
  }

  /** The tree covers the length exactly, and the rest of the last block is zero. */
  ghost predicate Backed(t: Tree) {
    Rep(t) && |t.blocks| == BlocksFor(t.d.length) && ZeroTail(t)
  }

  ghost predicate ZeroTail(t: Tree) { forall o: nat :: t.d.length <= o ==> ByteAt(t, o) == 0 }

  function Padded(c: seq<byte>, n: nat): (r: seq<byte>)
    requires |c| <= n
    ensures |r| == n
    ensures forall i :: 0 <= i < n ==> r[i] == if i < |c| then c[i] else 0
  {
    seq(n, i requires 0 <= i < n => if i < |c| then c[i] else 0)
  }

  /** What a write of `b` at `offset` makes of contents `c`. */
  function Written(c: seq<byte>, offset: nat, b: seq<byte>): seq<byte> {
    var n := if offset + |b| > |c| then offset + |b| else |c|;
    Splice(Padded(c, n), offset, b)
  }

  /** At most `size` bytes from `offset`, clipped at the end of `c`. */
  function Clipped(c: seq<byte>, offset: nat, size: nat): seq<byte> {
    if offset >= |c| then [] else if offset + size > |c| then c[offset..] else c[offset..offset + size]
  }

  function WithLength(t: Tree, n: nat): Tree { t.(d := t.d.(length := n)) }

  lemma GrownByte(t0: Tree, t: Tree, o: nat)
    requires Rep(t0) && Grown(t0, t)
    ensures ByteAt(t, o) == ByteAt(t0, o)
  {
    var i := o / SECTOR_SIZE;
    if i < |t0.blocks| {
      assert t0.blocks[i] in t0.blocks;
      assert SameAt(t0.store, t.store, t0.blocks[i]);
    } else if i < |t.blocks| {
      assert Fresh(t0, t, t.blocks[i]);
    }
  }

  /** Growing a file and then raising its length pads its contents with zeros. */
  lemma GrownContents(t0: Tree, t: Tree, n: nat)
    requires Backed(t0) && Grown(t0, t) && n >= t0.d.length
    ensures Contents(WithLength(t, n)) == Padded(Contents(t0), n)
    ensures ZeroTail(WithLength(t, n))
  {
    var t' := WithLength(t, n);
    forall o: nat ensures ByteAt(t', o) == ByteAt(t0, o) {
      GrownByte(t0, t, o);
      assert ByteAt(t', o) == ByteAt(t, o);
    }
    BytesAt(t0, t0.d.length);
    ContentsAre(t', Padded(Contents(t0), n));
  }

  /** Growing alone changes nothing a reader can see. */
  lemma GrownSame(t0: Tree, t: Tree)
    requires Rep(t0) && Grown(t0, t)
    ensures Contents(t) == Contents(t0)
  {
    forall o: nat ensures ByteAt(t, o) == ByteAt(t0, o) { GrownByte(t0, t, o); }
    BytesAt(t0, t0.d.length);
    ContentsAre(t, Contents(t0));
  }

  lemma LengthRep(t: Tree, n: nat)
    requires Rep(t)
    ensures Rep(WithLength(t, n)) && Owned(WithLength(t, n)) == Owned(t)
  {
    var t' := WithLength(t, n);
    assert forall k :: 0 <= k < |t.inds| ==> Holds(t, t.inds[k], Window(t.blocks, SINGLE_END + PTRS * k, PTRS));
  }

  // ---------------------------------------------------------------- changing sectors

  /** A sector that holds neither data nor index of the file can be rewritten. */
  lemma StoreFrame(t: Tree, s: nat, b: Block)
    requires Rep(t) && s !in Owned(t)
    ensures var t' := t.(store := t.store[s := b]);
      Rep(t') && Contents(t') == Contents(t) && forall o: nat :: ByteAt(t', o) == ByteAt(t, o)
  {
    var t' := t.(store := t.store[s := b]);
    forall k | 0 <= k < |t.inds| ensures Holds(t', t.inds[k], Window(t.blocks, SINGLE_END + PTRS * k, PTRS)) {
      assert t.inds[k] in t.inds;
      assert Holds(t, t.inds[k], Window(t.blocks, SINGLE_END + PTRS * k, PTRS));
    }
    forall o: nat ensures ByteAt(t', o) == ByteAt(t, o) {
      if o / SECTOR_SIZE < |t.blocks| { assert t.blocks[o / SECTOR_SIZE] in t.blocks; }
    }
    BytesAt(t, t.d.length);
    ContentsAre(t', Contents(t));
  }

  /** `b` written inside data block `i`, at `ofs` in the sector. */
  function Patched(t: Tree, i: nat, ofs: nat, b: seq<byte>): Tree
    requires Rep(t) && i < |t.blocks| && ofs + |b| <= SECTOR_SIZE
  {
    var s := t.blocks[i];
    t.(store := t.store[s := Data(Splice(t.store[s].bytes, ofs, b))])
  }

  lemma PatchedRep(t: Tree, i: nat, ofs: nat, b: seq<byte>)
    requires Rep(t) && i < |t.blocks| && ofs + |b| <= SECTOR_SIZE
    ensures Rep(Patched(t, i, ofs, b))
  {
    var t' := Patched(t, i, ofs, b);
    assert t.blocks[i] in t.blocks;
    forall k | 0 <= k < |t.inds| ensures Holds(t', t.inds[k], Window(t.blocks, SINGLE_END + PTRS * k, PTRS)) {
      assert t.inds[k] in t.inds;
      assert Holds(t, t.inds[k], Window(t.blocks, SINGLE_END + PTRS * k, PTRS));
    }
  }

  lemma PatchedByte(t: Tree, i: nat, ofs: nat, b: seq<byte>, o: nat)
    requires Rep(t) && i < |t.blocks| && ofs + |b| <= SECTOR_SIZE
    ensures var lo := i * SECTOR_SIZE + ofs;
      ByteAt(Patched(t, i, ofs, b), o) == if lo <= o < lo + |b| then b[o - lo] else ByteAt(t, o)
  {
    var k := o / SECTOR_SIZE;
    if k < |t.blocks| {
      assert t.blocks[k] in t.blocks && (k != i ==> t.blocks[k] != t.blocks[i]);
      assert o == k * SECTOR_SIZE + o % SECTOR_SIZE;
    }
  }

  lemma PatchedContents(t: Tree, i: nat, ofs: nat, b: seq<byte>)
    requires Backed(t) && i < |t.blocks| && ofs + |b| <= SECTOR_SIZE && i * SECTOR_SIZE + ofs + |b| <= t.d.length
    ensures Backed(Patched(t, i, ofs, b))
    ensures Contents(Patched(t, i, ofs, b)) == Splice(Contents(t), i * SECTOR_SIZE + ofs, b)
  {
    PatchedRep(t, i, ofs, b);
    forall o: nat ensures var lo := i * SECTOR_SIZE + ofs;
      ByteAt(Patched(t, i, ofs, b), o) == if lo <= o < lo + |b| then b[o - lo] else ByteAt(t, o)
    {
      PatchedByte(t, i, ofs, b, o);
    }
    BytesAt(t, t.d.length);
    ContentsAre(Patched(t, i, ofs, b), Splice(Contents(t), i * SECTOR_SIZE + ofs, b));
  }

  // ---------------------------------------------------------------- other files on the volume

  /** Two files of one volume that share no sector. */
  ghost predicate Apart(t: Tree, u: Tree) {
    && t.store == u.store && t.used == u.used && t.self != u.self
    && Owned(t) !! Owned(u) && t.self !in Owned(u) && u.self !in Owned(t)
  }

  /** `u` seen on the volume as `t` left it. */
  function On(u: Tree, t: Tree): Tree { u.(store := t.store, used := t.used) }

  /** A file whose sectors have not changed is unchanged. */
  lemma FileFrame(u: Tree, u': Tree)
    requires Rep(u) && u' == On(u, u') && u.used <= u'.used
    requires forall s :: s in Owned(u) ==> SameAt(u.store, u'.store, s)
    ensures Rep(u') && Contents(u') == Contents(u)
  {
    assert forall b :: b in u.blocks ==> b in Owned(u);
    assert forall x :: x in u.inds ==> x in Owned(u);
    assert (u.d.indirect != 0 ==> u.d.indirect in Owned(u)) && (u.d.doubly != 0 ==> u.d.doubly in Owned(u));
    forall k | 0 <= k < |u.inds| ensures Holds(u', u.inds[k], Window(u.blocks, SINGLE_END + PTRS * k, PTRS)) {
      assert u.inds[k] in u.inds;
      assert Holds(u, u.inds[k], Window(u.blocks, SINGLE_END + PTRS * k, PTRS));
    }
    forall o: nat ensures ByteAt(u', o) == ByteAt(u, o) {
      if o / SECTOR_SIZE < |u.blocks| { assert u.blocks[o / SECTOR_SIZE] in u.blocks; }
    }
    BytesAt(u, u.d.length);
    ContentsAre(u', Contents(u));
  }

  /** `t` came from `t0` by operations on this file alone: blocks stay in place, what was allocated is what
      the file gained, and sectors outside the file keep their contents. */
  ghost predicate Keeps(t0: Tree, t: Tree) {
    && t.self == t0.self && t0.blocks <= t.blocks
    && t0.used <= t.used && Owned(t0) <= Owned(t)
    && t.used - t0.used == Owned(t) - Owned(t0)
    && forall s :: s in t0.used && s !in Owned(t0) && s != t0.self ==> SameAt(t0.store, t.store, s)
  }

  lemma KeepsTrans(t0: Tree, t1: Tree, t2: Tree)
    requires Separate(t0) && Separate(t1) && Keeps(t0, t1) && Keeps(t1, t2)
    ensures Keeps(t0, t2)
  {
    OwnedAreUsed(t0);
    OwnedAreUsed(t1);
    assert t2.used - t0.used == (t2.used - t1.used) + (t1.used - t0.used);
    assert Owned(t2) - Owned(t0) == (Owned(t2) - Owned(t1)) + (Owned(t1) - Owned(t0));
  }

  lemma GrownKeeps(t0: Tree, t: Tree)
    requires Rep(t0) && Grown(t0, t)
    ensures Keeps(t0, t)
  {
    assert IndexSectors(t0) <= Owned(t0);
  }

  lemma PatchedKeeps(t: Tree, i: nat, ofs: nat, b: seq<byte>)
    requires Rep(t) && i < |t.blocks| && ofs + |b| <= SECTOR_SIZE
    ensures Keeps(t, Patched(t, i, ofs, b))
  {
    assert t.blocks[i] in t.blocks;
    assert Owned(Patched(t, i, ofs, b)) == Owned(t);
  }

  /** An operation on one file leaves every other file as it was, and the two still share nothing. */
  lemma OthersKept(t0: Tree, t: Tree, u: Tree)
    requires Separate(t0) && Rep(u) && Apart(t0, u) && Keeps(t0, t)
    ensures Apart(t, On(u, t)) && Rep(On(u, t)) && Contents(On(u, t)) == Contents(u)
  {
    OwnedAreUsed(u);
    OwnedAreUsed(t0);
    FileFrame(u, On(u, t));
    assert Owned(On(u, t)) == Owned(u);
  }

  /** Writing the inode to its own sector. */
  lemma SaveKeeps(t0: Tree, t: Tree, n: nat, b: Block)
    requires Separate(t0) && Keeps(t0, t)
    ensures Keeps(t0, WithLength(t, n).(store := t.store[t.self := b]))
  {
  }

  // ---------------------------------------------------------------- reading and writing in chunks

  /** The bytes of one chunk are in the sector that the lookup finds. */
  lemma ChunkIs(t: Tree, at: nat, chunk: nat)
    requires Backed(t) && 0 < chunk && at % SECTOR_SIZE + chunk <= SECTOR_SIZE && at + chunk <= t.d.length
    ensures at / SECTOR_SIZE < |t.blocks| && Lookup(t.store, t.d, at / SECTOR_SIZE) == t.blocks[at / SECTOR_SIZE]
    ensures var s := t.blocks[at / SECTOR_SIZE];
      s in t.store && t.store[s].Data?
      && t.store[s].bytes[at % SECTOR_SIZE..at % SECTOR_SIZE + chunk] == Contents(t)[at..at + chunk]
  {
    var i := at / SECTOR_SIZE;
    LookupFinds(t, i);
    assert t.blocks[i] in t.blocks;
    forall o | at <= o < at + chunk ensures ByteAt(t, o) == t.store[t.blocks[i]].bytes[o - i * SECTOR_SIZE] {
      assert o / SECTOR_SIZE == i && o % SECTOR_SIZE == o - i * SECTOR_SIZE;
    }
    BytesAt(t, t.d.length);
  }

  /** Bytes to move at `at` when `left` remain: not past the sector, not past the file; never negative. */
  function Chunk(length: nat, at: nat, left: nat): nat {
    var sectorLeft := SECTOR_SIZE - at % SECTOR_SIZE;
    var inodeLeft := if at < length then length - at else 0;
    var minLeft := if inodeLeft < sectorLeft then inodeLeft else sectorLeft;
    if left < minLeft then left else minLeft
  }

  /** The read loop has moved `buffer` so far. */
  ghost predicate ReadSoFar(c: seq<byte>, offset: nat, size: nat, buffer: seq<byte>) {
    |buffer| <= size && (buffer != [] ==> offset + |buffer| <= |c| && buffer == c[offset..offset + |buffer|])
  }

  /** One chunk of `c` at `at`. */
  ghost predicate PieceOf(c: seq<byte>, at: nat, left: nat, piece: seq<byte>) {
    |piece| == Chunk(|c|, at, left) && (piece != [] ==> at + |piece| <= |c| && piece == c[at..at + |piece|])
  }

  lemma ReadStep(c: seq<byte>, offset: nat, size: nat, buffer: seq<byte>, piece: seq<byte>)
    requires ReadSoFar(c, offset, size, buffer) && PieceOf(c, offset + |buffer|, size - |buffer|, piece)
    ensures piece != [] ==> ReadSoFar(c, offset, size, buffer + piece)
    ensures piece == [] ==> buffer == Clipped(c, offset, size)
  {
  }

  lemma ReadDone(c: seq<byte>, offset: nat, size: nat, buffer: seq<byte>)
    requires ReadSoFar(c, offset, size, buffer) && |buffer| == size
    ensures buffer == Clipped(c, offset, size)
  {
  }

  /** The write loop has moved the first `done` bytes of `b` into `c0`. */
  ghost predicate WroteSoFar(c0: seq<byte>, offset: nat, b: seq<byte>, done: nat, c: seq<byte>) {
    done <= |b| && offset + |b| <= |c0| && c == Splice(c0, offset, b[..done])
  }

  lemma WriteStep(c0: seq<byte>, offset: nat, b: seq<byte>, done: nat, c: seq<byte>, n: nat, c': seq<byte>)
    requires WroteSoFar(c0, offset, b, done, c) && done < |b|
    requires n == Chunk(|c|, offset + done, |b| - done)
    requires n > 0 ==> c' == Splice(c, offset + done, b[done..][..n])
    ensures n > 0 && done + n <= |b| && WroteSoFar(c0, offset, b, done + n, c')
  {
  }

  /** One turn of the write loop, for the whole history since `t0`. */
  lemma TurnKeeps(t0: Tree, t: Tree, t': Tree, offset: nat, b: seq<byte>, n: nat, k: nat)
    requires Separate(t0) && Separate(t) && Keeps(t0, t) && Keeps(t, t') && n < |b|
    requires SameAt(t0.store, t.store, t0.self) && SameAt(t.store, t'.store, t0.self)
    requires WroteSoFar(Contents(t0), offset, b, n, Contents(t)) && k == Chunk(|Contents(t)|, offset + n, |b| - n)
    requires k > 0 ==> Contents(t') == Splice(Contents(t), offset + n, b[n..][..k])
    ensures Keeps(t0, t') && SameAt(t0.store, t'.store, t0.self)
    ensures 0 < k && n + k <= |b| && WroteSoFar(Contents(t0), offset, b, n + k, Contents(t'))
  {
    KeepsTrans(t0, t, t');
    WriteStep(Contents(t0), offset, b, n, Contents(t), k, Contents(t'));
  }

  lemma WriteStarts(c: seq<byte>, offset: nat, b: seq<byte>, c0: seq<byte>)
    requires c0 == if offset + |b| > |c| then Padded(c, offset + |b|) else c
    ensures WroteSoFar(c0, offset, b, 0, c0) && Written(c, offset, b) == Splice(c0, offset, b)
  {
  }

  /** One turn of the write loop on the tree: the sector found, and what writing to it does. */
  lemma ChunkWrite(t: Tree, at: nat, b: seq<byte>)
    requires Backed(t) && 0 < |b| && at % SECTOR_SIZE + |b| <= SECTOR_SIZE && at + |b| <= t.d.length
    ensures var s := Lookup(t.store, t.d, at / SECTOR_SIZE);
      && s in t.store && t.store[s].Data?
      && var t' := t.(store := t.store[s := Data(Splice(t.store[s].bytes, at % SECTOR_SIZE, b))]);
      && Backed(t') && Keeps(t, t') && Contents(t') == Splice(Contents(t), at, b) && s != t.self
  {
    var i, ofs := at / SECTOR_SIZE, at % SECTOR_SIZE;
    ChunkIs(t, at, |b|);
    PatchedContents(t, i, ofs, b);
    PatchedKeeps(t, i, ofs, b);
    assert t.blocks[i] in t.blocks;
  }

  // ---------------------------------------------------------------- releasing

  /** The elements of `xs` with indices from `lo` up to, not including, `hi`. */
  ghost function Between(xs: seq<nat>, lo: nat, hi: nat): set<nat> {
    set i | lo <= i < hi && i < |xs| :: xs[i]
  }

  lemma BetweenNext(xs: seq<nat>, lo: nat, i: nat)
    requires lo <= i
    ensures Between(xs, lo, i + 1) == Between(xs, lo, i) + (if i < |xs| then {xs[i]} else {})
  {
  }

  /** A pointer to a data block is never zero. */
  lemma NotZero(t: Tree, i: nat)
    requires Separate(t)
    ensures i < |t.blocks| ==> t.blocks[i] != 0
  {
    if i < |t.blocks| { assert t.blocks[i] in t.blocks; }
  }

  lemma BetweenApart(t: Tree, lo: nat, mid: nat, hi: nat)
    requires Separate(t) && lo <= mid <= hi
    ensures Between(t.blocks, lo, mid) !! Between(t.blocks, mid, hi)
    ensures Between(t.blocks, lo, hi) == Between(t.blocks, lo, mid) + Between(t.blocks, mid, hi)
  {
  }

  /** What releasing second-level block `k` and its data blocks touches. */
  lemma LeafApart(t: Tree, k: nat)
    requires Rep(t) && k < PTRS
    ensures var lo := SINGLE_END + PTRS * k;
      && Between(t.blocks, SINGLE_END, lo) !! Between(t.blocks, lo, lo + PTRS)
      && Between(t.blocks, SINGLE_END, lo + PTRS) == Between(t.blocks, SINGLE_END, lo) + Between(t.blocks, lo, lo + PTRS)
      && Between(t.blocks, lo, lo + PTRS) <= Between(t.blocks, SINGLE_END, MAX_BLOCKS)
      && Between(t.blocks, lo, lo + PTRS) !! Between(t.inds, 0, PTRS)
    ensures k >= |t.inds| ==> Between(t.blocks, SINGLE_END + PTRS * k, SINGLE_END + PTRS * k + PTRS) == {}
    ensures k < |t.inds| ==>
      && t.inds[k] != 0 && t.inds[k] !in Between(t.inds, 0, k)
      && t.inds[k] !in Between(t.blocks, SINGLE_END, MAX_BLOCKS) && t.inds[k] in Between(t.inds, 0, PTRS)
      && Holds(t, t.inds[k], Window(t.blocks, SINGLE_END + PTRS * k, PTRS))
    ensures Between(t.inds, 0, k + 1) == Between(t.inds, 0, k) + (if k < |t.inds| then {t.inds[k]} else {})
  {
    BetweenApart(t, SINGLE_END, SINGLE_END + PTRS * k, SINGLE_END + PTRS * k + PTRS);
    assert forall b :: b in t.blocks ==> b !in t.inds;
    if k < |t.inds| { assert t.inds[k] in t.inds; }
  }

  /** The file's sectors, level by level. */
  lemma OwnedParts(t: Tree)
    requires Rep(t)
    ensures var direct, single, rest, leaves :=
        Between(t.blocks, 0, DIRECT), Between(t.blocks, DIRECT, SINGLE_END), Between(t.blocks, SINGLE_END, MAX_BLOCKS), Between(t.inds, 0, PTRS);
      && Owned(t) == direct + single + rest + leaves + ({t.d.indirect, t.d.doubly} - {0})
      && direct !! single && direct + single !! rest && direct + single + rest !! leaves
      && (t.d.indirect != 0 ==> t.d.indirect !in direct + single + rest + leaves + {t.d.doubly})
      && (t.d.doubly != 0 ==> t.d.doubly !in direct + single + rest + leaves + {t.d.indirect})
      && (t.d.indirect == 0 ==> single == {}) && (t.d.doubly == 0 ==> rest == {} && leaves == {})
  {
    BetweenApart(t, 0, DIRECT, SINGLE_END);
    BetweenApart(t, 0, SINGLE_END, MAX_BLOCKS);
    AllBetween(t.blocks, MAX_BLOCKS);
    AllBetween(t.inds, PTRS);
  }

  lemma AllBetween(xs: seq<nat>, n: nat)
    requires |xs| <= n
    ensures Between(xs, 0, n) == set x | x in xs
  {
  }

  lemma SelfNotOwned(t: Tree)
    requires Separate(t)
    ensures t.self !in Owned(t)
  {
  }

  /** Conservation: what is allocated to others never changes, so releasing the file restores the free map. */
  lemma RestoresMap(t0: Tree, t: Tree)
    requires Separate(t0) && Keeps(t0, t)
    ensures t.used - Owned(t) == t0.used - Owned(t0)
  {
    OwnedAreUsed(t0);
    forall s ensures s in t.used - Owned(t) <==> s in t0.used - Owned(t0) {
      assert s in t.used - t0.used <==> s in Owned(t) - Owned(t0);
    }
  }

  lemma EmptyBacked(t: Tree)
    requires t.d == InodeDisk(Window([], 0, DIRECT), 0, 0, 0) && t.blocks == [] && t.inds == []
    requires t.self in t.used && forall s :: Reserved(s) ==> s in t.used
    ensures Backed(t) && Owned(t) == {} && Contents(t) == []
  {
  }
}
