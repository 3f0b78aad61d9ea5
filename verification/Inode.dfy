/** In-memory inodes over a volume: creation, extension, reading, writing and deallocation. */
module Inode {
  import opened Sectors
  import opened FreeMap
  import opened IndexTree
  import opened FileBytes
  import opened Space
  import opened Cleanup
  import opened Options

  const INVALID_SECTOR: nat := 0xFFFF_FFFF

  /** byte_to_sector. */
  function ByteToSector(store: Store, d: InodeDisk, pos: nat): nat {
    if pos >= d.length then INVALID_SECTOR else Lookup(store, d, pos / SECTOR_SIZE)
  }

  /** Two bytes share a sector only if they are in the same block; the sector is allocated, not reserved, and
      not one of the file's index sectors. */
  lemma SectorsDistinct(t: Tree, p: nat, q: nat)
    requires Backed(t) && p < t.d.length && q < t.d.length
    ensures ByteToSector(t.store, t.d, p) == ByteToSector(t.store, t.d, q) <==> p / SECTOR_SIZE == q / SECTOR_SIZE
    ensures var s := ByteToSector(t.store, t.d, p); Ours(t, s) && s !in IndexSectors(t)
  {
    LookupFinds(t, p / SECTOR_SIZE);
    LookupFinds(t, q / SECTOR_SIZE);
    assert t.blocks[p / SECTOR_SIZE] in t.blocks;
  }

  /** Exactly the bytes before the end of the file have a sector. */
  lemma SectorInside(t: Tree, p: nat)
    requires Backed(t) && INVALID_SECTOR !in t.used
    ensures Ours(t, ByteToSector(t.store, t.d, p)) <==> p < t.d.length
  {
    if p < t.d.length { SectorsDistinct(t, p, p); }
  }

  /** Operations on a file never move a block it already has. */
  lemma SectorsStay(t0: Tree, t: Tree, p: nat)
    requires Backed(t0) && Backed(t) && Keeps(t0, t) && p < t0.d.length <= t.d.length
    ensures ByteToSector(t.store, t.d, p) == ByteToSector(t0.store, t0.d, p)
  {
    LookupFinds(t0, p / SECTOR_SIZE);
    LookupFinds(t, p / SECTOR_SIZE);
  }

  /** The free map and the sectors, as the buffer cache shows them. */
  class Volume {
    const freeMap: Bitmap
    const mapWritable: bool      // whether the free map can be written back to its file
    var store: Store

    constructor (m: Bitmap, s: Store, writable: bool)
      ensures freeMap == m && store == s && mapWritable == writable
    {
      freeMap, store, mapWritable := m, s, writable;
    }

    /** No sector can be allocated. */
    ghost predicate Exhausted()
      reads freeMap, freeMap.bits
    {
      mapWritable ==> forall i: nat :: i < freeMap.bits.Length ==> i in freeMap.Used()
    }

    /** Allocation is by way of a map that can be written, or there was none since `used`. */
    ghost predicate Untouched(used: set<nat>)
      reads freeMap, freeMap.bits
    {
      mapWritable || freeMap.Used() == used
    }

    method AllocateZeroed() returns (ok: bool, s: nat)
      modifies `store, freeMap.bits
      ensures Untouched(old(freeMap.Used()))
      ensures ok ==> s !in old(freeMap.Used()) && freeMap.Used() == old(freeMap.Used()) + {s} && store == old(store)[s := Data(Zeros())]
      ensures !ok ==> freeMap.Used() == old(freeMap.Used()) && store == old(store) && Exhausted()
    {
      ok, s := freeMap.AllocateOne(mapWritable);
      if ok { store := store[s := Data(Zeros())]; }
    }

    method Allocate() returns (ok: bool, s: nat)
      modifies freeMap.bits
      ensures Untouched(old(freeMap.Used()))
      ensures ok ==> s !in old(freeMap.Used()) && freeMap.Used() == old(freeMap.Used()) + {s}
      ensures !ok ==> freeMap.Used() == old(freeMap.Used()) && Exhausted()
    {
      ok, s := freeMap.AllocateOne(mapWritable);
    }
  }

  class File {
    const vol: Volume
    const sector: nat
    var data: InodeDisk
    var denyWrites: nat
    /** The data sectors and second-level index sectors that `data` leads to. */
    ghost var blocks: seq<nat>
    ghost var inds: seq<nat>

    ghost function T(): Tree
      reads this, vol, vol.freeMap, vol.freeMap.bits
    {
      Tree(vol.store, vol.freeMap.Used(), sector, data, blocks, inds)
    }

    constructor (v: Volume, s: nat)
      ensures vol == v && sector == s && denyWrites == 0 && blocks == [] && inds == []
      ensures data == InodeDisk(Window([], 0, DIRECT), 0, 0, 0)
    {
      vol, sector, denyWrites, blocks, inds := v, s, 0, [], [];
      data := InodeDisk(Window([], 0, DIRECT), 0, 0, 0);
    }

    /** The direct pointers. */
    method FillDirect(ghost t0: Tree, have: nat, want: nat) returns (ok: bool, count: nat)
      requires Separate(t0) && Grown(t0, T()) && Rep(T()) && have == |blocks|
      modifies `data, `blocks, vol`store, vol.freeMap.bits
      ensures vol.Untouched(old(vol.freeMap.Used()))
      ensures Grown(t0, T()) && Rep(T()) && count == |blocks|
      ensures ok ==> count == if have < DIRECT && have < want then (if want < DIRECT then want else DIRECT) else have
      ensures !ok ==> vol.Exhausted() && Stuck(T(), want)
    {
      ok, count := true, have;
      while count < DIRECT && count < want
        invariant vol.Untouched(old(vol.freeMap.Used()))
        invariant Grown(t0, T()) && Rep(T()) && ok && have <= count == |blocks|
        invariant count > have ==> count <= want && count <= DIRECT
      {
        ghost var t := T();
        var s;
        ok, s := vol.AllocateZeroed();
        if !ok {
          StuckRep(T(), want);
          return;
        }
        data := data.(direct := data.direct[count := s]);
        blocks := blocks + [s];
        DirectAdd(t0, t, s);
        assert T() == SetDirect(PutData(t, s), |t.blocks|, s);
        count := count + 1;
      }
    }

    /** The content of the indirect block, which is allocated if the file has none. */
    method OpenSingle(ghost t0: Tree) returns (ok: bool, buf: seq<nat>)
      requires Separate(t0) && Grown(t0, T()) && Rep(T()) && |blocks| >= DIRECT
      modifies `data, vol.freeMap.bits
      ensures vol.Untouched(old(vol.freeMap.Used()))
      ensures Grown(t0, T()) && blocks == old(blocks) && (!ok ==> vol.Exhausted() && T() == old(T()) && data.indirect == 0)
      ensures ok && |blocks| <= SINGLE_END ==> MidSingle(T(), buf)
      ensures ok && |blocks| > SINGLE_END ==> T() == old(T()) && Holds(T(), data.indirect, buf)
    {
      ok, buf := true, Window([], 0, PTRS);
      if data.indirect == 0 {
        ghost var t := T();
        var x;
        ok, x := vol.Allocate();
        if !ok { return; }
        data := data.(indirect := x);
        SingleNew(t0, t, x);
        assert T() == TakeIndirect(t, x);
      } else {
        buf := vol.store[data.indirect].ptrs;
      }
    }

    /** One more data block, recorded in the copy `buf` of the indirect block. */
    method AddSingle(ghost t0: Tree, buf: seq<nat>, count: nat) returns (ok: bool, buf': seq<nat>)
      requires Separate(t0) && Grown(t0, T()) && MidSingle(T(), buf) && count == |blocks| < SINGLE_END
      modifies `blocks, vol`store, vol.freeMap.bits
      ensures vol.Untouched(old(vol.freeMap.Used()))
      ensures Grown(t0, T()) && (!ok ==> vol.Exhausted() && T() == old(T()))
      ensures ok ==> MidSingle(T(), buf') && |blocks| == count + 1
    {
      ghost var t := T();
      var s;
      ok, s := vol.AllocateZeroed();
      buf' := buf;
      if ok {
        SingleAdd(t0, t, buf, s);
        buf' := buf[count - DIRECT := s];
        blocks := blocks + [s];
        assert T() == PutData(t, s);
      }
    }

    method CloseSingle(ghost t0: Tree, buf: seq<nat>)
      requires Separate(t0) && Grown(t0, T())
      requires (MidSingle(T(), buf) && |blocks| > DIRECT) || (Rep(T()) && Holds(T(), data.indirect, buf) && |blocks| > SINGLE_END)
      modifies vol`store
      ensures Grown(t0, T()) && Rep(T())
    {
      ghost var t := T();
      vol.store := vol.store[data.indirect := Pointers(buf)];
      if |blocks| > SINGLE_END {
        assert T() == t;
      } else {
        SingleEnd(t0, t, buf);
        assert T() == WriteIndex(t, t.d.indirect, buf);
      }
    }

    /** The indirect block and the data blocks it leads to. */
    method FillSingle(ghost t0: Tree, have: nat, want: nat) returns (ok: bool, count: nat)
      requires Separate(t0) && Grown(t0, T()) && Rep(T()) && DIRECT <= have == |blocks| < want
      modifies `data, `blocks, vol`store, vol.freeMap.bits
      ensures vol.Untouched(old(vol.freeMap.Used()))
      ensures Grown(t0, T()) && count == |blocks| && (!ok ==> vol.Exhausted() && Stuck(T(), want))
      ensures ok ==> Rep(T())
      ensures ok ==> count == if have < SINGLE_END then (if want < SINGLE_END then want else SINGLE_END) else have
    {
      count := have;
      var buf;
      ok, buf := OpenSingle(t0);
      if !ok {
        StuckRep(T(), want);
        return;
      }
      while count - DIRECT < PTRS && count < want
        invariant vol.Untouched(old(vol.freeMap.Used()))
        invariant Grown(t0, T()) && have <= count == |blocks|
        invariant have > SINGLE_END ==> T() == old(T()) && Holds(T(), data.indirect, buf)
        invariant have <= SINGLE_END ==> MidSingle(T(), buf) && count <= want
      {
        if buf[count - DIRECT] == 0 {
          ghost var before := buf;
          ok, buf := AddSingle(t0, buf, count);
          if !ok {
            StuckSingle(T(), before, want);
            return;
          }
        }
        count := count + 1;
      }
      CloseSingle(t0, buf);
    }

    /** The content of the doubly indirect block, which is allocated if the file has none. */
    method OpenDoubly(ghost t0: Tree) returns (ok: bool, dbl: seq<nat>)
      requires Separate(t0) && Grown(t0, T()) && Rep(T()) && |blocks| >= SINGLE_END
      modifies `data, vol.freeMap.bits
      ensures vol.Untouched(old(vol.freeMap.Used()))
      ensures Grown(t0, T()) && blocks == old(blocks) && (!ok ==> vol.Exhausted() && T() == old(T()) && data.doubly == 0)
      ensures ok ==> MidDoubly(T(), dbl)
    {
      ok, dbl := true, Window([], 0, PTRS);
      if data.doubly == 0 {
        ghost var t := T();
        var x;
        ok, x := vol.Allocate();
        if !ok { return; }
        data := data.(doubly := x);
        DoublyNew(t0, t, x);
        assert T() == TakeDoubly(t, x);
      } else {
        dbl := vol.store[data.doubly].ptrs;
      }
    }

    /** The content of second-level block `k`, which is allocated if there is none. */
    method OpenLeaf(ghost t0: Tree, dbl: seq<nat>, k: nat) returns (ok: bool, dbl': seq<nat>, ind: seq<nat>)
      requires Separate(t0) && Grown(t0, T()) && MidDoubly(T(), dbl) && |blocks| < MAX_BLOCKS && k == LeafOf(|blocks|)
      modifies `inds, vol.freeMap.bits
      ensures vol.Untouched(old(vol.freeMap.Used()))
      ensures Grown(t0, T()) && (!ok ==> vol.Exhausted() && T() == old(T()))
      ensures ok ==> MidLeaf(T(), dbl', k, ind)
    {
      ghost var t := T();
      ok, dbl', ind := true, dbl, Window([], 0, PTRS);
      if (|blocks| - SINGLE_END) % PTRS != 0 { LeafOld(t, dbl); }
      if dbl[k] == 0 {
        var y;
        ok, y := vol.Allocate();
        if !ok { return; }
        LeafNew(t0, t, dbl, y);
        dbl' := dbl[k := y];
        inds := inds + [y];
        assert T() == TakeInd(t, y);
      } else {
        ind := vol.store[dbl[k]].ptrs;
      }
    }

    method AddLeaf(ghost t0: Tree, dbl: seq<nat>, k: nat, ind: seq<nat>, j: nat) returns (ok: bool, ind': seq<nat>)
      requires Separate(t0) && Grown(t0, T()) && MidLeaf(T(), dbl, k, ind) && j < PTRS && |blocks| == SINGLE_END + PTRS * k + j
      modifies `blocks, vol`store, vol.freeMap.bits
      ensures vol.Untouched(old(vol.freeMap.Used()))
      ensures Grown(t0, T()) && (!ok ==> vol.Exhausted() && T() == old(T()))
      ensures ok ==> MidLeaf(T(), dbl, k, ind') && |blocks| == old(|blocks|) + 1
    {
      ghost var t := T();
      var s;
      ok, s := vol.AllocateZeroed();
      ind' := ind;
      if ok {
        LeafAdd(t0, t, dbl, k, ind, s);
        ind' := ind[j := s];
        blocks := blocks + [s];
        assert T() == PutData(t, s);
      }
    }

    method CloseLeaf(ghost t0: Tree, dbl: seq<nat>, k: nat, ind: seq<nat>)
      requires Separate(t0) && Grown(t0, T()) && MidLeaf(T(), dbl, k, ind) && |blocks| > SINGLE_END + PTRS * k
      modifies vol`store
      ensures Grown(t0, T()) && MidDoubly(T(), dbl)
    {
      ghost var t := T();
      LeafEnd(t0, t, dbl, k, ind);
      vol.store := vol.store[dbl[k] := Pointers(ind)];
      assert T() == WriteIndex(t, dbl[k], ind);
    }

    /** Second-level block `k` and the data blocks it leads to, from its entry `from`. */
    method FillLeaf(ghost t0: Tree, dbl: seq<nat>, k: nat, from: nat, want: nat)
      returns (ok: bool, dbl': seq<nat>, count: nat)
      requires Separate(t0) && Grown(t0, T()) && MidDoubly(T(), dbl) && k < PTRS && from < PTRS
      requires |blocks| == SINGLE_END + PTRS * k + from < want
      modifies `blocks, `inds, vol`store, vol.freeMap.bits
      ensures vol.Untouched(old(vol.freeMap.Used()))
      ensures Grown(t0, T()) && count == |blocks| && (!ok ==> vol.Exhausted() && Stuck(T(), want))
      ensures ok ==> MidDoubly(T(), dbl')
      ensures ok ==> count == if want < SINGLE_END + PTRS * (k + 1) then want else SINGLE_END + PTRS * (k + 1)
    {
      count := SINGLE_END + PTRS * k + from;
      var ind;
      ok, dbl', ind := OpenLeaf(t0, dbl, k);
      if !ok {
        StuckDoubly(T(), dbl, want);
        return;
      }
      var j := from;
      while j < PTRS && count < want
        invariant vol.Untouched(old(vol.freeMap.Used()))
        invariant Grown(t0, T()) && MidLeaf(T(), dbl', k, ind)
        invariant from <= j <= PTRS && count == |blocks| == SINGLE_END + PTRS * k + j <= want
      {
        if ind[j] == 0 {
          ghost var before := ind;
          ok, ind := AddLeaf(t0, dbl', k, ind, j);
          if !ok {
            StuckLeaf(T(), dbl', k, before, want);
            return;
          }
        }
        j, count := j + 1, count + 1;
      }
      CloseLeaf(t0, dbl', k, ind);
    }

    method CloseDoubly(ghost t0: Tree, dbl: seq<nat>)
      requires Separate(t0) && Grown(t0, T()) && MidDoubly(T(), dbl) && |blocks| > SINGLE_END
      modifies vol`store
      ensures Grown(t0, T()) && Rep(T())
    {
      ghost var t := T();
      DoublyEnd(t0, t, dbl);
      vol.store := vol.store[data.doubly := Pointers(dbl)];
      assert T() == WriteIndex(t, t.d.doubly, dbl);
    }

    /** The second-level blocks from the one that block number |blocks| belongs to. */
    method FillLeaves(ghost t0: Tree, dbl: seq<nat>, have: nat, want: nat) returns (ok: bool, dbl': seq<nat>, count: nat)
      requires Separate(t0) && Grown(t0, T()) && MidDoubly(T(), dbl) && SINGLE_END <= have == |blocks| < want
      modifies `blocks, `inds, vol`store, vol.freeMap.bits
      ensures vol.Untouched(old(vol.freeMap.Used()))
      ensures Grown(t0, T()) && count == |blocks| && (!ok ==> vol.Exhausted() && Stuck(T(), want))
      ensures ok ==> MidDoubly(T(), dbl') && count == Cap(want)
    {
      ok, dbl', count := true, dbl, have;
      var k: nat, from: nat := (have - SINGLE_END) / PTRS, (have - SINGLE_END) % PTRS;
      while count < want && k < PTRS
        invariant ok && vol.Untouched(old(vol.freeMap.Used()))
        invariant Grown(t0, T()) && MidDoubly(T(), dbl') && have <= count == |blocks| <= want
        invariant from < PTRS && (count < want ==> count == SINGLE_END + PTRS * k + from)
      {
        ok, dbl', count := FillLeaf(t0, dbl', k, from, want);
        if !ok { return; }
        k, from := k + 1, 0;
      }
    }

    /** The doubly indirect block and everything below it. */
    method FillDoubly(ghost t0: Tree, have: nat, want: nat) returns (ok: bool, count: nat)
      requires Separate(t0) && Grown(t0, T()) && Rep(T()) && SINGLE_END <= have == |blocks| < want
      modifies `data, `blocks, `inds, vol`store, vol.freeMap.bits
      ensures vol.Untouched(old(vol.freeMap.Used()))
      ensures Grown(t0, T()) && count == |blocks| && (!ok ==> vol.Exhausted() && Stuck(T(), want))
      ensures ok ==> Rep(T()) && count == Cap(want)
    {
      count := have;
      var dbl;
      ok, dbl := OpenDoubly(t0);
      if !ok {
        StuckRep(T(), want);
        return;
      }
      ok, dbl, count := FillLeaves(t0, dbl, have, want);
      if ok { CloseDoubly(t0, dbl); }
    }

    /** The two indirect levels, as far as the index can reach. */
    method FillIndexed(ghost t0: Tree, have: nat, want: nat) returns (ok: bool)
      requires Separate(t0) && Grown(t0, T()) && Rep(T()) && have == |blocks| <= want && (have < want ==> DIRECT <= have)
      modifies `data, `blocks, `inds, vol`store, vol.freeMap.bits
      ensures vol.Untouched(old(vol.freeMap.Used()))
      ensures Grown(t0, T()) && (!ok ==> vol.Exhausted() && have < want && Stuck(T(), want))
      ensures ok ==> Rep(T()) && |blocks| == if have == want then want else Cap(want)
    {
      ok := true;
      var count := have;
      if count < want {
        ok, count := FillSingle(t0, count, want);
        if ok && count < want {
          ok, count := FillDoubly(t0, count, want);
        }
      }
    }

    ghost predicate OnDisk()
      reads this, vol
    {
      sector in vol.store && vol.store[sector] == Node(data)
    }

    /** Set the length and write the inode to its sector. */
    method SetLength(ghost t0: Tree, newLength: nat)
      requires Backed(t0) && Grown(t0, T()) && Rep(T()) && newLength >= t0.d.length
      modifies `data, vol`store
      ensures Rep(T()) && OnDisk() && data.length == newLength && ZeroTail(T())
      ensures blocks == old(blocks) && Keeps(t0, T())
      ensures Contents(T()) == Padded(Contents(t0), newLength)
    {
      ghost var t := T();
      GrownContents(t0, t, newLength);
      LengthRep(t, newLength);
      GrownKeeps(t0, t);
      data := data.(length := newLength);
      StoreFrame(WithLength(t, newLength), sector, Node(data));
      SaveKeeps(t0, t, newLength, Node(data));
      vol.store := vol.store[sector := Node(data)];
      assert T() == WithLength(t, newLength).(store := t.store[sector := Node(data)]);
    }

    /** Whether the free sectors let a file of `have` bytes grow to `want`. */
    ghost predicate Room(have: nat, want: nat)
      reads vol, vol.freeMap, vol.freeMap.bits
    {
      Enough(vol.freeMap.Free(), vol.mapWritable, BlocksFor(have), BlocksFor(want))
    }

    /** The blocks a longer file needs. It succeeds exactly when there is room. */
    method Grow(ghost t0: Tree, have: nat, want: nat) returns (ok: bool)
      requires Rep(T()) && Separate(t0) && t0 == T() && have == |blocks| <= want
      modifies `data, `blocks, `inds, vol`store, vol.freeMap.bits
      ensures Grown(t0, T()) && (ok ==> Rep(T()) && |blocks| == if have == want then want else Cap(want))
      ensures !ok ==> vol.Exhausted() && Partial(T())
      ensures ok <==> old(Enough(vol.freeMap.Free(), vol.mapWritable, have, want))
    {
      GrownRefl(t0);
      ghost var free := vol.freeMap.Free();
      assert forall i: nat :: i in free <==> i < vol.freeMap.bits.Length && i !in t0.used;
      var count;
      ok, count := FillDirect(t0, have, want);
      if ok { ok := FillIndexed(t0, count, want); }
      if ok {
        GrewEnough(t0, T(), free, vol.mapWritable, want);
      } else {
        StuckShort(t0, T(), free, vol.mapWritable, want);
      }
    }

    /** inode_extend. It fails exactly when the free sectors do not cover the data and index sectors still missing. */
    method Extend(newLength: nat) returns (ok: bool)
      requires Backed(T()) && newLength > data.length
      modifies `data, `blocks, `inds, vol`store, vol.freeMap.bits
      ensures Keeps(old(T()), T())
      ensures ok <==> old(Room(data.length, newLength))
      ensures !ok ==> vol.Exhausted() && data.length == old(data.length) && Contents(T()) == old(Contents(T()))
      ensures ok ==> OnDisk() && data.length == newLength
      ensures ok ==> (Backed(T()) <==> BlocksFor(newLength) <= MAX_BLOCKS)
      ensures ok && BlocksFor(newLength) <= MAX_BLOCKS ==> Contents(T()) == Padded(old(Contents(T())), newLength)
    {
      ghost var t0 := T();
      GrownRefl(t0);
      assert BlocksFor(data.length) <= BlocksFor(newLength);
      ok := true;
      if BlocksFor(newLength) != BlocksFor(data.length) {
        ok := Grow(t0, BlocksFor(data.length), BlocksFor(newLength));
        if !ok {
          GrownKeeps(t0, T());
          GrownSame(t0, T());
          return;
        }
      }
      SetLength(t0, newLength);
    }

    /** One turn of the read loop: the sector of `at`, at most `left` bytes. */
    method ReadChunk(at: nat, left: nat) returns (piece: seq<byte>)
      requires Backed(T())
      ensures PieceOf(Contents(T()), at, left, piece)
    {
      var s := ByteToSector(vol.store, data, at);
      var ofs := at % SECTOR_SIZE;
      var inodeLeft, sectorLeft := data.length - at, SECTOR_SIZE - ofs;
      var minLeft := if inodeLeft < sectorLeft then inodeLeft else sectorLeft;
      var chunk := if left < minLeft then left else minLeft;
      piece := [];
      if chunk > 0 {
        ChunkIs(T(), at, chunk);
        piece := vol.store[s].bytes[ofs..ofs + chunk];
      }
    }

    /** inode_read_at. */
    method ReadAt(size: nat, offset: nat) returns (buffer: seq<byte>)
      requires Backed(T())
      ensures buffer == Clipped(Contents(T()), offset, size)
    {
      buffer := [];
      ghost var c := Contents(T());
      while |buffer| < size
        invariant ReadSoFar(c, offset, size, buffer)
      {
        var piece := ReadChunk(offset + |buffer|, size - |buffer|);
        ReadStep(c, offset, size, buffer, piece);
        if piece == [] { return; }
        buffer := buffer + piece;
      }
      ReadDone(c, offset, size, buffer);
    }

    /** One turn of the write loop: the sector of `at`, as much of `b` as fits. */
    method WriteChunk(at: nat, b: seq<byte>) returns (n: nat)
      requires Backed(T())
      modifies vol`store
      ensures n == Chunk(data.length, at, |b|) && Backed(T()) && Keeps(old(T()), T())
      ensures n > 0 ==> at + n <= data.length && Contents(T()) == Splice(old(Contents(T())), at, b[..n])
      ensures SameAt(old(vol.store), vol.store, sector)
    {
      ghost var t := T();
      var s := ByteToSector(vol.store, data, at);
      var ofs := at % SECTOR_SIZE;
      n := Chunk(data.length, at, |b|);
      if n > 0 {
        ChunkWrite(t, at, b[..n]);
        vol.store := vol.store[s := Data(Splice(vol.store[s].bytes, ofs, b[..n]))];
        assert T() == t.(store := vol.store);
      }
    }

    /** The write loop has moved `n` bytes of `b` since the file was `t0`. */
    ghost predicate Writing(t0: Tree, offset: nat, b: seq<byte>, n: nat)
      reads this, vol, vol.freeMap, vol.freeMap.bits
    {
      && Backed(T()) && Keeps(t0, T()) && SameAt(t0.store, vol.store, sector)
      && WroteSoFar(Contents(t0), offset, b, n, Contents(T()))
    }

    method WriteTurn(ghost t0: Tree, b: seq<byte>, offset: nat, n: nat) returns (n': nat)
      requires Separate(t0) && t0.self == sector && Writing(t0, offset, b, n) && n < |b|
      modifies vol`store
      ensures n < n' <= |b| && Writing(t0, offset, b, n')
    {
      ghost var t := T();
      var k := WriteChunk(offset + n, b[n..]);
      TurnKeeps(t0, t, T(), offset, b, n, k);
      n' := n + k;
    }

    /** The write loop, inside the file's length. */
    method WriteLoop(b: seq<byte>, offset: nat) returns (n: nat)
      requires Backed(T()) && offset + |b| <= data.length
      modifies vol`store
      ensures n == |b| && Backed(T()) && Keeps(old(T()), T()) && SameAt(old(vol.store), vol.store, sector)
      ensures Contents(T()) == Splice(old(Contents(T())), offset, b)
    {
      ghost var t0 := T();
      n := 0;
      WriteStarts(Contents(t0), offset, b, Contents(t0));
      while n < |b|
        invariant Writing(t0, offset, b, n)
      {
        n := WriteTurn(t0, b, offset, n);
      }
      assert b[..n] == b;
    }

    /** The extension that comes before a write up to byte `end`, if it needs one. */
    method MakeRoom(end: nat) returns (ok: bool)
      requires Backed(T())
      modifies `data, `blocks, `inds, vol`store, vol.freeMap.bits
      ensures Keeps(old(T()), T())
      ensures ok <==> old(end <= data.length || Room(data.length, end))
      ensures !ok ==> vol.Exhausted() && data.length == old(data.length) && Contents(T()) == old(Contents(T()))
      ensures ok && BlocksFor(end) <= MAX_BLOCKS ==> Backed(T()) && end <= data.length && (old(OnDisk()) ==> OnDisk())
      ensures ok && BlocksFor(end) <= MAX_BLOCKS ==>
        Contents(T()) == if end <= old(data.length) then old(Contents(T())) else Padded(old(Contents(T())), end)
      ensures ok && BlocksFor(end) > MAX_BLOCKS ==> !Backed(T()) && OnDisk() && data.length == end
    {
      ok := true;
      if end > data.length {
        ok := Extend(end);
      } else {
        assert BlocksFor(end) <= BlocksFor(data.length);
      }
    }

    /** inode_write_at, without the log. `fault` tells that the write loop reads a pointer past the end of the doubly
        indirect block, which it does on the way to a byte past the largest file. */
    method WriteAt(b: seq<byte>, offset: nat) returns (n: nat, fault: bool)
      requires Backed(T())
      modifies `data, `blocks, `inds, vol`store, vol.freeMap.bits
      ensures Keeps(old(T()), T())
      ensures denyWrites > 0 ==> n == 0 && !fault && T() == old(T())
      ensures denyWrites == 0 ==>
        if !old(offset + |b| <= data.length || Room(data.length, offset + |b|)) then
          n == 0 && !fault && vol.Exhausted() && data.length == old(data.length) && Contents(T()) == old(Contents(T()))
        else if BlocksFor(offset + |b|) <= MAX_BLOCKS then
          n == |b| && !fault && Backed(T()) && Contents(T()) == Written(old(Contents(T())), offset, b) && (old(OnDisk()) ==> OnDisk())
        else
          n == 0 && fault == (b != []) && !Backed(T()) && OnDisk() && data.length == offset + |b|
    {
      ghost var t0 := T();
      fault := false;
      if denyWrites > 0 { return 0, false; }
      var ok := MakeRoom(offset + |b|);
      if !ok { return 0, false; }
      if BlocksFor(offset + |b|) > MAX_BLOCKS { return 0, b != []; }
      ghost var t := T();
      WriteStarts(Contents(t0), offset, b, Contents(t));
      n := WriteLoop(b, offset);
      KeepsTrans(t0, t, T());
    }

    /** The releases of `xs` from the map `u0` have led here, or have failed an assertion. */
    ghost predicate HasReleased(u0: set<nat>, xs: seq<nat>, ok: bool)
      reads vol, vol.freeMap, vol.freeMap.bits
    {
      ReleaseRun(u0, xs) == if ok then Some(vol.freeMap.Used()) else None
    }

    /** free_map_release of one sector, with its assertion. */
    method ReleaseOne(x: nat, ghost u0: set<nat>, ghost xs: seq<nat>) returns (ok: bool)
      requires HasReleased(u0, xs, true)
      modifies vol.freeMap.bits
      ensures HasReleased(u0, xs + [x], ok)
    {
      ghost var u := vol.freeMap.Used();
      RunNext(u0, xs, x);
      ok := vol.freeMap.IsAllocated(x);
      if ok {
        vol.freeMap.Release(x, 1);
        assert vol.freeMap.Used() == u - {x};
      }
    }

    /** The non-zero words of one table. */
    method ReleaseWords(ws: seq<nat>, ghost u0: set<nat>, ghost xs: seq<nat>) returns (ok: bool)
      requires HasReleased(u0, xs, true)
      modifies vol.freeMap.bits
      ensures HasReleased(u0, xs + NonZero(ws), ok)
    {
      ok := true;
      assert ws[..0] == [] && xs + [] == xs;
      for i := 0 to |ws|
        invariant ok && HasReleased(u0, xs + NonZero(ws[..i]), true)
      {
        WordsNext(ws, i, xs);
        if ws[i] != 0 {
          ok := ReleaseOne(ws[i], u0, xs + NonZero(ws[..i]));
          if !ok {
            WordsFail(ws, i + 1, u0, xs);
            return;
          }
        }
      }
      assert ws[..|ws|] == ws;
    }

    /** An index sector and the words it holds. */
    method ReleaseTable(x: nat, words: Block -> seq<nat>, ghost u0: set<nat>, ghost xs: seq<nat>) returns (ok: bool)
      requires HasReleased(u0, xs, true)
      modifies vol.freeMap.bits
      ensures HasReleased(u0, xs + SingleReleases(vol.store, x, words), ok)
    {
      ok := true;
      if x == 0 {
        assert xs + [] == xs;
        return;
      }
      var ws := WordsAt(vol.store, x, words);
      ok := ReleaseWords(ws, u0, xs);
      assert xs + SingleReleases(vol.store, x, words) == xs + NonZero(ws) + [x];
      if ok {
        ok := ReleaseOne(x, u0, xs + NonZero(ws));
      } else {
        RunFails(u0, xs + NonZero(ws), [x]);
      }
    }

    /** The second-level sectors and what they hold. */
    method ReleaseLeaves(dbl: seq<nat>, words: Block -> seq<nat>, ghost u0: set<nat>, ghost xs: seq<nat>) returns (ok: bool)
      requires HasReleased(u0, xs, true)
      modifies vol.freeMap.bits
      ensures HasReleased(u0, xs + LeafReleases(vol.store, dbl, words), ok)
    {
      ok := true;
      assert dbl[..0] == [] && xs + [] == xs;
      for k := 0 to |dbl|
        invariant ok && HasReleased(u0, xs + LeafReleases(vol.store, dbl[..k], words), true)
      {
        LeavesNext(vol.store, dbl, k, words, xs);
        ok := ReleaseTable(dbl[k], words, u0, xs + LeafReleases(vol.store, dbl[..k], words));
        if !ok {
          LeavesFail(vol.store, dbl, k + 1, words, u0, xs);
          return;
        }
      }
      assert dbl[..|dbl|] == dbl;
    }

    method ReleaseDoubly(x: nat, words: Block -> seq<nat>, ghost u0: set<nat>, ghost xs: seq<nat>) returns (ok: bool)
      requires HasReleased(u0, xs, true)
      modifies vol.freeMap.bits
      ensures HasReleased(u0, xs + DoublyReleases(vol.store, x, words), ok)
    {
      ok := true;
      if x == 0 {
        assert xs + [] == xs;
        return;
      }
      var dbl := WordsAt(vol.store, x, words);
      ghost var ys := LeafReleases(vol.store, dbl, words);
      ok := ReleaseLeaves(dbl, words, u0, xs);
      assert xs + DoublyReleases(vol.store, x, words) == xs + ys + [x];
      if ok {
        ok := ReleaseOne(x, u0, xs + ys);
      } else {
        RunFails(u0, xs + ys, [x]);
      }
    }

    /** inode_deallocate, for any inode: follows the words of its index sectors; `ok` is false where an assertion fails. */
    method Deallocate(words: Block -> seq<nat>) returns (ok: bool)
      modifies vol.freeMap.bits
      ensures HasReleased(old(vol.freeMap.Used()), Released(vol.store, data, words), ok)
    {
      ghost var u0 := vol.freeMap.Used();
      ghost var direct, single := NonZero(data.direct), SingleReleases(vol.store, data.indirect, words);
      ghost var doubly := DoublyReleases(vol.store, data.doubly, words);
      LevelsFail(u0, direct, single, doubly);
      ok := ReleaseWords(data.direct, u0, []);
      assert [] + direct == direct;
      if ok { ok := ReleaseTable(data.indirect, words, u0, direct); }
      if ok { ok := ReleaseDoubly(data.doubly, words, u0, direct + single); }
    }

    /** Of a complete file every sector is released, each once and while allocated, and no other. */
    method Dispose(ghost t: Tree, words: Block -> seq<nat>)
      requires Rep(t) && t.store == vol.store && t.d == data && Owned(t) <= vol.freeMap.Used() && Reads(words)
      modifies vol.freeMap.bits
      ensures vol.freeMap.Used() == old(vol.freeMap.Used()) - Owned(t)
    {
      CompleteReleases(t, words);
      RunNames(vol.freeMap.Used(), Released(vol.store, data, words), Owned(t));
      var ok := Deallocate(words);
    }

    /** inode_close on the last reference to a removed inode without links. */
    method Reclaim(words: Block -> seq<nat>)
      requires Rep(T()) && Reads(words)
      modifies vol.freeMap.bits
      ensures vol.freeMap.Used() == old(vol.freeMap.Used()) - Owned(old(T())) - {sector}
    {
      ghost var t := T();
      OwnedAreUsed(t);
      SelfNotOwned(t);
      vol.freeMap.Release(sector, 1);
      Dispose(t, words);
    }

    /** The cleanup of a creation that could not allocate. */
    method CleanUp(ghost t0: Tree, words: Block -> seq<nat>) returns (ok: bool)
      requires Separate(t0) && Owned(t0) == {} && Grown(t0, T()) && Partial(T())
      modifies vol.freeMap.bits
      ensures var xs := Released(vol.store, data, words);
        && HasReleased(t0.used + Owned(old(T())), xs, ok)
        && (ok && vol.freeMap.Used() == t0.used <==> Names(xs, Owned(old(T()))))
      ensures data.indirect == 0 ==> ok && vol.freeMap.Used() == t0.used
    {
      ghost var t := T();
      TakenApart(t0, t);
      CleanupExact(t0.used, Owned(t), Released(vol.store, data, words));
      if data.indirect == 0 { DirectReleases(t, words); }
      ok := Deallocate(words);
    }

    /** inode_create_internal, for an inode whose sector the caller has allocated. A creation that cannot allocate
        follows the words of index sectors it may not have written: it gives back exactly what it has taken if and only
        if those words name just that, and that is so when it fails before it has an indirect block. `panic` tells
        that a release failed its assertion. */
    method Create(length: nat, words: Block -> seq<nat>) returns (ok: bool, panic: bool)
      requires data == InodeDisk(Window([], 0, DIRECT), 0, 0, 0) && blocks == [] && inds == []
      requires sector in vol.freeMap.Used() && forall s :: Reserved(s) ==> s in vol.freeMap.Used()
      modifies `data, `blocks, `inds, vol`store, vol.freeMap.bits
      ensures ok <==> old(Room(0, length))
      ensures ok ==> !panic && Keeps(old(T()), T()) && OnDisk() && data.length == length
      ensures ok ==> (Backed(T()) <==> BlocksFor(length) <= MAX_BLOCKS)
      ensures ok && BlocksFor(length) <= MAX_BLOCKS ==> Contents(T()) == Padded([], length)
      ensures !ok ==> var xs := Released(vol.store, data, words);
        && HasReleased(old(vol.freeMap.Used()) + Owned(T()), xs, !panic)
        && (!panic && vol.freeMap.Used() == old(vol.freeMap.Used()) <==> Names(xs, Owned(T())))
      ensures !ok && data.indirect == 0 ==> !panic && vol.freeMap.Used() == old(vol.freeMap.Used())
      ensures !ok && vol.mapWritable ==> forall i :: 0 <= i < vol.freeMap.bits.Length ==> i in old(vol.freeMap.Used()) + Owned(T())
    {
      ghost var t0 := T();
      EmptyBacked(t0);
      GrownRefl(t0);
      panic := false;
      ok := Grow(t0, 0, BlocksFor(length));
      if !ok {
        ghost var t := T();
        TakenApart(t0, t);
        var clean := CleanUp(t0, words);
        panic := !clean;
        assert Owned(T()) == Owned(t);
        return;
      }
      SetLength(t0, length);
    }
  }
}
