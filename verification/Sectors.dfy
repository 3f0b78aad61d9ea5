/** Sectors, disk images, and the byte patches that the log and the file system write to them. */
module Sectors {

  const SECTOR_SIZE: nat := 512

  newtype byte = x: int | 0 <= x < 256

  type SectorData = s: seq<byte> | |s| == SECTOR_SIZE witness seq(SECTOR_SIZE, i => 0)

  /** The contents of a device, one entry per sector. */
  type Image = map<nat, SectorData>

  /** `bytes` written at `offset` inside one sector. */
  datatype Patch = Patch(sector: nat, offset: nat, bytes: seq<byte>)

  /** The source never issues a patch that leaves its sector or the device. */
  predicate Fits(p: Patch, d: Image) {
    p.sector in d && p.offset + |p.bytes| <= SECTOR_SIZE
  }

  predicate Covers(p: Patch, s: nat, o: nat) {
    p.sector == s && p.offset <= o < p.offset + |p.bytes|
  }

  function Splice(s: seq<byte>, offset: nat, b: seq<byte>): (r: seq<byte>)
    requires offset + |b| <= |s|
    ensures |r| == |s|
    ensures forall i :: 0 <= i < |s| ==> r[i] == if offset <= i < offset + |b| then b[i - offset] else s[i]
  {
    s[..offset] + b + s[offset + |b|..]
  }

  /** Read-modify-write of one sector; a patch that does not fit is dropped. */
  function Put(d: Image, p: Patch): (r: Image)
    ensures r.Keys == d.Keys
    ensures forall s, o :: s in d && 0 <= o < SECTOR_SIZE ==>
      r[s][o] == if Fits(p, d) && Covers(p, s, o) then p.bytes[o - p.offset] else d[s][o]
  {
    if Fits(p, d) then d[p.sector := Splice(d[p.sector], p.offset, p.bytes)] else d
  }

  function PutAll(d: Image, ps: seq<Patch>): (r: Image)
    ensures r.Keys == d.Keys
  {
    if ps == [] then d else Put(PutAll(d, ps[..|ps| - 1]), ps[|ps| - 1])
  }

  /** The value byte (s, o) ends with when it starts as `v` and `ps` is written in order: the last
      patch that covers it decides. */
  function ByteAfter(ps: seq<Patch>, s: nat, o: nat, v: byte): byte {
    if ps == [] then v
    else
      var p := ps[|ps| - 1];
      if Covers(p, s, o) then p.bytes[o - p.offset] else ByteAfter(ps[..|ps| - 1], s, o, v)
  }

  lemma {:induction false} PutAllByte(d: Image, ps: seq<Patch>, s: nat, o: nat)
    requires forall p :: p in ps ==> Fits(p, d)
    requires s in d && o < SECTOR_SIZE
    ensures PutAll(d, ps)[s][o] == ByteAfter(ps, s, o, d[s][o])
  {
    if ps != [] {
      PutAllByte(d, ps[..|ps| - 1], s, o);
      assert ps[|ps| - 1] in ps;
    }
  }

  lemma {:induction false} PutAllAppend(d: Image, ps: seq<Patch>, qs: seq<Patch>)
    ensures PutAll(d, ps + qs) == PutAll(PutAll(d, ps), qs)
  {
    if qs == [] {
      assert ps + qs == ps;
    } else {
      var n := |qs| - 1;
      assert (ps + qs)[..|ps + qs| - 1] == ps + qs[..n];
      PutAllAppend(d, ps, qs[..n]);
    }
  }

  lemma {:induction false} ByteAfterAppend(ps: seq<Patch>, qs: seq<Patch>, s: nat, o: nat, v: byte)
    ensures ByteAfter(ps + qs, s, o, v) == ByteAfter(qs, s, o, ByteAfter(ps, s, o, v))
  {
    if qs == [] {
      assert ps + qs == ps;
    } else {
      var n := |qs| - 1;
      assert (ps + qs)[..|ps + qs| - 1] == ps + qs[..n];
      ByteAfterAppend(ps, qs[..n], s, o, v);
    }
  }

  /** A byte that some patch covers forgets its starting value; any other byte keeps it. */
  lemma {:induction false} ByteAfterCases(ps: seq<Patch>, s: nat, o: nat, v: byte, w: byte)
    ensures (exists p :: p in ps && Covers(p, s, o)) ==> ByteAfter(ps, s, o, v) == ByteAfter(ps, s, o, w)
    ensures !(exists p :: p in ps && Covers(p, s, o)) ==> ByteAfter(ps, s, o, v) == v
  {
    if ps != [] {
      var n := |ps| - 1;
      ByteAfterCases(ps[..n], s, o, v, w);
      assert ps == ps[..n] + [ps[n]];
    }
  }

  lemma SameBytes(a: Image, b: Image)
    requires a.Keys == b.Keys
    requires forall s, o :: s in a && 0 <= o < SECTOR_SIZE ==> a[s][o] == b[s][o]
    ensures a == b
  {
    forall s | s in a ensures a[s] == b[s] {
      assert |a[s]| == |b[s]| && forall o :: 0 <= o < SECTOR_SIZE ==> a[s][o] == b[s][o];
    }
  }

  /** Writing a prefix of `ps` and then all of `ps` again is the same as writing `ps` once. */
  lemma Replay(d: Image, ps: seq<Patch>, k: nat)
    requires k <= |ps|
    requires forall p :: p in ps ==> Fits(p, d)
    ensures PutAll(PutAll(d, ps[..k]), ps) == PutAll(d, ps)
  {
    var once, part := PutAll(d, ps), PutAll(d, ps[..k]);
    forall s, o | s in d && 0 <= o < SECTOR_SIZE
      ensures PutAll(part, ps)[s][o] == once[s][o]
    {
      PutAllByte(d, ps, s, o);
      PutAllByte(d, ps[..k], s, o);
      PutAllByte(part, ps, s, o);
      ByteAfterCases(ps, s, o, d[s][o], part[s][o]);
      ByteAfterCases(ps[..k], s, o, d[s][o], d[s][o]);
    }
    SameBytes(PutAll(part, ps), once);
  }
}
