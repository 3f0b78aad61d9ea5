/** The free map: one bit per sector, set while the sector is allocated. */
module FreeMap {

  const WAL_METADATA_SECTOR: nat := 66

  /** Free map inode (0), root directory (1), log (2..65) and log metadata (66). */
  predicate Reserved(sector: nat) { sector <= WAL_METADATA_SECTOR }

  /** `cnt` clear bits in a row from `start`. */
  predicate ClearRun(bits: seq<bool>, start: nat, cnt: nat) {
    start + cnt <= |bits| && forall i :: start <= i < start + cnt ==> !bits[i]
  }

  predicate InRun(i: int, start: nat, cnt: nat) { start <= i < start + cnt }

  class Bitmap {
    var bits: array<bool>

    ghost function Used(): set<nat>
      reads this, bits
    {
      set i | 0 <= i < bits.Length && bits[i]
    }

    ghost function Free(): set<nat>
      reads this, bits
    {
      set i | 0 <= i < bits.Length && !bits[i]
    }

    /** free_map_init. */
    constructor (sectors: nat)
      requires sectors > WAL_METADATA_SECTOR
      ensures fresh(bits) && bits.Length == sectors
      ensures forall s :: s in Used() <==> Reserved(s)
    {
      bits := new bool[sectors](i => false);
      new;
      bits[0], bits[1] := true, true;
      for s := 2 to WAL_METADATA_SECTOR + 1
        invariant fresh(bits) && bits.Length == sectors
        invariant forall i :: 0 <= i < bits.Length ==> (bits[i] <==> i < s)
      {
        bits[s] := true;
      }
    }

    method IsClear(start: nat, cnt: nat) returns (b: bool)
      requires start + cnt <= bits.Length
      ensures b <==> ClearRun(bits[..], start, cnt)
    {
      var i := 0;
      while i < cnt && !bits[start + i]
        invariant 0 <= i <= cnt && ClearRun(bits[..], start, i)
      {
        i := i + 1;
      }
      b := i == cnt;
      assert !b ==> bits[..][start + i];
    }

    /** bitmap_scan: the first run of `cnt` clear bits. */
    method Scan(cnt: nat) returns (ok: bool, sector: nat)
      ensures ok ==> ClearRun(bits[..], sector, cnt)
      ensures ok ==> forall s :: 0 <= s < sector ==> !ClearRun(bits[..], s, cnt)
      ensures !ok ==> forall s: nat :: !ClearRun(bits[..], s, cnt)
    {
      ok, sector := false, 0;
      if cnt > bits.Length { return; }
      while sector <= bits.Length - cnt
        invariant sector <= bits.Length - cnt + 1
        invariant forall s :: 0 <= s < sector ==> !ClearRun(bits[..], s, cnt)
      {
        ok := IsClear(sector, cnt);
        if ok { return; }
        sector := sector + 1;
      }
    }

    /** free_map_allocate: first fit. Nothing changes when no run is long enough, or when the map cannot be written
        back to its file; `written` says whether it can. */
    method Allocate(cnt: nat, written: bool) returns (ok: bool, sector: nat)
      modifies bits
      ensures ok <==> written && exists s: nat :: ClearRun(old(bits[..]), s, cnt)
      ensures ok ==> ClearRun(old(bits[..]), sector, cnt)
      ensures ok ==> forall s :: 0 <= s < sector ==> !ClearRun(old(bits[..]), s, cnt)
      ensures ok ==> forall i :: 0 <= i < bits.Length ==> bits[i] == (old(bits[i]) || InRun(i, sector, cnt))
      ensures !ok ==> bits[..] == old(bits[..])
    {
      ok, sector := Scan(cnt);
      if ok {
        forall i | sector <= i < sector + cnt { bits[i] := true; }
        if !written {
          forall i | sector <= i < sector + cnt { bits[i] := false; }
          ok := false;
        }
      }
    }

    /** free_map_allocate_one: some free sector, if there is one and the map can be written back. */
    method AllocateOne(written: bool) returns (ok: bool, sector: nat)
      modifies bits
      ensures ok ==> sector !in old(Used()) && Used() == old(Used()) + {sector}
      ensures ok <==> written && exists i :: 0 <= i < bits.Length && i !in old(Used())
      ensures !ok ==> Used() == old(Used())
    {
      ghost var was := bits[..];
      ok, sector := Allocate(1, written);
      if ok {
        assert !was[sector];
      } else {
        assert forall i :: 0 <= i < bits.Length ==> bits[i] == bits[..][i];
        if written {
          forall i | 0 <= i < bits.Length ensures was[i] {
            assert !ClearRun(was, i, 1);
          }
        }
      }
    }

    /** bitmap_all, for one sector. */
    method IsAllocated(sector: nat) returns (b: bool)
      ensures b <==> sector in Used()
    {
      b := sector < bits.Length && bits[sector];
    }

    /** free_map_release: the sectors must all be allocated. */
    method Release(sector: nat, cnt: nat)
      requires forall i :: sector <= i < sector + cnt ==> i in Used()
      modifies bits
      ensures forall i :: i in Used() <==> i in old(Used()) && !InRun(i, sector, cnt)
    {
      forall i | 0 <= i < bits.Length && InRun(i, sector, cnt) { bits[i] := false; }
    }
  }
}
