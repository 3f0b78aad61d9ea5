/** The write-back buffer cache, used by one thread at a time. */
module Cache {
  import opened Sectors

  const CACHE_SIZE: nat := 64

  datatype State = INVALID | LOADING | VALID

  datatype Slot = Slot(state: State, sector: nat, data: SectorData, dirty: bool, accessed: bool)

  predicate Taken(slot: Slot) { slot.state != INVALID }

  /** cache_lookup from slot `from` on: the first slot that holds sector `s`, or the number of slots. */
  function Holder(slots: seq<Slot>, s: nat, from: nat := 0): (h: nat)
    requires from <= |slots|
    ensures from <= h <= |slots|
    ensures h < |slots| ==> Taken(slots[h]) && slots[h].sector == s
    ensures forall i :: from <= i < h ==> !(Taken(slots[i]) && slots[i].sector == s)
    decreases |slots| - from
  {
    if from == |slots| then from
    else if Taken(slots[from]) && slots[from].sector == s then from
    else Holder(slots, s, from + 1)
  }

  /** No sector is cached twice. */
  ghost predicate NoDuplicates(slots: seq<Slot>) {
    forall i, j :: 0 <= i < j < |slots| && Taken(slots[i]) && Taken(slots[j]) ==> slots[i].sector != slots[j].sector
  }

  /** Between operations a taken slot is loaded, and a clean one agrees with the disk. */
  predicate SlotOk(slot: Slot, disk: Image) {
    Taken(slot) ==> slot.state == VALID && slot.sector in disk && (!slot.dirty ==> slot.data == disk[slot.sector])
  }

  ghost predicate Consistent(slots: seq<Slot>, disk: Image) {
    NoDuplicates(slots) && forall i :: 0 <= i < |slots| ==> SlotOk(slots[i], disk)
  }

  function Shown(slots: seq<Slot>, disk: Image, s: nat): SectorData
    requires s in disk
  {
    var h := Holder(slots, s);
    if h < |slots| then slots[h].data else disk[s]
  }

  /** What readers see: the cached copy of a sector if there is one. */
  function View(slots: seq<Slot>, disk: Image): Image {
    map s | s in disk :: Shown(slots, disk, s)
  }

  lemma HolderIs(slots: seq<Slot>, i: nat)
    requires NoDuplicates(slots) && i < |slots| && Taken(slots[i])
    ensures Holder(slots, slots[i].sector) == i
  {
  }

  /** Slots that hold the same sectors answer lookups alike. */
  lemma {:induction false} SameHolder(a: seq<Slot>, b: seq<Slot>, s: nat, from: nat)
    requires |a| == |b| && from <= |a|
    requires forall i :: 0 <= i < |a| ==> a[i].state == b[i].state && a[i].sector == b[i].sector
    ensures Holder(a, s, from) == Holder(b, s, from)
    decreases |a| - from
  {
  }

  // ---------------------------------------------------------------- elementary changes

  lemma InstallElsewhere(slots: seq<Slot>, disk: Image, i: nat, slot: Slot, s: nat)
    requires Consistent(slots, disk) && i < |slots| && (Taken(slots[i]) ==> !slots[i].dirty)
    requires NoDuplicates(slots[i := slot]) && s in disk && s != slot.sector
    ensures Shown(slots[i := slot], disk, s) == Shown(slots, disk, s)
  {
    var slots' := slots[i := slot];
    var h, h' := Holder(slots, s), Holder(slots', s);
    if h < |slots| && h != i {
      HolderIs(slots', h);
    } else if h == i {
      assert SlotOk(slots[i], disk);
    }
  }

  /** A free or clean slot takes over a sector that is not cached. */
  lemma Install(slots: seq<Slot>, disk: Image, i: nat, slot: Slot)
    requires Consistent(slots, disk) && i < |slots| && (Taken(slots[i]) ==> !slots[i].dirty)
    requires Taken(slot) && SlotOk(slot, disk) && Holder(slots, slot.sector) == |slots|
    ensures Consistent(slots[i := slot], disk)
    ensures View(slots[i := slot], disk) == View(slots, disk)[slot.sector := slot.data]
  {
    HolderIs(slots[i := slot], i);
    forall s | s in disk && s != slot.sector ensures Shown(slots[i := slot], disk, s) == Shown(slots, disk, s) {
      InstallElsewhere(slots, disk, i, slot, s);
    }
  }

  /** `slot` stands in for `was`: it keeps the state and the sector. */
  predicate StandsIn(was: Slot, slot: Slot) { slot.state == was.state && slot.sector == was.sector }

  predicate ChangedAt(disk: Image, disk': Image, s: nat) {
    disk'.Keys == disk.Keys && forall t :: t in disk && t != s ==> disk'[t] == disk[t]
  }

  lemma UpdateConsistent(slots: seq<Slot>, disk: Image, i: nat, slot: Slot, disk': Image)
    requires Consistent(slots, disk) && i < |slots| && Taken(slots[i]) && SlotOk(slot, disk')
    requires StandsIn(slots[i], slot) && ChangedAt(disk, disk', slot.sector)
    ensures Consistent(slots[i := slot], disk')
  {
  }

  lemma UpdateShown(slots: seq<Slot>, disk: Image, i: nat, slot: Slot, disk': Image, s: nat)
    requires Holder(slots, slot.sector) == i < |slots| && Taken(slots[i])
    requires StandsIn(slots[i], slot) && ChangedAt(disk, disk', slot.sector) && s in disk
    ensures Shown(slots[i := slot], disk', s) == if s == slot.sector then slot.data else Shown(slots, disk, s)
  {
    SameHolder(slots[i := slot], slots, s, 0);
  }

  /** A slot keeps its sector; its data, flags and disk sector may change together. */
  lemma Update(slots: seq<Slot>, disk: Image, i: nat, slot: Slot, disk': Image)
    requires Consistent(slots, disk) && i < |slots| && Taken(slots[i]) && SlotOk(slot, disk')
    requires StandsIn(slots[i], slot) && ChangedAt(disk, disk', slot.sector)
    ensures Consistent(slots[i := slot], disk')
    ensures View(slots[i := slot], disk') == View(slots, disk)[slot.sector := slot.data]
  {
    UpdateConsistent(slots, disk, i, slot, disk');
    HolderIs(slots, i);
    forall s | s in disk
      ensures Shown(slots[i := slot], disk', s) == if s == slot.sector then slot.data else Shown(slots, disk, s)
    {
      UpdateShown(slots, disk, i, slot, disk', s);
    }
  }

  /** A cached sector is overwritten in its slot. */
  lemma Overwrite(slots: seq<Slot>, disk: Image, i: nat, data: SectorData)
    requires Consistent(slots, disk) && i < |slots| && Taken(slots[i])
    ensures var slots' := slots[i := slots[i].(data := data, dirty := true, accessed := true)];
      Consistent(slots', disk) && View(slots', disk) == View(slots, disk)[slots[i].sector := data]
  {
    assert SlotOk(slots[i], disk);
    Update(slots, disk, i, slots[i].(data := data, dirty := true, accessed := true), disk);
  }

  /** Changing an accessed flag shows nothing new. */
  lemma Touch(slots: seq<Slot>, disk: Image, i: nat, accessed: bool)
    requires Consistent(slots, disk) && i < |slots| && Taken(slots[i])
    ensures var slots' := slots[i := slots[i].(accessed := accessed)];
      Consistent(slots', disk) && View(slots', disk) == View(slots, disk)
  {
    assert SlotOk(slots[i], disk);
    HolderIs(slots, i);
    Update(slots, disk, i, slots[i].(accessed := accessed), disk);
  }

  /** Writing a slot back makes it clean and shows nothing new. */
  lemma WriteBack(slots: seq<Slot>, disk: Image, i: nat)
    requires Consistent(slots, disk) && i < |slots| && Taken(slots[i])
    ensures var slots', disk' := slots[i := slots[i].(dirty := false)], disk[slots[i].sector := slots[i].data];
      Consistent(slots', disk') && View(slots', disk') == View(slots, disk)
  {
    assert SlotOk(slots[i], disk);
    HolderIs(slots, i);
    Update(slots, disk, i, slots[i].(dirty := false), disk[slots[i].sector := slots[i].data]);
  }

  /** With nothing dirty the disk is what readers see. */
  lemma AllClean(slots: seq<Slot>, disk: Image)
    requires Consistent(slots, disk) && forall i :: 0 <= i < |slots| && Taken(slots[i]) ==> !slots[i].dirty
    ensures View(slots, disk) == disk
  {
  }

  predicate SameSectors(a: seq<Slot>, b: seq<Slot>) {
    |a| == |b| && forall i :: 0 <= i < |a| ==> StandsIn(a[i], b[i])
  }

  /** The first `n` slots are clean, and nothing else has changed. */
  function Cleaned(slots: seq<Slot>, n: nat): (r: seq<Slot>)
    ensures |r| == |slots|
    ensures forall j :: 0 <= j < |r| ==> r[j] == if j < n && Taken(slots[j]) then slots[j].(dirty := false) else slots[j]
  {
    seq(|slots|, j requires 0 <= j < |slots| => if j < n && Taken(slots[j]) then slots[j].(dirty := false) else slots[j])
  }

  lemma CleanedNext(slots: seq<Slot>, n: nat)
    requires n < |slots|
    ensures Cleaned(slots, n + 1) == Cleaned(slots, n)[n := if Taken(slots[n]) then slots[n].(dirty := false) else slots[n]]
  {
  }

  // ---------------------------------------------------------------- the clock

  /** How many steps the hand takes from `hand` to slot `j`. */
  function Dist(hand: nat, j: nat): nat
    requires hand < CACHE_SIZE
  {
    if j >= hand then j - hand else j + CACHE_SIZE - hand
  }

  /** A slot the hand has passed. */
  function Aged(slot: Slot): Slot { if slot.state == VALID then slot.(accessed := false) else slot }

  /** The hand has taken `n` steps. */
  function AgedBy(slots: seq<Slot>, hand: nat, n: nat): (r: seq<Slot>)
    requires |slots| == CACHE_SIZE && hand < CACHE_SIZE
    ensures |r| == |slots| && forall j :: 0 <= j < |r| ==> r[j] == if Dist(hand, j) < n then Aged(slots[j]) else slots[j]
  {
    seq(|slots|, j requires 0 <= j < |slots| => if Dist(hand, j) < n then Aged(slots[j]) else slots[j])
  }

  predicate Stale(slot: Slot) { slot.state == VALID && !slot.accessed }

  predicate NoneStale(slots: seq<Slot>) { forall j :: 0 <= j < |slots| ==> !Stale(slots[j]) }

  /** The victim is the first slot from the hand on that has not been accessed recently; if all have, it is the first
      valid one. */
  predicate ClockPick(slots: seq<Slot>, hand: nat, v: nat)
    requires |slots| == CACHE_SIZE && hand < CACHE_SIZE
  {
    && v < CACHE_SIZE && slots[v].state == VALID
    && if NoneStale(slots) then forall j :: 0 <= j < CACHE_SIZE && Dist(hand, j) < Dist(hand, v) ==> slots[j].state != VALID
       else Stale(slots[v]) && forall j :: 0 <= j < CACHE_SIZE && Dist(hand, j) < Dist(hand, v) ==> !Stale(slots[j])
  }

  /** How far the hand goes: up to the victim, after a whole round in which it clears every flag if all are set. */
  function Steps(slots: seq<Slot>, hand: nat, v: nat): nat
    requires hand < CACHE_SIZE
  {
    if NoneStale(slots) then CACHE_SIZE else Dist(hand, v)
  }

  /** The first free slot. */
  predicate FirstFree(slots: seq<Slot>, i: nat) {
    i < |slots| && !Taken(slots[i]) && forall j :: 0 <= j < i ==> Taken(slots[j])
  }

  predicate NoneFree(slots: seq<Slot>) { forall j :: 0 <= j < |slots| ==> Taken(slots[j]) }

  /** What eviction leaves: nothing has happened if a slot is free; otherwise the clock has picked slot `i`, and its data
      has been written back if it was dirty. */
  predicate EvictedTo(slots: seq<Slot>, hand: nat, disk: Image, i: nat, slots': seq<Slot>, hand': nat, disk': Image)
    requires |slots| == CACHE_SIZE && hand < CACHE_SIZE
  {
    if NoneFree(slots) then
      && ClockPick(slots, hand, i) && hand' == NextHand(i)
      && slots' == AgedBy(slots, hand, Steps(slots, hand, i))[i := slots[i].(dirty := false, accessed := false)]
      && disk' == if slots[i].dirty then disk[slots[i].sector := slots[i].data] else disk
    else
      FirstFree(slots, i) && slots' == slots && hand' == hand && disk' == disk
  }

  /** A miss: some slot is evicted and becomes `slot`. */
  ghost predicate LoadedTo(slots: seq<Slot>, hand: nat, disk: Image, slot: Slot, slots': seq<Slot>, hand': nat, disk': Image)
    requires |slots| == CACHE_SIZE && hand < CACHE_SIZE
  {
    exists i, mid :: 0 <= i < |mid| && slots' == mid[i := slot] && EvictedTo(slots, hand, disk, i, mid, hand', disk')
  }

  class BufferCache {
    var slots: array<Slot>
    var hand: nat
    var disk: Image

    ghost predicate Valid()
      reads this, slots
    {
      slots.Length == CACHE_SIZE && hand < CACHE_SIZE && Consistent(slots[..], disk)
    }

    ghost function Contents(): Image
      reads this, slots
    {
      View(slots[..], disk)
    }

    /** cache_init. */
    constructor (device: Image)
      ensures Valid() && fresh(slots) && disk == device && Contents() == device
    {
      slots := new Slot[CACHE_SIZE](i => Slot(INVALID, 0, seq(SECTOR_SIZE, j => 0), false, false));
      hand, disk := 0, device;
      new;
      AllClean(slots[..], disk);
    }

    method Set(i: nat, slot: Slot)
      requires i < slots.Length
      modifies slots
      ensures slots[..] == old(slots[..])[i := slot]
    {
      slots[i] := slot;
    }

    method Lookup(s: nat) returns (h: nat)
      ensures h == Holder(slots[..], s) && h <= slots.Length
    {
      h := 0;
      while h < slots.Length
        invariant h <= slots.Length && Holder(slots[..], s) == Holder(slots[..], s, h)
      {
        if slots[h].state != INVALID && slots[h].sector == s { return; }
        h := h + 1;
      }
    }

    /** Clear an accessed flag. */
    method SecondChance(i: nat)
      requires Valid() && i < CACHE_SIZE && Taken(slots[i])
      modifies slots
      ensures Valid() && Contents() == old(Contents())
      ensures slots[..] == old(slots[..])[i := old(slots[i]).(accessed := false)]
    {
      Touch(slots[..], disk, i, false);
      Set(i, slots[i].(accessed := false));
    }

    /** evict_clock: with a valid slot `w` in the cache, a victim is found within two rounds. */
    method EvictClock(ghost w: nat) returns (victim: nat)
      requires Valid() && w < CACHE_SIZE && slots[w].state == VALID
      modifies `hand, slots
      ensures Valid() && Contents() == old(Contents()) && hand == NextHand(victim)
      ensures ClockPick(old(slots[..]), old(hand), victim)
      ensures slots[..] == AgedBy(old(slots[..]), old(hand), Steps(old(slots[..]), old(hand), victim))
    {
      ghost var was, start, off := slots[..], hand, Dist(hand, w);
      var scans := 0;
      assert slots[..] == AgedBy(was, start, 0);
      while true
        invariant Valid() && Contents() == old(Contents()) && hand == HandAfter(start, scans)
        invariant 0 <= scans <= CACHE_SIZE + off && Scanned(was, start, scans) && slots[..] == AgedBy(was, start, scans)
        decreases CACHE_SIZE + off - scans
      {
        victim := hand;
        HandAt(start, scans, victim);
        hand := NextHand(hand);
        ScanMeets(was, start, scans, victim);
        if slots[victim].state == VALID {
          if !slots[victim].accessed { return; }
          SecondChance(victim);
        }
        ScanNext(was, start, scans, victim, w);
        scans := scans + 1;
        assert scans <= 2 * CACHE_SIZE;
      }
    }

    /** Write a dirty victim back to the disk. */
    method Clean(i: nat)
      requires Valid() && i < CACHE_SIZE && Taken(slots[i])
      modifies `disk, slots
      ensures Valid() && Contents() == old(Contents()) && disk.Keys == old(disk.Keys)
      ensures slots[..] == old(slots[..])[i := old(slots[i]).(dirty := false)]
      ensures disk == if old(slots[i]).dirty then old(disk)[old(slots[i]).sector := old(slots[i]).data] else old(disk)
    {
      if slots[i].dirty {
        assert SlotOk(slots[..][i], disk);
        WriteBack(slots[..], disk, i);
        disk := disk[slots[i].sector := slots[i].data];
        Set(i, slots[i].(dirty := false));
      }
    }

    /** cache_evict: a slot whose loss shows nothing. */
    method Evict() returns (i: nat)
      requires Valid()
      modifies `hand, `disk, slots
      ensures Valid() && Contents() == old(Contents()) && disk.Keys == old(disk.Keys)
      ensures SameSectors(old(slots[..]), slots[..])
      ensures i < CACHE_SIZE && (Taken(slots[i]) ==> !slots[i].dirty)
      ensures EvictedTo(old(slots[..]), old(hand), old(disk), i, slots[..], hand, disk)
    {
      i := 0;
      while i < CACHE_SIZE
        invariant i <= CACHE_SIZE && forall j :: 0 <= j < i ==> Taken(slots[j])
      {
        if slots[i].state == INVALID { return; }
        i := i + 1;
      }
      assert SlotOk(slots[..][0], disk);
      i := EvictClock(0);
      assert SlotOk(old(slots[..])[i], old(disk));
      Clean(i);
    }

    /** Make slot `i` the valid copy of a sector that is not cached. */
    method Fill(i: nat, s: nat, data: SectorData, dirty: bool, accessed: bool)
      requires Valid() && i < CACHE_SIZE && (Taken(slots[i]) ==> !slots[i].dirty) && s in disk
      requires Holder(slots[..], s) == CACHE_SIZE && (!dirty ==> data == disk[s])
      modifies slots
      ensures Valid() && Contents() == old(Contents())[s := data] && slots[i].data == data
      ensures slots[..] == old(slots[..])[i := Slot(VALID, s, data, dirty, accessed)]
    {
      var slot := Slot(VALID, s, data, dirty, accessed);
      Install(slots[..], disk, i, slot);
      Set(i, slots[i].(state := LOADING, sector := s, dirty := false));
      Set(i, slot);
      assert slots[..] == old(slots[..])[i := slot];
    }

    /** A miss: a slot for sector `s`, which is still not cached. */
    method Reserve(s: nat) returns (i: nat)
      requires Valid() && s in disk && Holder(slots[..], s) == CACHE_SIZE
      modifies `hand, `disk, slots
      ensures Valid() && Contents() == old(Contents()) && disk.Keys == old(disk.Keys)
      ensures i < CACHE_SIZE && (Taken(slots[i]) ==> !slots[i].dirty) && Holder(slots[..], s) == CACHE_SIZE
      ensures disk[s] == old(Contents())[s]
      ensures EvictedTo(old(slots[..]), old(hand), old(disk), i, slots[..], hand, disk)
    {
      i := Evict();
      SameHolder(slots[..], old(slots[..]), s, 0);
      assert Contents()[s] == Shown(slots[..], disk, s);
    }

    /** A miss that reads the sector from the disk. */
    method Load(s: nat, accessed: bool) returns (data: SectorData)
      requires Valid() && s in disk && Holder(slots[..], s) == CACHE_SIZE
      modifies `hand, `disk, slots
      ensures Valid() && Contents() == old(Contents()) && disk.Keys == old(disk.Keys) && data == old(Contents())[s]
      ensures LoadedTo(old(slots[..]), old(hand), old(disk), Slot(VALID, s, data, false, accessed), slots[..], hand, disk)
    {
      var i := Reserve(s);
      ghost var mid := slots[..];
      data := disk[s];
      Fill(i, s, data, false, accessed);
      assert old(Contents())[s := data] == old(Contents());
      assert slots[..] == mid[i := Slot(VALID, s, data, false, accessed)];
    }

    /** cache_read: the latest data of the sector. */
    method Read(s: nat) returns (data: SectorData)
      requires Valid() && s in disk
      modifies `hand, `disk, slots
      ensures Valid() && Contents() == old(Contents()) && disk.Keys == old(disk.Keys)
      ensures data == old(Contents())[s]
      ensures var h := Holder(old(slots[..]), s);
        if h < CACHE_SIZE then
          slots[..] == old(slots[..])[h := old(slots[..])[h].(accessed := true)] && hand == old(hand) && disk == old(disk)
        else LoadedTo(old(slots[..]), old(hand), old(disk), Slot(VALID, s, data, false, true), slots[..], hand, disk)
    {
      var h := Lookup(s);
      if h < CACHE_SIZE {
        data := slots[h].data;
        Touch(slots[..], disk, h, true);
        Set(h, slots[h].(accessed := true));
      } else {
        data := Load(s, true);
      }
    }

    /** cache_read_at. */
    method ReadAt(s: nat, ofs: nat, size: nat) returns (bytes: seq<byte>)
      requires Valid() && s in disk && ofs + size <= SECTOR_SIZE
      modifies `hand, `disk, slots
      ensures Valid() && Contents() == old(Contents()) && disk.Keys == old(disk.Keys)
      ensures bytes == old(Contents())[s][ofs..ofs + size]
      ensures var h := Holder(old(slots[..]), s);
        if h < CACHE_SIZE then
          slots[..] == old(slots[..])[h := old(slots[..])[h].(accessed := true)] && hand == old(hand) && disk == old(disk)
        else LoadedTo(old(slots[..]), old(hand), old(disk), Slot(VALID, s, old(Contents())[s], false, true), slots[..], hand, disk)
    {
      var data := Read(s);
      bytes := data[ofs..ofs + size];
    }

    /** cache_write: only the written range of the one sector changes. */
    method Write(s: nat, ofs: nat, bytes: seq<byte>)
      requires Valid() && s in disk && ofs + |bytes| <= SECTOR_SIZE
      modifies `hand, `disk, slots
      ensures Valid() && disk.Keys == old(disk.Keys)
      ensures Contents() == Put(old(Contents()), Patch(s, ofs, bytes))
      ensures var h, data := Holder(old(slots[..]), s), Splice(old(Contents())[s], ofs, bytes);
        if h < CACHE_SIZE then
          slots[..] == old(slots[..])[h := Slot(VALID, s, data, true, true)] && hand == old(hand) && disk == old(disk)
        else LoadedTo(old(slots[..]), old(hand), old(disk), Slot(VALID, s, data, true, true), slots[..], hand, disk)
    {
      ghost var shown := Contents()[s];
      var h := Lookup(s);
      if h < CACHE_SIZE {
        assert shown == slots[..][h].data && SlotOk(slots[..][h], disk);
        Overwrite(slots[..], disk, h, Splice(slots[h].data, ofs, bytes));
        Set(h, slots[h].(data := Splice(slots[h].data, ofs, bytes), dirty := true, accessed := true));
      } else {
        var i := Reserve(s);
        var full := ofs == 0 && |bytes| == SECTOR_SIZE;
        var before := if full then slots[i].data else disk[s];
        assert Splice(before, ofs, bytes) == Splice(shown, ofs, bytes);
        Fill(i, s, Splice(before, ofs, bytes), true, true);
      }
    }

    /** cache_flush: afterwards the disk holds what readers see, and every cached copy is clean. */
    method Flush()
      requires Valid()
      modifies `disk, slots
      ensures Valid() && Contents() == old(Contents()) && disk == old(Contents())
      ensures slots[..] == Cleaned(old(slots[..]), CACHE_SIZE)
    {
      ghost var was := slots[..];
      var i := 0;
      assert slots[..] == Cleaned(was, 0);
      while i < CACHE_SIZE
        invariant i <= CACHE_SIZE && Valid() && Contents() == old(Contents()) && slots[..] == Cleaned(was, i)
      {
        assert SlotOk(slots[..][i], disk) && slots[..][i] == was[i];
        if slots[i].state == VALID && slots[i].dirty { Clean(i); }
        CleanedNext(was, i);
        i := i + 1;
      }
      AllClean(slots[..], disk);
    }

    /** cache_do_prefetch. Where `ok` is false the device driver panics, in the prefetch that follows a read of the
        last sector. */
    method Prefetch(s: nat) returns (ok: bool)
      requires Valid()
      modifies `hand, `disk, slots
      ensures Valid() && Contents() == old(Contents()) && disk.Keys == old(disk.Keys)
      ensures ok <==> s in disk
      ensures if Holder(old(slots[..]), s) < CACHE_SIZE || !ok then slots[..] == old(slots[..]) && hand == old(hand) && disk == old(disk)
              else LoadedTo(old(slots[..]), old(hand), old(disk), Slot(VALID, s, old(Contents())[s], false, false), slots[..], hand, disk)
    {
      var h := Lookup(s);
      ok := h < CACHE_SIZE || s in disk;
      if h == CACHE_SIZE && ok {
        var data := Load(s, false);
      }
    }
  }

  function NextHand(h: nat): (r: nat)
    ensures r < CACHE_SIZE
  {
    (h + 1) % CACHE_SIZE
  }

  function HandAfter(start: nat, n: nat): nat { if n == 0 then start else NextHand(HandAfter(start, n - 1)) }

  lemma NextMod(x: nat)
    ensures (x % CACHE_SIZE + 1) % CACHE_SIZE == (x + 1) % CACHE_SIZE
  {
  }

  lemma {:induction false} HandIs(start: nat, n: nat)
    requires start < CACHE_SIZE
    ensures HandAfter(start, n) == (start + n) % CACHE_SIZE
    decreases n
  {
    if n > 0 {
      HandIs(start, n - 1);
      NextMod(start + n - 1);
    }
  }

  /** Where the hand is after `n` steps. */
  lemma HandAt(start: nat, n: nat, v: nat)
    requires start < CACHE_SIZE && v == HandAfter(start, n) && n < 2 * CACHE_SIZE
    ensures v < CACHE_SIZE && Dist(start, v) == if n < CACHE_SIZE then n else n - CACHE_SIZE
  {
    HandIs(start, n);
  }

  /** Everything passed so far was recent in the first round, and not valid in the second. */
  predicate Scanned(was: seq<Slot>, start: nat, n: nat)
    requires |was| == CACHE_SIZE && start < CACHE_SIZE
  {
    && (forall j :: 0 <= j < CACHE_SIZE && Dist(start, j) < n ==> !Stale(was[j]))
    && (forall j :: 0 <= j < CACHE_SIZE && Dist(start, j) + CACHE_SIZE < n ==> was[j].state != VALID)
  }

  /** What the hand finds: the slot as it was in the first round, with its flag cleared in the second. */
  lemma ScanMeets(was: seq<Slot>, start: nat, n: nat, v: nat)
    requires |was| == CACHE_SIZE && start < CACHE_SIZE && v < CACHE_SIZE && n < 2 * CACHE_SIZE && Scanned(was, start, n)
    requires Dist(start, v) == if n < CACHE_SIZE then n else n - CACHE_SIZE
    ensures AgedBy(was, start, n)[v] == if n < CACHE_SIZE then was[v] else Aged(was[v])
    ensures Stale(AgedBy(was, start, n)[v]) ==> ClockPick(was, start, v) && AgedBy(was, start, n) == AgedBy(was, start, Steps(was, start, v))
  {
    if n >= CACHE_SIZE {
      assert NoneStale(was);
      assert AgedBy(was, start, n) == AgedBy(was, start, CACHE_SIZE);
    } else if Stale(was[v]) {
      assert !NoneStale(was);
    }
  }

  lemma ScanNext(was: seq<Slot>, start: nat, n: nat, v: nat, w: nat)
    requires |was| == CACHE_SIZE && start < CACHE_SIZE && v < CACHE_SIZE && w < CACHE_SIZE && was[w].state == VALID
    requires n <= CACHE_SIZE + Dist(start, w) && Scanned(was, start, n)
    requires Dist(start, v) == (if n < CACHE_SIZE then n else n - CACHE_SIZE) && !Stale(AgedBy(was, start, n)[v])
    ensures n < CACHE_SIZE + Dist(start, w) && Scanned(was, start, n + 1)
    ensures AgedBy(was, start, n + 1) == AgedBy(was, start, n)[v := Aged(AgedBy(was, start, n)[v])]
  {
    forall j | 0 <= j < CACHE_SIZE && Dist(start, j) == Dist(start, v) ensures j == v {}
  }
}
