/** The kernel heap: power-of-two size classes carved from one-page arenas, and whole pages for big blocks.
    Addresses and sizes are those of the 32-bit build. */
module Heap {
  import opened Division

  const PAGE: nat := 4096
  const HEADER: nat := 12
  const CLASSES: nat := 7

  datatype Arena = Small(k: nat, freeCnt: nat) | Big(pages: nat)

  /** Block `idx` of the arena on page `page`. */
  datatype Blk = Blk(page: nat, idx: nat)

  /** Arenas by page number, the free list of each size class, and the blocks that callers hold. */
  datatype State = State(arenas: map<nat, Arena>, free: seq<seq<Blk>>, live: set<Blk>)

  function Size(k: nat): (s: nat)
    ensures s >= 16
  {
    if k == 0 then 16 else 2 * Size(k - 1)
  }

  function PerArena(k: nat): nat { Quot(PAGE - HEADER, Size(k)) }

  /** As many blocks as fit behind the header of a page. */
  lemma PerArenaMost(k: nat)
    requires k < CLASSES
    ensures HEADER + PerArena(k) * Size(k) <= PAGE < HEADER + (PerArena(k) + 1) * Size(k)
  {
    QuotBounds(PAGE - HEADER, Size(k));
    assert IsQuot(PAGE - HEADER, Size(k), PerArena(k));
  }

  function Span(a: Arena): nat { if a.Big? then a.pages else 1 }

  // ---------------------------------------------------------------- invariant

  predicate IsBlockOf(h: State, b: Blk, k: nat) {
    b.page in h.arenas && h.arenas[b.page].Small? && h.arenas[b.page].k == k && b.idx < PerArena(k)
  }

  predicate Distinct(s: seq<Blk>) { forall i, j :: 0 <= i < j < |s| ==> s[i] != s[j] }

  ghost predicate FreeOk(h: State, k: nat)
    requires k < |h.free|
  {
    Distinct(h.free[k]) && forall b :: b in h.free[k] ==> IsBlockOf(h, b, k)
  }

  /** The blocks of page `p` on a free list. */
  ghost function FreeIdx(list: seq<Blk>, p: nat, n: nat): set<nat> {
    set i | 0 <= i < n && Blk(p, i) in list
  }

  /** An arena's count is the number of its blocks on the free list, and every block is free or live, not both.
      Only an arena in `full` may have all its blocks free. */
  ghost predicate ArenaOk(h: State, p: nat, full: set<nat>)
    requires p in h.arenas && |h.free| == CLASSES
  {
    match h.arenas[p]
    case Small(k, c) =>
      && k < CLASSES && c == |FreeIdx(h.free[k], p, PerArena(k))| && (c < PerArena(k) || p in full)
      && forall i: nat :: i < PerArena(k) ==> (Blk(p, i) in h.live <==> Blk(p, i) !in h.free[k])
    case Big(n) => n >= 1 && Blk(p, 0) in h.live
  }

  predicate LiveOk(h: State, b: Blk) {
    && b.page in h.arenas
    && match h.arenas[b.page] { case Small(k, c) => b.idx < PerArena(k) case Big(n) => b.idx == 0 }
  }

  /** Arenas do not overlap. */
  predicate Apart(h: State, p: nat, q: nat) {
    p in h.arenas && q in h.arenas && p < q ==> p + Span(h.arenas[p]) <= q
  }

  ghost predicate InvBut(h: State, full: set<nat>) {
    && |h.free| == CLASSES
    && (forall k :: 0 <= k < CLASSES ==> FreeOk(h, k))
    && (forall p :: p in h.arenas ==> ArenaOk(h, p, full))
    && (forall b :: b in h.live ==> LiveOk(h, b))
    && forall p: nat, q: nat :: Apart(h, p, q)
  }

  ghost predicate Inv(h: State) { InvBut(h, {}) }

  // ---------------------------------------------------------------- elementary changes

  /** list_pop_front and the count. */
  function Popped(h: State, k: nat): State
    requires CanPopNow(h, k)
  {
    var b := h.free[k][0];
    var a := h.arenas[b.page];
    State(h.arenas[b.page := a.(freeCnt := a.freeCnt - 1)], h.free[k := h.free[k][1..]], h.live + {b})
  }

  function AllBlocks(p: nat, n: nat): (s: seq<Blk>)
    ensures |s| == n && forall i :: 0 <= i < n ==> s[i] == Blk(p, i)
  {
    seq(n, i requires 0 <= i < n => Blk(p, i))
  }

  /** A new arena for class `k` on page `p`; the class had no free block. */
  function Carved(h: State, k: nat, p: nat): State
    requires k < |h.free|
  {
    h.(arenas := h.arenas[p := Small(k, PerArena(k))], free := h.free[k := AllBlocks(p, PerArena(k))])
  }

  function BigTaken(h: State, p: nat, n: nat): State {
    h.(arenas := h.arenas[p := Big(n)], live := h.live + {Blk(p, 0)})
  }

  /** list_push_front and the count. */
  function Pushed(h: State, b: Blk): State
    requires b.page in h.arenas && h.arenas[b.page].Small? && h.arenas[b.page].k < |h.free|
  {
    var a := h.arenas[b.page];
    State(h.arenas[b.page := a.(freeCnt := a.freeCnt + 1)], h.free[a.k := [b] + h.free[a.k]], h.live - {b})
  }

  /** The list without the first `n` blocks of page `p`. */
  function Removed(list: seq<Blk>, p: nat, n: nat): seq<Blk> {
    if list == [] then []
    else
      var rest := Removed(list[1..], p, n);
      if list[0].page == p && list[0].idx < n then rest else [list[0]] + rest
  }

  /** An arena without live blocks goes back to the page allocator. */
  function Dropped(h: State, p: nat): State
    requires p in h.arenas && h.arenas[p].Small? && h.arenas[p].k < |h.free|
  {
    var k := h.arenas[p].k;
    h.(arenas := h.arenas - {p}, free := h.free[k := Removed(h.free[k], p, PerArena(k))])
  }

  function BigDropped(h: State, p: nat): State { h.(arenas := h.arenas - {p}, live := h.live - {Blk(p, 0)}) }

  // ---------------------------------------------------------------- what each change keeps

  ghost function UpTo(n: nat): (r: set<nat>)
    ensures |r| == n && forall i: nat :: i in r <==> i < n
  {
    if n == 0 then {} else UpTo(n - 1) + {n - 1}
  }

  lemma SubsetCount(a: set<nat>, b: set<nat>)
    requires a <= b
    ensures |a| <= |b| && (|a| == |b| ==> a == b)
  {
    assert b == a + (b - a);
    assert |b| == |a| + |b - a|;
  }

  /** A page has at most `n` free blocks, and has `n` exactly when all are free. */
  lemma CountMost(list: seq<Blk>, p: nat, n: nat)
    ensures |FreeIdx(list, p, n)| <= n
    ensures |FreeIdx(list, p, n)| == n <==> forall i: nat :: i < n ==> Blk(p, i) in list
  {
    SubsetCount(FreeIdx(list, p, n), UpTo(n));
    if forall i: nat :: i < n ==> Blk(p, i) in list { assert FreeIdx(list, p, n) == UpTo(n); }
    if |FreeIdx(list, p, n)| == n {
      forall i: nat | i < n ensures Blk(p, i) in list { assert i in UpTo(n); }
    }
  }

  lemma {:induction false} RemovedMembers(list: seq<Blk>, p: nat, n: nat)
    ensures forall b :: b in Removed(list, p, n) <==> b in list && !(b.page == p && b.idx < n)
    ensures Distinct(list) ==> Distinct(Removed(list, p, n))
  {
    if list != [] {
      RemovedMembers(list[1..], p, n);
      assert list == [list[0]] + list[1..];
    }
  }

  lemma TailMembers(list: seq<Blk>)
    requires Distinct(list) && list != []
    ensures Distinct(list[1..]) && forall b :: b in list[1..] <==> b in list && b != list[0]
  {
  }

  lemma CountPop(list: seq<Blk>, n: nat)
    requires Distinct(list) && list != [] && list[0].idx < n
    ensures |FreeIdx(list[1..], list[0].page, n)| + 1 == |FreeIdx(list, list[0].page, n)|
  {
    TailMembers(list);
    var b := list[0];
    assert FreeIdx(list, b.page, n) == FreeIdx(list[1..], b.page, n) + {b.idx};
    assert b.idx !in FreeIdx(list[1..], b.page, n);
  }

  lemma CountPush(list: seq<Blk>, b: Blk, n: nat)
    requires b !in list && b.idx < n
    ensures |FreeIdx([b] + list, b.page, n)| == |FreeIdx(list, b.page, n)| + 1
  {
    assert FreeIdx([b] + list, b.page, n) == FreeIdx(list, b.page, n) + {b.idx};
    assert b.idx !in FreeIdx(list, b.page, n);
  }

  /** The head of a non-empty free list can be popped. */
  lemma CanPop(h: State, k: nat, full: set<nat>)
    requires InvBut(h, full) && k < CLASSES && h.free[k] != []
    ensures IsBlockOf(h, h.free[k][0], k) && h.arenas[h.free[k][0].page].freeCnt > 0
  {
    assert FreeOk(h, k);
    var b := h.free[k][0];
    assert b in h.free[k];
    assert ArenaOk(h, b.page, full);
    assert b.idx in FreeIdx(h.free[k], b.page, PerArena(k));
  }

  /** An arena whose own blocks did not move is still right. */
  lemma ArenaStays(h: State, h': State, p: nat, full: set<nat>, full': set<nat>)
    requires |h.free| == CLASSES == |h'.free| && p in h.arenas && p in h'.arenas && h'.arenas[p] == h.arenas[p]
    requires ArenaOk(h, p, full) && (p in full ==> p in full')
    requires forall i: nat :: Blk(p, i) in h'.live <==> Blk(p, i) in h.live
    requires h.arenas[p].Small? && h.arenas[p].k < CLASSES ==>
      forall i: nat :: Blk(p, i) in h'.free[h.arenas[p].k] <==> Blk(p, i) in h.free[h.arenas[p].k]
    ensures ArenaOk(h', p, full')
  {
    if h.arenas[p].Small? {
      var k := h.arenas[p].k;
      assert FreeIdx(h'.free[k], p, PerArena(k)) == FreeIdx(h.free[k], p, PerArena(k));
    }
  }

  lemma PopKeeps(h: State, k: nat, full: set<nat>)
    requires InvBut(h, full) && k < CLASSES && h.free[k] != [] && full <= {h.free[k][0].page}
    ensures CanPopNow(h, k) && Inv(Popped(h, k))
  {
    CanPop(h, k, full);
    var b, h' := h.free[k][0], Popped(h, k);
    assert FreeOk(h, k);
    TailMembers(h.free[k]);
    CountPop(h.free[k], PerArena(k));
    CountMost(h.free[k], b.page, PerArena(k));
    forall j | 0 <= j < CLASSES ensures FreeOk(h', j) { assert FreeOk(h, j); }
    forall p | p in h'.arenas ensures ArenaOk(h', p, {}) {
      assert ArenaOk(h, p, full);
      if p != b.page { ArenaStays(h, h', p, full, {}); }
    }
    forall x | x in h'.live ensures LiveOk(h', x) { if x != b { assert LiveOk(h, x); } }
    forall p: nat, q: nat ensures Apart(h', p, q) { assert Apart(h, p, q); }
  }

  predicate CanPopNow(h: State, k: nat) {
    && k < |h.free| && h.free[k] != [] && h.free[k][0].page in h.arenas && h.arenas[h.free[k][0].page].Small?
    && h.arenas[h.free[k][0].page].freeCnt > 0
  }

  lemma CarveKeeps(h: State, k: nat, p: nat)
    requires Inv(h) && k < CLASSES && h.free[k] == [] && PageFree(h, p, 1)
    ensures InvBut(Carved(h, k, p), {p}) && (PerArena(k) > 0 ==> Carved(h, k, p).free[k] != [])
  {
    var h' := Carved(h, k, p);
    CountMost(h'.free[k], p, PerArena(k));
    forall i: nat | i < PerArena(k) ensures Blk(p, i) in h'.free[k] { assert h'.free[k][i] == Blk(p, i); }
    forall b | b in h.live ensures b.page != p { assert LiveOk(h, b); }
    forall j | 0 <= j < CLASSES ensures FreeOk(h', j) { assert FreeOk(h, j); }
    forall q | q in h'.arenas ensures ArenaOk(h', q, {p}) {
      if q != p {
        assert ArenaOk(h, q, {});
        ArenaStays(h, h', q, {}, {p});
      }
    }
    forall x | x in h'.live ensures LiveOk(h', x) { assert LiveOk(h, x); }
    forall q: nat, r: nat ensures Apart(h', q, r) { assert Apart(h, q, r); }
  }

  /** Pages `p`, ..., `p` + `n` - 1 belong to no arena. */
  predicate PageFree(h: State, p: nat, n: nat) {
    forall q :: q in h.arenas ==> q + Span(h.arenas[q]) <= p || p + n <= q
  }

  lemma BigKeeps(h: State, p: nat, n: nat)
    requires Inv(h) && n >= 1 && PageFree(h, p, n)
    ensures Inv(BigTaken(h, p, n))
  {
    var h' := BigTaken(h, p, n);
    forall j | 0 <= j < CLASSES ensures FreeOk(h', j) {
      assert FreeOk(h, j);
    }
    forall q | q in h.arenas ensures q != p { assert ArenaOk(h, q, {}); }
    forall q | q in h'.arenas ensures ArenaOk(h', q, {}) {
      if q != p {
        assert ArenaOk(h, q, {});
        ArenaStays(h, h', q, {}, {});
      }
    }
    forall x | x in h'.live ensures LiveOk(h', x) { if x != Blk(p, 0) { assert LiveOk(h, x); } }
    forall q: nat, r: nat ensures Apart(h', q, r) { assert Apart(h, q, r); }
  }

  lemma PushKeeps(h: State, b: Blk)
    requires Inv(h) && b in h.live && b.page in h.arenas && h.arenas[b.page].Small?
    ensures h.arenas[b.page].k < |h.free| && InvBut(Pushed(h, b), {b.page})
  {
    assert ArenaOk(h, b.page, {}) && LiveOk(h, b);
    var k, h' := h.arenas[b.page].k, Pushed(h, b);
    CountPush(h.free[k], b, PerArena(k));
    forall j | 0 <= j < CLASSES ensures FreeOk(h', j) { assert FreeOk(h, j); }
    forall p | p in h'.arenas ensures ArenaOk(h', p, {b.page}) {
      assert ArenaOk(h, p, {});
      if p != b.page { ArenaStays(h, h', p, {}, {b.page}); }
    }
    forall x | x in h'.live ensures LiveOk(h', x) { assert LiveOk(h, x); }
    forall p: nat, q: nat ensures Apart(h', p, q) { assert Apart(h, p, q); }
  }

  /** A page whose blocks are all free holds no live block, and can go. */
  lemma DropKeeps(h: State, p: nat)
    requires InvBut(h, {p}) && p in h.arenas && h.arenas[p].Small? && h.arenas[p].freeCnt >= PerArena(h.arenas[p].k)
    ensures h.arenas[p].k < |h.free| && Inv(Dropped(h, p)) && forall b :: b in h.live ==> b.page != p
  {
    assert ArenaOk(h, p, {p});
    var k, h' := h.arenas[p].k, Dropped(h, p);
    CountMost(h.free[k], p, PerArena(k));
    RemovedMembers(h.free[k], p, PerArena(k));
    forall b | b in h.live ensures b.page != p { assert LiveOk(h, b); }
    forall j | 0 <= j < CLASSES ensures FreeOk(h', j) {
      assert FreeOk(h, j);
      forall b | b in h'.free[j] ensures IsBlockOf(h', b, j) { assert IsBlockOf(h, b, j); }
    }
    forall q | q in h'.arenas ensures ArenaOk(h', q, {}) {
      assert ArenaOk(h, q, {p});
      ArenaStays(h, h', q, {}, {});
    }
    forall x | x in h'.live ensures LiveOk(h', x) { assert LiveOk(h, x); }
    forall q: nat, r: nat ensures Apart(h', q, r) { assert Apart(h, q, r); }
  }

  lemma BigDropKeeps(h: State, p: nat)
    requires Inv(h) && p in h.arenas && h.arenas[p].Big?
    ensures Inv(BigDropped(h, p))
  {
    var h' := BigDropped(h, p);
    forall j | 0 <= j < CLASSES ensures FreeOk(h', j) { assert FreeOk(h, j); }
    forall q | q in h'.arenas ensures ArenaOk(h', q, {}) {
      assert ArenaOk(h, q, {});
      ArenaStays(h, h', q, {}, {});
    }
    forall x | x in h'.live ensures LiveOk(h', x) { assert LiveOk(h, x); }
    forall q: nat, r: nat ensures Apart(h', q, r) { assert Apart(h, q, r); }
  }

  // ---------------------------------------------------------------- addresses

  function Addr(h: State, b: Blk): nat
    requires b.page in h.arenas
  {
    var a := h.arenas[b.page];
    b.page * PAGE + HEADER + (if a.Small? then b.idx * Size(a.k) else 0)
  }

  /** Bytes usable at a block. */
  function Capacity(h: State, b: Blk): int
    requires b.page in h.arenas
  {
    match h.arenas[b.page]
    case Small(k, c) => Size(k)
    case Big(n) => n * PAGE - HEADER
  }

  /** The blocks of a class fit behind the header of one page. */
  lemma BlockFits(k: nat, idx: nat)
    requires idx < PerArena(k)
    ensures HEADER + idx * Size(k) + Size(k) <= PAGE
  {
    QuotBounds(PAGE - HEADER, Size(k));
    MulLe(idx + 1, PerArena(k), Size(k));
    assert (idx + 1) * Size(k) == idx * Size(k) + Size(k);
  }

  /** A live block lies inside the pages of its arena, behind the header. */
  lemma BlockInside(h: State, b: Blk)
    requires Inv(h) && b in h.live
    ensures b.page in h.arenas && b.page * PAGE + HEADER <= Addr(h, b)
    ensures Addr(h, b) + Capacity(h, b) <= (b.page + Span(h.arenas[b.page])) * PAGE
  {
    assert LiveOk(h, b);
    var a := h.arenas[b.page];
    if a.Small? { BlockFits(a.k, b.idx); }
  }

  lemma Spaced(i: nat, j: nat, size: nat)
    requires i < j
    ensures i * size + size <= j * size
  {
    MulLe(i + 1, j, size);
  }

  /** Live blocks never overlap. */
  lemma BlocksDisjoint(h: State, b: Blk, c: Blk)
    requires Inv(h) && b in h.live && c in h.live && b != c
    ensures b.page in h.arenas && c.page in h.arenas
    ensures Addr(h, b) + Capacity(h, b) <= Addr(h, c) || Addr(h, c) + Capacity(h, c) <= Addr(h, b)
  {
    BlockInside(h, b);
    BlockInside(h, c);
    if b.page == c.page {
      assert LiveOk(h, b) && LiveOk(h, c);
      var size := Size(h.arenas[b.page].k);
      if b.idx < c.idx { Spaced(b.idx, c.idx, size); } else { Spaced(c.idx, b.idx, size); }
    } else {
      assert Apart(h, b.page, c.page) && Apart(h, c.page, b.page);
    }
  }

  /** Every arena has a live block: the heap holds no page it does not need. */
  lemma ArenaInUse(h: State, p: nat)
    requires Inv(h) && p in h.arenas
    ensures exists b :: b in h.live && b.page == p
  {
    assert ArenaOk(h, p, {});
    match h.arenas[p]
    case Small(k, c) =>
      CountMost(h.free[k], p, PerArena(k));
      var i: nat :| i < PerArena(k) && Blk(p, i) !in h.free[k];
      assert Blk(p, i) in h.live;
    case Big(n) => assert Blk(p, 0).page == p;
  }

  /** block_to_arena and the index, from an address. */
  lemma AddrBack(h: State, b: Blk)
    requires Inv(h) && b in h.live
    ensures b.page in h.arenas && Addr(h, b) / PAGE == b.page && Addr(h, b) % PAGE >= HEADER
    ensures h.arenas[b.page].Small? ==> Quot(Addr(h, b) % PAGE - HEADER, Size(h.arenas[b.page].k)) == b.idx
  {
    assert LiveOk(h, b);
    var a := h.arenas[b.page];
    if a.Small? {
      BlockFits(a.k, b.idx);
      QuotOf(b.idx, Size(a.k), 0);
    }
  }

  // ---------------------------------------------------------------- big blocks

  const SIZE_LIMIT: nat := 0x1_0000_0000

  /** The pages asked for, in 32-bit arithmetic. */
  function BigPages(size: nat): nat { ((size + HEADER) % SIZE_LIMIT + (PAGE - 1)) % SIZE_LIMIT / PAGE }

  /** The pages hold the request exactly when adding the header to it does not wrap around. */
  lemma BigPagesEnough(size: nat)
    requires size < SIZE_LIMIT && BigPages(size) > 0
    ensures BigPages(size) * PAGE - HEADER >= size <==> size <= SIZE_LIMIT - HEADER
  {
  }

  /** And one page less would not hold it. */
  lemma BigPagesLeast(size: nat)
    requires size <= SIZE_LIMIT - HEADER - PAGE
    ensures BigPages(size) > 0 && (BigPages(size) - 1) * PAGE < size + HEADER <= BigPages(size) * PAGE
  {
  }

  /** The largest request is granted one page and a block smaller than asked for. */
  lemma WrappedRequest()
    ensures BigPages(0xFFFF_FFFF) == 1 && 1 * PAGE - HEADER < 0xFFFF_FFFF
  {
  }

  // ---------------------------------------------------------------- malloc and free

  /** Blocks held across an operation keep their address and their size. */
  ghost predicate Undisturbed(h: State, h': State) {
    forall b :: b in h.live && b in h'.live && b.page in h.arenas ==>
      b.page in h'.arenas && Addr(h', b) == Addr(h, b) && Capacity(h', b) == Capacity(h, b)
  }

  /** A block of a size class goes to the front of its free list, unless its page has no other live block: then the page
      is given back, as the pages of a big block are. */
  ghost predicate Returned(h: State, b: Blk, h': State)
    requires b.page in h.arenas
  {
    var a := h.arenas[b.page];
    if a.Small? && exists x :: x in h.live && x != b && x.page == b.page then
      h'.arenas.Keys == h.arenas.Keys && a.k < |h.free| && h'.free == h.free[a.k := [b] + h.free[a.k]]
    else h'.arenas.Keys == h.arenas.Keys - {b.page} && (a.Big? ==> h'.free == h.free)
  }

  lemma ReturnedIs(h: State, b: Blk, h': State)
    requires b.page in h.arenas && h.arenas[b.page].Small? && h.arenas[b.page].k < |h.free|
    requires Inv(h') && b in h.live && h'.live == h.live - {b}
    requires || (h'.arenas.Keys == h.arenas.Keys && h'.free == h.free[h.arenas[b.page].k := [b] + h.free[h.arenas[b.page].k]])
             || (h'.arenas.Keys == h.arenas.Keys - {b.page} && forall x :: x in h'.live ==> x.page != b.page)
    ensures Returned(h, b, h')
  {
    if b.page in h'.arenas {
      ArenaInUse(h', b.page);
      var x :| x in h'.live && x.page == b.page;
      assert x in h.live && x != b;
    }
  }

  datatype Desc = Desc(blockSize: nat, perArena: nat)

  /** What the page allocator answers. */
  datatype Answer = NoPages | Pages(first: nat)

  class Allocator {
    var descs: seq<Desc>
    var arenas: map<nat, Arena>
    var free: seq<seq<Blk>>
    ghost var live: set<Blk>

    ghost function S(): State
      reads this
    {
      State(arenas, free, live)
    }

    ghost predicate Valid()
      reads this
    {
      && |descs| == CLASSES && (forall k :: 0 <= k < CLASSES ==> descs[k] == Desc(Size(k), PerArena(k)))
      && Inv(S())
    }

    /** malloc_init. */
    constructor ()
      ensures Valid() && live == {} && arenas == map[]
    {
      arenas, live := map[], {};
      free := seq(CLASSES, i => []);
      var blockSize := 16;
      var made: seq<Desc> := [];
      while blockSize < PAGE / 2
        invariant |made| <= CLASSES && blockSize == Size(|made|)
        invariant forall k :: 0 <= k < |made| ==> made[k] == Desc(Size(k), PerArena(k))
        decreases PAGE / 2 - blockSize
      {
        SizeBelow(|made|);
        made := made + [Desc(blockSize, Quot(PAGE - HEADER, blockSize))];
        blockSize := blockSize * 2;
      }
      SizeBelow(|made|);
      descs := made;
    }

    /** The smallest class that holds `size` bytes, or the number of classes. */
    method FindClass(size: nat) returns (k: nat)
      requires Valid()
      ensures k <= CLASSES && (k < CLASSES ==> Size(k) >= size) && forall j :: 0 <= j < k ==> Size(j) < size
    {
      k := 0;
      while k < CLASSES && descs[k].blockSize < size
        invariant k <= CLASSES && forall j :: 0 <= j < k ==> Size(j) < size
      {
        k := k + 1;
      }
    }

    /** A new arena: its blocks join the empty free list one by one. */
    method Carve(k: nat, p: nat)
      requires Valid() && k < CLASSES && free[k] == [] && PageFree(S(), p, 1)
      modifies `arenas, `free
      ensures S() == Carved(old(S()), k, p)
    {
      ghost var free0 := free;
      arenas := arenas[p := Small(k, descs[k].perArena)];
      var i := 0;
      while i < descs[k].perArena
        invariant 0 <= i <= PerArena(k) && |free| == CLASSES && free == free0[k := AllBlocks(p, i)]
        invariant arenas == old(arenas)[p := Small(k, PerArena(k))]
      {
        assert AllBlocks(p, i) + [Blk(p, i)] == AllBlocks(p, i + 1);
        free := free[k := free[k] + [Blk(p, i)]];
        i := i + 1;
      }
    }

    /** Make sure class `k` has a free block. */
    method Refill(k: nat, answer: Answer) returns (ok: bool, ghost full: set<nat>)
      requires Valid() && k < CLASSES && (answer.Pages? ==> PageFree(S(), answer.first, 1))
      modifies `arenas, `free
      ensures ok <==> old(free[k]) != [] || answer.Pages?
      ensures !ok ==> S() == old(S())
      ensures ok ==> arenas.Keys == if old(free[k]) == [] then old(arenas).Keys + {answer.first} else old(arenas).Keys
      ensures |free| == CLASSES && (old(free[k]) != [] ==> S() == old(S()))
      ensures ok && old(free[k]) == [] ==> free[k] != [] && free[k][0] == Blk(answer.first, 0)
      ensures ok ==> InvBut(S(), full) && free[k] != [] && full <= {free[k][0].page} && Extends(old(S()), S())
    {
      ok, full := true, {};
      if free[k] == [] {
        if answer.NoPages? { return false, {}; }
        CarveKeeps(S(), k, answer.first);
        SomeBlocks(k);
        Carve(k, answer.first);
        full := {answer.first};
      }
    }

    /** The head of a free list becomes live. */
    method Pop(k: nat, ghost full: set<nat>) returns (b: Blk)
      requires k < CLASSES && InvBut(S(), full) && free[k] != [] && full <= {free[k][0].page}
      modifies `arenas, `free, `live
      ensures Inv(S()) && live == old(live) + {b} && b !in old(live) && Extends(old(S()), S())
      ensures b.page in arenas && arenas[b.page].Small? && arenas[b.page].k == k && arenas.Keys == old(arenas).Keys
      ensures b == old(free[k][0]) && free == old(free)[k := old(free[k])[1..]]
    {
      PopKeeps(S(), k, full);
      HeadNotLive(S(), k, full);
      CanPop(S(), k, full);
      b := free[k][0];
      free := free[k := free[k][1..]];
      arenas := arenas[b.page := arenas[b.page].(freeCnt := arenas[b.page].freeCnt - 1)];
      live := live + {b};
      assert S() == Popped(old(S()), k);
    }

    /** A block of class `k`; null if a page was needed and there was none. */
    method MallocSmall(k: nat, answer: Answer) returns (p: nat, ghost b: Blk)
      requires Valid() && k < CLASSES && (answer.Pages? ==> PageFree(S(), answer.first, 1))
      modifies `arenas, `free, `live
      ensures Valid() && Extends(old(S()), S())
      ensures p == 0 <==> old(free[k]) == [] && answer.NoPages?
      ensures p == 0 ==> S() == old(S())
      ensures p != 0 ==> Granted(old(S()), S(), p, b) && Capacity(S(), b) == Size(k)
      ensures p != 0 ==> arenas.Keys == if old(free[k]) == [] then old(arenas).Keys + {answer.first} else old(arenas).Keys
      ensures p != 0 ==> b == if old(free[k]) == [] then Blk(answer.first, 0) else old(free[k][0])
      ensures old(free[k]) != [] ==> free == old(free)[k := old(free[k])[1..]]
    {
      p, b := 0, Blk(0, 0);
      ghost var full;
      var ok;
      ok, full := Refill(k, answer);
      if !ok { return; }
      var blk := Pop(k, full);
      b := blk;
      p := ArenaToBlock(blk.page, blk.idx, k);
    }

    /** arena_to_block. */
    method ArenaToBlock(page: nat, idx: nat, k: nat) returns (p: nat)
      requires k < |descs| && descs[k].blockSize == Size(k)
      requires page in arenas && arenas[page].Small? && arenas[page].k == k
      ensures p == Addr(S(), Blk(page, idx)) && p > 0
    {
      p := page * PAGE + HEADER + idx * descs[k].blockSize;
    }

    /** malloc. The block comes from the smallest class that holds the request, and a page is asked for only if that
        class has no free block; a larger request gets pages of its own. Null is returned exactly for no bytes, or when
        pages are needed and there are none. The block is big enough exactly when adding the header to the request does
        not wrap. */
    method Malloc(size: nat, answer: Answer) returns (p: nat, ghost b: Blk)
      requires Valid() && size < SIZE_LIMIT
      requires answer.Pages? ==> Wanted(size) > 0 && PageFree(S(), answer.first, Wanted(size))
      modifies `arenas, `free, `live
      ensures Valid() && Undisturbed(old(S()), S())
      ensures p == 0 <==> size == 0 || (answer.NoPages? && NeedsPages(old(S()), size))
      ensures p == 0 ==> S() == old(S())
      ensures p != 0 ==> Granted(old(S()), S(), p, b) && (Capacity(S(), b) >= size <==> size <= SIZE_LIMIT - HEADER)
      ensures p != 0 ==> FromClass(size, Capacity(S(), b))
      ensures p != 0 && !NeedsPages(old(S()), size) ==> TakesHead(old(S()), size, b)
      ensures p != 0 ==> arenas.Keys == if NeedsPages(old(S()), size) then old(arenas).Keys + {answer.first} else old(arenas).Keys
    {
      if size == 0 { return 0, Blk(0, 0); }
      ghost var h := S();
      var k := FindClass(size);
      WantedIs(size, k);
      ClassIs(h, size, k);
      if k < CLASSES {
        p, b := MallocSmall(k, answer);
      } else {
        p, b := MallocBig(size, answer);
      }
      StillThere(h, S());
    }

    /** A block goes to the front of its class's free list. */
    method Push(b: Blk)
      requires Inv(S()) && b in live && b.page in arenas && arenas[b.page].Small?
      modifies `arenas, `free, `live
      ensures InvBut(S(), {b.page}) && live == old(live) - {b} && Extends(old(S()), S())
      ensures b.page in arenas && arenas[b.page].Small? && arenas.Keys == old(arenas).Keys
      ensures var k := old(arenas)[b.page].k; k < |old(free)| && free == old(free)[k := [b] + old(free)[k]]
    {
      PushKeeps(S(), b);
      var a := arenas[b.page];
      free := free[a.k := [b] + free[a.k]];
      arenas := arenas[b.page := a.(freeCnt := a.freeCnt + 1)];
      live := live - {b};
      assert S() == Pushed(old(S()), b);
    }

    /** Take every block of an unused arena off its free list and return the page. */
    method Drop(page: nat)
      requires InvBut(S(), {page}) && page in arenas && arenas[page].Small? && arenas[page].freeCnt >= PerArena(arenas[page].k)
      modifies `arenas, `free
      ensures Inv(S()) && arenas == old(arenas) - {page} && forall b :: b in live ==> b.page != page
    {
      ghost var h := S();
      var k := arenas[page].k;
      DropKeeps(h, page);
      assert FreeOk(h, k);
      RemovedNone(free[k], page);
      var i := 0;
      while i < PerArena(k)
        invariant 0 <= i <= PerArena(k) && |free| == CLASSES && free == h.free[k := Removed(h.free[k], page, i)]
        invariant arenas == h.arenas && live == h.live
      {
        RemovedNext(h.free[k], page, i);
        free := free[k := RemoveOne(free[k], Blk(page, i))];
        i := i + 1;
      }
      arenas := arenas - {page};
      assert S() == Dropped(h, page);
    }

    method DropIfUnused(page: nat)
      requires InvBut(S(), {page}) && page in arenas && arenas[page].Small?
      modifies `arenas, `free
      ensures Inv(S()) && ((arenas == old(arenas) && free == old(free)) || (arenas == old(arenas) - {page} && forall b :: b in live ==> b.page != page))
    {
      var a := arenas[page];
      if a.freeCnt >= PerArena(a.k) { Drop(page); } else { NotFull(S(), page); }
    }

    method FreeSmall(b: Blk)
      requires Valid() && b in live && b.page in arenas && arenas[b.page].Small?
      modifies `arenas, `free, `live
      ensures Valid() && live == old(live) - {b} && Undisturbed(old(S()), S())
      ensures Returned(old(S()), b, S())
    {
      ghost var h := S();
      Push(b);
      ghost var h1 := S();
      DropIfUnused(b.page);
      StillHeld(h, h1, S(), b.page);
      ReturnedIs(h, b, S());
    }

    /** free, of null or of the address of a live block. */
    method Free(p: nat, ghost b: Blk)
      requires Valid() && (p != 0 ==> b in live && b.page in arenas && Addr(S(), b) == p)
      modifies `arenas, `free, `live
      ensures Valid() && Undisturbed(old(S()), S())
      ensures live == if p == 0 then old(live) else old(live) - {b}
      ensures if p == 0 then S() == old(S()) else Returned(old(S()), b, S())
    {
      if p == 0 { return; }
      AddrBack(S(), b);
      var page := p / PAGE;
      var a := arenas[page];
      if a.Small? {
        ClassInRange(S(), page);
        FreeSmall(Blk(page, Quot(p % PAGE - HEADER, descs[a.k].blockSize)));
      } else {
        BigDropKeeps(S(), page);
        BigAlone(S(), page);
        arenas := arenas - {page};
        live := live - {b};
      }
    }

    method MallocBig(size: nat, answer: Answer) returns (p: nat, ghost b: Blk)
      requires Valid() && size < SIZE_LIMIT
      requires answer.Pages? ==> BigPages(size) > 0 && PageFree(S(), answer.first, BigPages(size))
      modifies `arenas, `live
      ensures Valid() && Extends(old(S()), S())
      ensures p == 0 <==> answer.NoPages?
      ensures p == 0 ==> S() == old(S())
      ensures p != 0 ==> arenas.Keys == old(arenas).Keys + {answer.first}
      ensures p != 0 ==> Granted(old(S()), S(), p, b) && Capacity(S(), b) == BigPages(size) * PAGE - HEADER && BigPages(size) > 0
    {
      p, b := 0, Blk(0, 0);
      var n := ((size + HEADER) % SIZE_LIMIT + (PAGE - 1)) % SIZE_LIMIT / PAGE;
      if answer.NoPages? { return; }
      ghost var h := S();
      BigKeeps(h, answer.first, n);
      NothingThere(h, answer.first, n);
      arenas := arenas[answer.first := Big(n)];
      b := Blk(answer.first, 0);
      live := live + {b};
      assert S() == BigTaken(h, answer.first, n);
      p := answer.first * PAGE + HEADER;
    }
  }

  /** list_remove. */
  function RemoveOne(list: seq<Blk>, b: Blk): seq<Blk> {
    if list == [] then [] else if list[0] == b then list[1..] else [list[0]] + RemoveOne(list[1..], b)
  }

  lemma {:induction false} RemovedNone(list: seq<Blk>, p: nat)
    ensures Removed(list, p, 0) == list
  {
    if list != [] {
      RemovedNone(list[1..], p);
      assert list == [list[0]] + list[1..];
    }
  }

  lemma {:induction false} RemovedAbsent(list: seq<Blk>, p: nat, i: nat)
    requires Blk(p, i) !in list
    ensures Removed(list, p, i + 1) == Removed(list, p, i)
  {
    if list != [] { RemovedAbsent(list[1..], p, i); }
  }

  /** Removing the blocks of a page one after the other. */
  lemma {:induction false} RemovedNext(list: seq<Blk>, p: nat, i: nat)
    requires Distinct(list)
    ensures RemoveOne(Removed(list, p, i), Blk(p, i)) == Removed(list, p, i + 1)
  {
    if list != [] {
      TailMembers(list);
      if list[0] == Blk(p, i) {
        RemovedAbsent(list[1..], p, i);
      } else {
        RemovedNext(list[1..], p, i);
      }
    }
  }

  predicate SameKind(a: Arena, b: Arena) {
    match a { case Small(k, c) => b.Small? && b.k == k case Big(n) => b == a }
  }

  /** No arena has gone or changed its kind. */
  predicate Extends(h: State, h': State) {
    forall p :: p in h.arenas ==> p in h'.arenas && SameKind(h.arenas[p], h'.arenas[p])
  }

  /** Address `p` is a new live block `b`. */
  ghost predicate Granted(h: State, h': State, p: nat, b: Blk) {
    b !in h.live && h'.live == h.live + {b} && b.page in h'.arenas && Addr(h', b) == p
  }

  lemma NotFull(h: State, p: nat)
    requires InvBut(h, {p}) && p in h.arenas && h.arenas[p].Small? && h.arenas[p].freeCnt < PerArena(h.arenas[p].k)
    ensures Inv(h)
  {
    forall q | q in h.arenas ensures ArenaOk(h, q, {}) { assert ArenaOk(h, q, {p}); }
  }

  lemma ClassInRange(h: State, p: nat)
    requires Inv(h) && p in h.arenas && h.arenas[p].Small?
    ensures h.arenas[p].k < CLASSES
  {
  }

  /** The only block of a big arena is its first. */
  lemma BigAlone(h: State, p: nat)
    requires Inv(h) && p in h.arenas && h.arenas[p].Big?
    ensures forall b :: b in h.live && b.page == p ==> b == Blk(p, 0)
  {
  }

  /** Pages that malloc may ask for. */
  function Wanted(size: nat): nat { if size <= Size(CLASSES - 1) then 1 else BigPages(size) }

  /** Class `k` is the smallest that holds `size` bytes. */
  predicate Smallest(size: nat, k: nat) { k < CLASSES && size <= Size(k) && (k > 0 ==> Size(k - 1) < size) }

  /** Without a page the request cannot be met. */
  predicate NeedsPages(h: State, size: nat) {
    forall k :: 0 <= k < CLASSES && k < |h.free| && Smallest(size, k) ==> h.free[k] == []
  }

  /** The capacity that a block for `size` bytes has. */
  predicate FromClass(size: nat, capacity: int) {
    if size <= Size(CLASSES - 1) then exists k :: 0 <= k < CLASSES && Smallest(size, k) && capacity == Size(k)
    else capacity == BigPages(size) * PAGE - HEADER
  }

  /** The block is the first on the free list of its class. */
  predicate TakesHead(h: State, size: nat, b: Blk) {
    exists k :: 0 <= k < CLASSES && k < |h.free| && Smallest(size, k) && h.free[k] != [] && b == h.free[k][0]
  }

  lemma ClassIs(h: State, size: nat, k: nat)
    requires |h.free| == CLASSES && k <= CLASSES && (k < CLASSES ==> Size(k) >= size) && forall j :: 0 <= j < k ==> Size(j) < size
    ensures k < CLASSES ==> Smallest(size, k) && size <= Size(CLASSES - 1) && (NeedsPages(h, size) <==> h.free[k] == [])
    ensures k == CLASSES ==> size > Size(CLASSES - 1) && NeedsPages(h, size)
  {
    if k < CLASSES { SizeMono(k, CLASSES - 1); }
    forall j | 0 <= j < CLASSES && Smallest(size, j) ensures j == k {
      if j > k { SizeMono(k, j - 1); }
    }
  }

  lemma WantedIs(size: nat, k: nat)
    requires size > 0 && k <= CLASSES && (k < CLASSES ==> Size(k) >= size) && forall j :: 0 <= j < k ==> Size(j) < size
    ensures Wanted(size) == if k < CLASSES then 1 else BigPages(size)
    ensures k < CLASSES ==> size <= SIZE_LIMIT - HEADER
    ensures BigPages(size) > 0 && size < SIZE_LIMIT ==> (BigPages(size) * PAGE - HEADER >= size <==> size <= SIZE_LIMIT - HEADER)
  {
    if k < CLASSES {
      SizeMono(k, CLASSES - 1);
      SizeBelow(CLASSES - 1);
    }
    if BigPages(size) > 0 && size < SIZE_LIMIT { BigPagesEnough(size); }
  }

  lemma NothingThere(h: State, p: nat, n: nat)
    requires Inv(h) && PageFree(h, p, n) && n >= 1
    ensures p !in h.arenas && Blk(p, 0) !in h.live
  {
  }

  lemma HeadNotLive(h: State, k: nat, full: set<nat>)
    requires InvBut(h, full) && k < CLASSES && h.free[k] != []
    ensures h.free[k][0] !in h.live
  {
    CanPop(h, k, full);
    var b := h.free[k][0];
    assert b in h.free[k] && ArenaOk(h, b.page, full);
  }

  lemma SomeBlocks(k: nat)
    requires k < CLASSES
    ensures PerArena(k) > 0
  {
    SizeBelow(k);
  }

  /** Dropping a page without live blocks disturbs nobody. */
  lemma StillHeld(h: State, h1: State, h2: State, page: nat)
    requires Inv(h) && Extends(h, h1) && h2.live == h1.live
    requires h2.arenas == h1.arenas || (h2.arenas == h1.arenas - {page} && forall b :: b in h2.live ==> b.page != page)
    ensures Undisturbed(h, h2)
  {
  }

  lemma StillThere(h: State, h': State)
    requires Inv(h) && Extends(h, h')
    ensures Undisturbed(h, h')
  {
  }

  /** The seven sizes 16, 32, ..., 1024 are those below half a page. */
  lemma SizeBelow(k: nat)
    ensures Size(k) < PAGE / 2 <==> k < CLASSES
  {
    SizeMono(CLASSES, k);
    SizeMono(k, CLASSES - 1);
    assert Size(3) == 128 && Size(5) == 512 && Size(6) == 1024 && Size(7) == 2048;
  }

  lemma {:induction false} SizeMono(a: nat, b: nat)
    ensures a <= b ==> Size(a) <= Size(b)
    decreases b
  {
    if a < b { SizeMono(a, b - 1); }
  }
}
