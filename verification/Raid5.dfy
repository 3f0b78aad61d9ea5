/** RAID 5: where sectors and parity live, and that parity survives every sequence of writes. */
module Raid5 {
  import opened Division

  const SECTOR_BYTES: nat := 512

  type Block = b: seq<bv8> | |b| == SECTOR_BYTES witness seq(SECTOR_BYTES, i => 0)

  /** One member disk: a block per row. */
  type Disk = seq<Block>

  // ---------------------------------------------------------------- layout

  function Row(n: nat, sector: nat): nat
    requires n >= 2
  {
    Quot(sector, n - 1)
  }

  /** raid5_parity_disk: parity rotates backwards from the last disk. */
  function ParityDisk(n: nat, row: nat): nat
    requires n >= 1
  {
    var r := Rem(row, n);
    QuotBounds(row, n);
    n - 1 - r
  }

  /** The data position `pos` of a row, with the parity disk skipped. */
  function SkipParity(parity: nat, pos: nat): nat { if pos < parity then pos else pos + 1 }

  function DataDisk(n: nat, sector: nat): nat
    requires n >= 2
  {
    SkipParity(ParityDisk(n, Row(n, sector)), Rem(sector, n - 1))
  }

  /** raid5_data_disk, as the source finds it. */
  method FindDataDisk(n: nat, sector: nat) returns (disk: nat)
    requires n >= 2
    ensures disk == DataDisk(n, sector)
  {
    var pos, parity := Rem(sector, n - 1), ParityDisk(n, Quot(sector, n - 1));
    QuotBounds(sector, n - 1);
    disk := 0;
    var d, cnt := 0, 0;
    while d < n
      invariant 0 <= d <= n && 0 <= cnt <= pos && d == if cnt < parity then cnt else if cnt == parity && d == parity then cnt else cnt + 1
      decreases n - d
    {
      if d != parity {
        if cnt == pos {
          disk := d;
          return;
        }
        cnt := cnt + 1;
      }
      d := d + 1;
    }
  }

  /** The logical sector stored in a data cell. */
  function SectorAt(n: nat, row: nat, disk: nat): nat
    requires n >= 2
  {
    row * (n - 1) + (if disk < ParityDisk(n, row) then disk else if disk == 0 then 0 else disk - 1)
  }

  lemma LayoutOf(n: nat, sector: nat)
    requires n >= 2
    ensures DataDisk(n, sector) < n && DataDisk(n, sector) != ParityDisk(n, Row(n, sector))
    ensures SectorAt(n, Row(n, sector), DataDisk(n, sector)) == sector
  {
    QuotBounds(sector, n - 1);
  }

  /** Every cell that is not a parity cell holds exactly one logical sector. */
  lemma LayoutBack(n: nat, row: nat, disk: nat)
    requires n >= 2 && disk < n && disk != ParityDisk(n, row)
    ensures Row(n, SectorAt(n, row, disk)) == row && DataDisk(n, SectorAt(n, row, disk)) == disk
  {
    var pos := if disk < ParityDisk(n, row) then disk else disk - 1;
    QuotOf(row, n - 1, pos);
  }

  /** Row 0 has its parity on the last disk. */
  lemma ParityFirst(n: nat)
    requires n >= 1
    ensures ParityDisk(n, 0) == n - 1
  {
    QuotOf(0, n, 0);
  }

  /** The next row has it one disk further down, and after disk 0 it starts at the last disk again. */
  lemma ParityNext(n: nat, row: nat)
    requires n >= 1
    ensures ParityDisk(n, row) < n
    ensures ParityDisk(n, row + 1) == if ParityDisk(n, row) == 0 then n - 1 else ParityDisk(n, row) - 1
  {
    QuotBounds(row, n);
    var q, r := Quot(row, n), Rem(row, n);
    if r + 1 < n {
      QuotOf(q, n, r + 1);
    } else {
      QuotOf(q + 1, n, 0);
      assert (q + 1) * n == q * n + n;
    }
  }

  lemma {:induction false} ParityAfter(n: nat, row: nat, i: nat)
    requires n >= 1 && i < n
    ensures ParityDisk(n, row) < n
    ensures ParityDisk(n, row + i) == if i <= ParityDisk(n, row) then ParityDisk(n, row) - i else ParityDisk(n, row) + n - i
  {
    ParityNext(n, row);
    if i > 0 {
      ParityAfter(n, row, i - 1);
      ParityNext(n, row + i - 1);
    }
  }

  /** Any `n` consecutive rows have their parity on each disk exactly once. */
  lemma ParityRotates(n: nat, row: nat, disk: nat) returns (at: nat)
    requires n >= 1 && disk < n
    ensures row <= at < row + n && ParityDisk(n, at) == disk
    ensures forall r: nat :: row <= r < row + n && ParityDisk(n, r) == disk ==> r == at
  {
    ParityNext(n, row);
    var p := ParityDisk(n, row);
    at := if disk <= p then row + p - disk else row + p + n - disk;
    ParityAfter(n, row, at - row);
    forall r: nat | row <= r < row + n && ParityDisk(n, r) == disk ensures r == at { ParityAfter(n, row, r - row); }
  }

  /** A row holds n - 1 consecutive sectors, on its other disks in ascending order. */
  lemma RowAscends(n: nat, row: nat, pos: nat)
    requires n >= 2 && pos < n - 1
    ensures Row(n, row * (n - 1) + pos) == row
    ensures pos + 1 < n - 1 ==> DataDisk(n, row * (n - 1) + pos) < DataDisk(n, row * (n - 1) + pos + 1)
  {
    QuotOf(row, n - 1, pos);
    if pos + 1 < n - 1 {
      QuotOf(row, n - 1, pos + 1);
    }
  }

  /** A sector is within the array's capacity exactly when its row is on the disks. */
  lemma RowInRange(n: nat, rows: nat, sector: nat)
    requires n >= 2
    ensures sector < (n - 1) * rows <==> Row(n, sector) < rows
  {
    QuotBounds(sector, n - 1);
    var q := Row(n, sector);
    Commute(n - 1, rows);
    if q < rows { MulLe(q + 1, rows, n - 1); } else { MulLe(rows, q, n - 1); }
  }

  // ---------------------------------------------------------------- parity

  function Fold(xs: seq<bv8>): bv8 { if xs == [] then 0 else Fold(xs[..|xs| - 1]) ^ xs[|xs| - 1] }

  lemma {:induction false} FoldUpdate(xs: seq<bv8>, i: nat, y: bv8)
    requires i < |xs|
    ensures Fold(xs[i := y]) == Fold(xs) ^ xs[i] ^ y
  {
    var n := |xs| - 1;
    if i == n {
      assert xs[i := y][..n] == xs[..n];
    } else {
      FoldUpdate(xs[..n], i, y);
      assert xs[i := y][..n] == xs[..n][i := y];
    }
  }

  lemma {:induction false} FoldAppend(xs: seq<bv8>, ys: seq<bv8>)
    ensures Fold(xs + ys) == Fold(xs) ^ Fold(ys)
  {
    if ys == [] {
      assert xs + ys == xs;
    } else {
      var n := |ys| - 1;
      assert (xs + ys)[..|xs + ys| - 1] == xs + ys[..n];
      FoldAppend(xs, ys[..n]);
    }
  }

  /** Changing one member and its parity together keeps the fold. */
  lemma ReadModifyWrite(xs: seq<bv8>, i: nat, p: nat, y: bv8)
    requires i < |xs| && p < |xs| && i != p
    ensures Fold(xs[i := y][p := xs[p] ^ xs[i] ^ y]) == Fold(xs)
  {
    FoldUpdate(xs, i, y);
    FoldUpdate(xs[i := y], p, xs[p] ^ xs[i] ^ y);
  }

  function Without<T>(xs: seq<T>, i: nat): seq<T>
    requires i < |xs|
  {
    xs[..i] + xs[i + 1..]
  }

  /** With parity consistent, any member is the fold of the others. */
  lemma Recover(xs: seq<bv8>, i: nat)
    requires i < |xs| && Fold(xs) == 0
    ensures xs[i] == Fold(Without(xs, i))
  {
    assert xs == xs[..i] + ([xs[i]] + xs[i + 1..]);
    FoldAppend(xs[..i], [xs[i]] + xs[i + 1..]);
    FoldAppend([xs[i]], xs[i + 1..]);
    FoldAppend(xs[..i], xs[i + 1..]);
    assert Fold([xs[i]]) == xs[i];
  }

  predicate Shape(disks: seq<Disk>, rows: nat) {
    |disks| >= 3 && forall d :: 0 <= d < |disks| ==> |disks[d]| == rows
  }

  /** Byte `j` of every disk in one row. */
  function Column(blocks: seq<Block>, j: nat): (c: seq<bv8>)
    requires j < SECTOR_BYTES
    ensures |c| == |blocks| && forall d :: 0 <= d < |c| ==> c[d] == blocks[d][j]
  {
    seq(|blocks|, d requires 0 <= d < |blocks| => blocks[d][j])
  }

  function RowOf(disks: seq<Disk>, rows: nat, row: nat): (r: seq<Block>)
    requires Shape(disks, rows) && row < rows
    ensures |r| == |disks| && forall d :: 0 <= d < |r| ==> r[d] == disks[d][row]
  {
    seq(|disks|, d requires 0 <= d < |disks| => disks[d][row])
  }

  predicate Balanced(blocks: seq<Block>) { forall j :: 0 <= j < SECTOR_BYTES ==> Fold(Column(blocks, j)) == 0 }

  /** Every row folds to zero. */
  ghost predicate Consistent(disks: seq<Disk>, rows: nat) {
    Shape(disks, rows) && forall row :: 0 <= row < rows ==> Balanced(RowOf(disks, rows, row))
  }

  // ---------------------------------------------------------------- reading and writing

  /** The sector exists on an array of this shape. */
  predicate InArray(disks: seq<Disk>, rows: nat, sector: nat) {
    Shape(disks, rows) && sector < (|disks| - 1) * rows
  }

  /** The capacity is that of all disks but one. */
  lemma CapacityExact(disks: seq<Disk>, rows: nat, sector: nat)
    requires Shape(disks, rows)
    ensures InArray(disks, rows, sector) <==> Row(|disks|, sector) < rows
  {
    RowInRange(|disks|, rows, sector);
  }

  lemma Cells(disks: seq<Disk>, rows: nat, sector: nat)
    requires InArray(disks, rows, sector)
    ensures var n := |disks|;
      Row(n, sector) < rows && DataDisk(n, sector) < n && ParityDisk(n, Row(n, sector)) < n && DataDisk(n, sector) != ParityDisk(n, Row(n, sector))
  {
    RowInRange(|disks|, rows, sector);
    LayoutOf(|disks|, sector);
  }

  function ReadSector(disks: seq<Disk>, rows: nat, sector: nat): Block
    requires InArray(disks, rows, sector)
  {
    Cells(disks, rows, sector);
    disks[DataDisk(|disks|, sector)][Row(|disks|, sector)]
  }

  function XorThree(p: Block, x: Block, y: Block): Block {
    seq(SECTOR_BYTES, j requires 0 <= j < SECTOR_BYTES => p[j] ^ x[j] ^ y[j])
  }

  function SetCell(disks: seq<Disk>, rows: nat, d: nat, row: nat, b: Block): (r: seq<Disk>)
    requires Shape(disks, rows) && d < |disks| && row < rows
    ensures Shape(r, rows) && |r| == |disks|
  {
    var disk: Disk := disks[d];
    var changed: Disk := disk[row := b];
    disks[d := changed]
  }

  /** raid_write for level 5: new data, and parity changed by old data and new data. */
  function Written(disks: seq<Disk>, rows: nat, sector: nat, data: Block): (r: seq<Disk>)
    requires InArray(disks, rows, sector)
    ensures Shape(r, rows) && |r| == |disks|
  {
    Cells(disks, rows, sector);
    var row := Row(|disks|, sector);
    var d, p := DataDisk(|disks|, sector), ParityDisk(|disks|, row);
    SetCell(SetCell(disks, rows, d, row, data), rows, p, row, XorThree(disks[p][row], disks[d][row], data))
  }

  function RowWritten(blocks: seq<Block>, d: nat, p: nat, data: Block): (r: seq<Block>)
    requires d < |blocks| && p < |blocks|
    ensures |r| == |blocks|
  {
    var parity := XorThree(blocks[p], blocks[d], data);
    seq(|blocks|, i requires 0 <= i < |blocks| => if i == p then parity else if i == d then data else blocks[i])
  }

  lemma ColumnWritten(blocks: seq<Block>, d: nat, p: nat, data: Block, j: nat)
    requires d < |blocks| && p < |blocks| && d != p && j < SECTOR_BYTES
    ensures var xs := Column(blocks, j);
      Column(RowWritten(blocks, d, p, data), j) == xs[d := data[j]][p := xs[p] ^ xs[d] ^ data[j]]
  {
  }

  lemma BalancedWrite(blocks: seq<Block>, d: nat, p: nat, data: Block)
    requires Balanced(blocks) && d < |blocks| && p < |blocks| && d != p
    ensures Balanced(RowWritten(blocks, d, p, data))
  {
    forall j | 0 <= j < SECTOR_BYTES ensures Fold(Column(RowWritten(blocks, d, p, data), j)) == 0 {
      ReadModifyWrite(Column(blocks, j), d, p, data[j]);
      ColumnWritten(blocks, d, p, data, j);
    }
  }

  /** A write keeps every row's parity. */
  lemma WrittenConsistent(disks: seq<Disk>, rows: nat, sector: nat, data: Block)
    requires Consistent(disks, rows) && InArray(disks, rows, sector)
    ensures Consistent(Written(disks, rows, sector, data), rows)
  {
    Cells(disks, rows, sector);
    var disks' := Written(disks, rows, sector, data);
    var row := Row(|disks|, sector);
    var d, p := DataDisk(|disks|, sector), ParityDisk(|disks|, row);
    forall r | 0 <= r < rows ensures Balanced(RowOf(disks', rows, r)) {
      var before := RowOf(disks, rows, r);
      assert Balanced(before);
      if r == row {
        BalancedWrite(before, d, p, data);
        assert RowOf(disks', rows, r) == RowWritten(before, d, p, data);
      } else {
        assert RowOf(disks', rows, r) == before;
      }
    }
  }

  /** A write is seen by reads of its own sector and by no others. */
  lemma WrittenReads(disks: seq<Disk>, rows: nat, sector: nat, data: Block, other: nat)
    requires InArray(disks, rows, sector) && InArray(disks, rows, other)
    ensures ReadSector(Written(disks, rows, sector, data), rows, other) == if other == sector then data else ReadSector(disks, rows, other)
  {
    Cells(disks, rows, sector);
    Cells(disks, rows, other);
    LayoutOf(|disks|, sector);
    LayoutOf(|disks|, other);
  }

  // ---------------------------------------------------------------- sequences of writes

  datatype Request = Request(sector: nat, data: Block)

  predicate AllInArray(disks: seq<Disk>, rows: nat, ws: seq<Request>) {
    Shape(disks, rows) && forall i :: 0 <= i < |ws| ==> InArray(disks, rows, ws[i].sector)
  }

  function After(disks: seq<Disk>, rows: nat, ws: seq<Request>): (r: seq<Disk>)
    requires AllInArray(disks, rows, ws)
    ensures Shape(r, rows) && |r| == |disks|
  {
    if ws == [] then disks
    else
      var k := |ws| - 1;
      Written(After(disks, rows, ws[..k]), rows, ws[k].sector, ws[k].data)
  }

  /** The last data written to a sector, or `d` if there was none. */
  function LastWrite(ws: seq<Request>, sector: nat, d: Block): Block {
    if ws == [] then d
    else if ws[|ws| - 1].sector == sector then ws[|ws| - 1].data
    else LastWrite(ws[..|ws| - 1], sector, d)
  }

  /** After any sequence of writes to a consistent array, every row still balances and every sector reads as its
      last write. */
  lemma {:induction false} WritesKeep(disks: seq<Disk>, rows: nat, ws: seq<Request>, sector: nat)
    requires Consistent(disks, rows) && AllInArray(disks, rows, ws) && InArray(disks, rows, sector)
    ensures Consistent(After(disks, rows, ws), rows)
    ensures ReadSector(After(disks, rows, ws), rows, sector) == LastWrite(ws, sector, ReadSector(disks, rows, sector))
  {
    if ws != [] {
      var k := |ws| - 1;
      WritesKeep(disks, rows, ws[..k], sector);
      var before := After(disks, rows, ws[..k]);
      WrittenConsistent(before, rows, ws[k].sector, ws[k].data);
      WrittenReads(before, rows, ws[k].sector, ws[k].data, sector);
    }
  }

  /** Any one disk can be rebuilt, row by row, from the others. */
  lemma Rebuild(disks: seq<Disk>, rows: nat, row: nat, lost: nat, j: nat)
    requires Consistent(disks, rows) && row < rows && lost < |disks| && j < SECTOR_BYTES
    ensures disks[lost][row][j] == Fold(Column(Without(RowOf(disks, rows, row), lost), j))
  {
    var blocks := RowOf(disks, rows, row);
    assert Balanced(blocks);
    Recover(Column(blocks, j), lost);
    assert Column(Without(blocks, lost), j) == Without(Column(blocks, j), lost);
  }

  // ---------------------------------------------------------------- the routines

  class Array5 {
    const rows: nat
    var disks: seq<Disk>

    constructor (members: seq<Disk>, height: nat)
      requires Shape(members, height)
      ensures disks == members && rows == height
    {
      rows, disks := height, members;
    }

    /** raid_read. */
    method Read(sector: nat) returns (buffer: Block)
      requires InArray(disks, rows, sector)
      ensures buffer == ReadSector(disks, rows, sector)
    {
      Cells(disks, rows, sector);
      var disk := FindDataDisk(|disks|, sector);
      buffer := disks[disk][Row(|disks|, sector)];
    }

    /** raid_write: the new parity is computed byte by byte before either disk is written. */
    method Write(sector: nat, data: Block)
      requires InArray(disks, rows, sector)
      modifies this
      ensures disks == Written(old(disks), rows, sector, data)
    {
      Cells(disks, rows, sector);
      var d := FindDataDisk(|disks|, sector);
      var row := Row(|disks|, sector);
      var p := ParityDisk(|disks|, row);
      var oldData, oldParity := disks[d][row], disks[p][row];
      var newParity := new bv8[SECTOR_BYTES];
      for i := 0 to SECTOR_BYTES
        invariant disks == old(disks)
        invariant forall j :: 0 <= j < i ==> newParity[j] == oldParity[j] ^ oldData[j] ^ data[j]
      {
        newParity[i] := oldParity[i] ^ oldData[i] ^ data[i];
      }
      var parity: Block := newParity[..];
      assert parity == XorThree(oldParity, oldData, data);
      disks := SetCell(disks, rows, d, row, data);
      disks := SetCell(disks, rows, p, row, parity);
    }
  }

  method XorInto(acc: array<bv8>, block: Block)
    requires acc.Length == SECTOR_BYTES
    modifies acc
    ensures forall j :: 0 <= j < SECTOR_BYTES ==> acc[j] == old(acc[j]) ^ block[j]
  {
    for j := 0 to SECTOR_BYTES
      invariant forall k :: 0 <= k < j ==> acc[k] == old(acc[k]) ^ block[k]
      invariant forall k :: j <= k < SECTOR_BYTES ==> acc[k] == old(acc[k])
    {
      acc[j] := acc[j] ^ block[j];
    }
  }

  lemma FoldNext(data: seq<Block>, i: nat, k: nat)
    requires i < |data| && k < SECTOR_BYTES
    ensures Fold(Column(data[..i + 1], k)) == Fold(Column(data[..i], k)) ^ data[i][k]
  {
    assert Column(data[..i + 1], k)[..i] == Column(data[..i], k);
  }

  /** raid5_compute_parity: the fold of each byte over all buffers. */
  method ComputeParity(data: seq<Block>) returns (parity: Block)
    ensures forall j :: 0 <= j < SECTOR_BYTES ==> parity[j] == Fold(Column(data, j))
  {
    var acc := new bv8[SECTOR_BYTES](i => 0);
    for i := 0 to |data|
      invariant forall j :: 0 <= j < SECTOR_BYTES ==> acc[j] == Fold(Column(data[..i], j))
    {
      XorInto(acc, data[i]);
      forall k | 0 <= k < SECTOR_BYTES ensures acc[k] == Fold(Column(data[..i + 1], k)) { FoldNext(data, i, k); }
    }
    assert data[..|data|] == data;
    parity := acc[..];
  }

  /** The lost block of a row is the computed parity of the surviving ones. */
  method RebuildBlock(disks: seq<Disk>, rows: nat, row: nat, lost: nat) returns (b: Block)
    requires Consistent(disks, rows) && row < rows && lost < |disks|
    ensures b == disks[lost][row]
  {
    b := ComputeParity(Without(RowOf(disks, rows, row), lost));
    forall j | 0 <= j < SECTOR_BYTES ensures b[j] == disks[lost][row][j] { Rebuild(disks, rows, row, lost, j); }
  }
}
