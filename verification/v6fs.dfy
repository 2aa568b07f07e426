/**
 * The read-only Unix V6 file-system driver: superblock validation, inode
 * placement and decoding, logical-to-physical block mapping for small and
 * large files, reading a byte range of a file, and looking a name up in a
 * directory.
 *
 * The block device is a parameter `disk`: block number -> its 512 bytes.
 * All multi-byte fields are little-endian, as on the x86 target.
 */
module V6fs {
  import opened CTypes
  import opened BlkDev
  import opened CStrings

  /** Block holding the superblock. */
  const SUPERBLK := 1
  /** Capacity of each in-superblock free list. */
  const NFREE_MAX := 100
  /** Byte offsets of the superblock fields the driver checks. */
  const SUPER_NFREE_OFF := 4
  const SUPER_INO_NFREE_OFF := 206

  const I_ALLOC: bv16 := 0x8000
  const I_DIR: bv16 := 0x4000
  const I_LARGE: bv16 := 0x1000

  /** On-disk inodes are 32 bytes, 16 to a block; inode numbers start at 1. */
  const INODE_SIZE := 32
  const INODES_PER_BLOCK := 16
  const ROOT_INO := 1
  /** Number of block addresses held in an inode. */
  const NADDR := 8
  /** Number of 16-bit block numbers in one indirect block. */
  const PTRS_PER_BLOCK := 256
  /** The address slot of a large file used as the double-indirect block. */
  const DOUBLE_SLOT := 7
  /** A file size is 24 bits (size0:size1), so at most this many logical blocks. */
  const MAX_SIZE := 0x100_0000
  const MAX_VNO := 0x8000

  /** Directory entries: a 16-bit inode number followed by a 14-byte name. */
  const DENT_SIZE := 16
  const DENTOP_GET := 0

  // ---------------------------------------------------------------------------
  // Superblock and mount
  // ---------------------------------------------------------------------------

  /** The superblock fields the driver inspects. */
  datatype Super = Super(inoBlocks: int, stoBlocks: int, stoNfree: int, inoNfree: int)

  function ParseSuper(blk: seq<u8>): Super
    requires |blk| == BLOCKSIZE
  {
    Super(Le16(blk, 0), Le16(blk, 2), Le16(blk, SUPER_NFREE_OFF), Le16(blk, SUPER_INO_NFREE_OFF))
  }

  /** A superblock is usable when both regions are non-empty and both free lists fit. */
  predicate IsValidSuper(s: Super) {
    !(s.inoBlocks == 0 || s.stoBlocks == 0) && !(s.inoNfree > NFREE_MAX || s.stoNfree > NFREE_MAX)
  }

  /**
   * Mounting reads block 1 and refuses an invalid superblock.  A mounted
   * superblock has non-empty inode and storage regions and free counts
   * that index within the 100-entry free lists.
   */
  function Mount(disk: int -> seq<u8>): (r: Option<Super>)
    requires DiskOk(disk)
    ensures r.None? <==> !IsValidSuper(ParseSuper(disk(SUPERBLK)))
    ensures r.Some? ==> r.value == ParseSuper(disk(SUPERBLK))
    ensures r.Some? ==> 0 < r.value.inoBlocks && 0 < r.value.stoBlocks
    ensures r.Some? ==> r.value.inoNfree <= NFREE_MAX && r.value.stoNfree <= NFREE_MAX
  {
    var s := ParseSuper(disk(SUPERBLK));
    if IsValidSuper(s) then Some(s) else None
  }

  // ---------------------------------------------------------------------------
  // Inodes
  // ---------------------------------------------------------------------------

  /** Block holding inode n (the 32-bit sum n+31 wraps). */
  function InodeBlock(n: int): int
    requires 0 <= n < U32_LIMIT
  {
    Wrap32(n + 31) / INODES_PER_BLOCK
  }

  /** Slot of inode n within its block. */
  function InodeSlot(n: int): (slot: int)
    requires 0 <= n < U32_LIMIT
    ensures 0 <= slot < INODES_PER_BLOCK
  {
    Wrap32(n + 31) % INODES_PER_BLOCK
  }

  /**
   * Inode 1 is the first slot of block 2, just past the boot block and the
   * superblock, and inodes are numbered consecutively from there.
   */
  lemma InodePlacement(n: int)
    requires 1 <= n < U32_LIMIT - 31
    ensures InodeBlock(n) * INODES_PER_BLOCK + InodeSlot(n) == n + 31
    ensures InodeBlock(n) >= SUPERBLK + 1
    ensures n == ROOT_INO ==> InodeBlock(n) == 2 && InodeSlot(n) == 0
  {
    assert Wrap32(n + 31) == n + 31;
  }

  /** Different inodes (below the wrap) occupy different on-disk slots. */
  lemma {:induction false} InodePlacementInjective(n: int, m: int)
    requires 1 <= n < U32_LIMIT - 31 && 1 <= m < U32_LIMIT - 31 && n != m
    ensures InodeBlock(n) != InodeBlock(m) || InodeSlot(n) != InodeSlot(m)
  {
    InodePlacement(n);
    InodePlacement(m);
  }

  /**
   * The 24-bit file size assembled from its high byte and low word; the
   * shift-and-or of two disjoint bit ranges is a sum.
   */
  function InodeSize(size0: u8, size1: int): (r: int)
    requires 0 <= size1 < U16_LIMIT
    ensures 0 <= r < MAX_SIZE
    ensures r / U16_LIMIT == size0 as int && r % U16_LIMIT == size1
  {
    size0 as int * U16_LIMIT + size1
  }

  /** The in-memory inode: number, mode word, size and the eight block addresses. */
  datatype Inode = Inode(no: int, mode: int, size: int, blkno: seq<int>)

  /**
   * What getinode produces for inode n: the fields of the 32-byte record
   * at its slot (mode at byte 0, size0 at 5, size1 at 6, addresses from 8).
   */
  function InodeAt(disk: int -> seq<u8>, n: int): (ino: Inode)
    requires DiskOk(disk) && 0 <= n < U32_LIMIT
    ensures ino.no == n && 0 <= ino.mode < U16_LIMIT && 0 <= ino.size < MAX_SIZE
    ensures |ino.blkno| == NADDR && forall i :: 0 <= i < NADDR ==> 0 <= ino.blkno[i] < U16_LIMIT
  {
    var blk := disk(InodeBlock(n));
    var base := INODE_SIZE * InodeSlot(n);
    Inode(n, Le16(blk, base), InodeSize(blk[base + 5], Le16(blk, base + 6)),
          seq(NADDR, i requires 0 <= i < NADDR => Le16(blk, base + 8 + 2 * i)))
  }

  /** getinode: decode inode n, copying its block addresses one by one. */
  method GetInode(disk: int -> seq<u8>, n: int) returns (ino: Inode)
    requires DiskOk(disk) && 0 <= n < U32_LIMIT
    ensures ino == InodeAt(disk, n)
  {
    var blk := disk(InodeBlock(n));
    var base := INODE_SIZE * InodeSlot(n);
    var blkno: seq<int> := [];
    var i := 0;
    while i < NADDR
      invariant 0 <= i <= NADDR && |blkno| == i
      invariant forall j :: 0 <= j < i ==> blkno[j] == Le16(blk, base + 8 + 2 * j)
    {
      blkno := blkno + [Le16(blk, base + 8 + 2 * i)];
      i := i + 1;
    }
    ino := Inode(n, Le16(blk, base), InodeSize(blk[base + 5], Le16(blk, base + 6)), blkno);
  }

  function HasFlag(mode: int, flag: bv16): bool
    requires 0 <= mode < U16_LIMIT
  {
    (mode as bv16) & flag != 0
  }

  predicate IsLarge(ino: Inode)
    requires 0 <= ino.mode < U16_LIMIT
  {
    HasFlag(ino.mode, I_LARGE)
  }

  /** An allocated directory: the only kind of inode a lookup searches. */
  predicate IsDirectory(ino: Inode)
    requires 0 <= ino.mode < U16_LIMIT
  {
    HasFlag(ino.mode, I_ALLOC) && HasFlag(ino.mode, I_DIR)
  }

  /**
   * An inode the block mapping can serve: decoded fields in range, and a
   * small file no longer than its eight direct blocks.
   */
  predicate InodeOk(ino: Inode) {
    0 <= ino.mode < U16_LIMIT && 0 <= ino.size < MAX_SIZE
    && |ino.blkno| == NADDR && (forall i :: 0 <= i < NADDR ==> 0 <= ino.blkno[i] < U16_LIMIT)
    && (!IsLarge(ino) ==> ino.size <= NADDR * BLOCKSIZE)
  }

  // ---------------------------------------------------------------------------
  // Logical to physical block numbers
  // ---------------------------------------------------------------------------

  /**
   * Where a logical block's number is found: directly in an address slot,
   * at an entry of an indirect block named by a slot, or at an entry of a
   * block named by an entry of the double-indirect block (slot 7).
   */
  datatype BlockRef = Direct(slot: nat) | Indirect(slot: nat, entry: nat) | DoubleIndirect(entry1: nat, entry2: nat)

  predicate RefOk(r: BlockRef) {
    match r
    case Direct(s) => s < NADDR
    case Indirect(s, e) => s < DOUBLE_SLOT && e < PTRS_PER_BLOCK
    case DoubleIndirect(e1, e2) => e1 < PTRS_PER_BLOCK && e2 < PTRS_PER_BLOCK
  }

  /** Which indirect block covers logical block vno. */
  function IndirIndex(vno: nat): (q: nat)
    ensures PTRS_PER_BLOCK * q <= vno < PTRS_PER_BLOCK * q + PTRS_PER_BLOCK
  {
    vno / PTRS_PER_BLOCK
  }

  /** Which entry of its indirect block holds logical block vno. */
  function EntryIndex(vno: nat): (e: nat)
    ensures e < PTRS_PER_BLOCK && vno == PTRS_PER_BLOCK * IndirIndex(vno) + e
  {
    vno % PTRS_PER_BLOCK
  }

  /**
   * The lookup path of blkno_vtop as written: the double-indirect case
   * splits the indirect index vno/256 - 7 again by 256 and never uses
   * vno % 256.
   */
  function VtopRefAsWritten(large: bool, vno: nat): BlockRef {
    if !large then Direct(vno)
    else if IndirIndex(vno) <= 6 then Indirect(IndirIndex(vno), EntryIndex(vno))
    else DoubleIndirect((IndirIndex(vno) - DOUBLE_SLOT) / PTRS_PER_BLOCK,
                        (IndirIndex(vno) - DOUBLE_SLOT) % PTRS_PER_BLOCK)
  }

  /**
   * The V6 large-file scheme: a logical block past the seven indirect
   * blocks is entry vno % 256 of the block named by entry vno/256 - 7 of
   * the double-indirect block.
   */
  function VtopRef(large: bool, vno: nat): (r: BlockRef)
    requires large || vno < NADDR
    requires vno < MAX_VNO
    ensures RefOk(r)
  {
    if !large then Direct(vno)
    else if IndirIndex(vno) <= 6 then Indirect(IndirIndex(vno), EntryIndex(vno))
    else DoubleIndirect(IndirIndex(vno) - DOUBLE_SLOT, EntryIndex(vno))
  }

  /** Each logical block of a file has its own place in the mapping. */
  lemma VtopRefInjective(large: bool, v: nat, w: nat)
    requires (large || (v < NADDR && w < NADDR)) && v < MAX_VNO && w < MAX_VNO && v != w
    ensures VtopRef(large, v) != VtopRef(large, w)
  {
    if large {
      assert v == PTRS_PER_BLOCK * IndirIndex(v) + EntryIndex(v);
      assert w == PTRS_PER_BLOCK * IndirIndex(w) + EntryIndex(w);
    }
  }

  /** Small files and the first seven indirect blocks map as written. */
  lemma VtopRefAgrees(large: bool, vno: nat)
    requires (large || vno < NADDR) && vno < DOUBLE_SLOT * PTRS_PER_BLOCK
    ensures VtopRefAsWritten(large, vno) == VtopRef(large, vno)
  {
  }

  /**
   * As written, every logical block from 1792 on is mapped through entry 0
   * of the double-indirect block, and 256 consecutive logical blocks share
   * one physical block: blocks 1792 and 1793 land on the same place.
   */
  lemma VtopRefAsWrittenShares(vno: nat)
    requires DOUBLE_SLOT * PTRS_PER_BLOCK <= vno < MAX_VNO
    ensures VtopRefAsWritten(true, vno) == DoubleIndirect(0, IndirIndex(vno) - DOUBLE_SLOT)
    ensures VtopRefAsWritten(true, 1792) == VtopRefAsWritten(true, 1793)
    ensures VtopRef(true, 1792) != VtopRef(true, 1793)
  {
  }

  /** The block number found by following r. */
  function Resolve(disk: int -> seq<u8>, ino: Inode, r: BlockRef): (pno: int)
    requires DiskOk(disk) && InodeOk(ino) && RefOk(r)
    ensures 0 <= pno < U16_LIMIT
  {
    match r
    case Direct(s) => ino.blkno[s]
    case Indirect(s, e) => Le16(disk(ino.blkno[s]), 2 * e)
    case DoubleIndirect(e1, e2) =>
      Le16(disk(Le16(disk(ino.blkno[DOUBLE_SLOT]), 2 * e1)), 2 * e2)
  }

  /** Logical blocks a file's mapping is defined for. */
  function VnoLimit(ino: Inode): int
    requires 0 <= ino.mode < U16_LIMIT
  {
    if IsLarge(ino) then MAX_VNO else NADDR
  }

  /** blkno_vtop: the physical block holding logical block vno of a file. */
  function BlknoVtop(disk: int -> seq<u8>, ino: Inode, vno: nat): (pno: int)
    requires DiskOk(disk) && InodeOk(ino) && vno < VnoLimit(ino)
    ensures 0 <= pno < U16_LIMIT
  {
    Resolve(disk, ino, VtopRef(IsLarge(ino), vno))
  }

  /**
   * The three cases of the mapping: a small file's block numbers are its
   * eight addresses; a large file's first 7*256 blocks are listed in the
   * indirect blocks named by addresses 0..6, and the rest in blocks named
   * by the double-indirect block at address 7.
   */
  lemma BlknoVtopCases(disk: int -> seq<u8>, ino: Inode, vno: nat)
    requires DiskOk(disk) && InodeOk(ino) && vno < VnoLimit(ino)
    ensures !IsLarge(ino) ==> BlknoVtop(disk, ino, vno) == ino.blkno[vno]
    ensures IsLarge(ino) && IndirIndex(vno) < DOUBLE_SLOT ==>
      BlknoVtop(disk, ino, vno) == Le16(disk(ino.blkno[IndirIndex(vno)]), 2 * EntryIndex(vno))
    ensures IsLarge(ino) && DOUBLE_SLOT <= IndirIndex(vno) ==>
      var mid := Le16(disk(ino.blkno[DOUBLE_SLOT]), 2 * (IndirIndex(vno) - DOUBLE_SLOT));
      BlknoVtop(disk, ino, vno) == Le16(disk(mid), 2 * EntryIndex(vno))
  {
  }

  /** Every byte position inside a file lies in a block the mapping covers. */
  lemma PosInMappedBlock(ino: Inode, p: int)
    requires InodeOk(ino) && 0 <= p < ino.size
    ensures p / BLOCKSIZE < VnoLimit(ino)
  {
  }

  /** Byte p of a file. */
  function FileByte(disk: int -> seq<u8>, ino: Inode, p: int): u8
    requires DiskOk(disk) && InodeOk(ino) && 0 <= p < ino.size
  {
    PosInMappedBlock(ino, p);
    disk(BlknoVtop(disk, ino, p / BLOCKSIZE))[p % BLOCKSIZE]
  }

  // ---------------------------------------------------------------------------
  // Reading
  // ---------------------------------------------------------------------------

  function Min(a: int, b: int): int {
    if a <= b then a else b
  }

  /**
   * The number of bytes a read of `count` at `offset` copies: up to the
   * end of the file, and nothing when offset+count wraps past 2^32 or the
   * offset lies beyond the end.
   */
  function ReadCount(offset: int, count: int, size: int): (r: int)
    requires 0 <= offset < U32_LIMIT && 0 <= count < U32_LIMIT && 0 <= size
    ensures 0 <= r <= count
    ensures r == 0 || offset + r <= size
    ensures offset <= size && offset + count < U32_LIMIT ==> r == Min(count, size - offset)
  {
    var tail := Min(Wrap32(count + offset), size);
    if tail <= offset then 0 else tail - offset
  }

  /** inode_read's return value as written: tail - offset in 32-bit arithmetic, as an int. */
  function ReadResultAsWritten(offset: int, count: int, size: int): int
    requires 0 <= offset < U32_LIMIT && 0 <= count < U32_LIMIT && 0 <= size < U32_LIMIT
  {
    ToInt32(Wrap32(Min(Wrap32(count + offset), size) - offset))
  }

  /**
   * Within the file and without a wrap the written return value is the
   * number of bytes copied; at an offset past the end it is negative.
   */
  lemma ReadResultAsWrittenAgrees(offset: int, count: int, size: int)
    requires 0 <= offset <= size < MAX_SIZE && 0 <= count && offset + count < U32_LIMIT
    ensures ReadResultAsWritten(offset, count, size) == ReadCount(offset, count, size)
    ensures ReadResultAsWritten(600, 10, 500) == -100 && ReadCount(600, 10, 500) == 0
  {
  }

  lemma BlockOfNext(i: int)
    requires 0 < i && i % BLOCKSIZE != 0
    ensures (i - 1) / BLOCKSIZE == i / BLOCKSIZE
  {
  }

  /**
   * inode_read: copy the bytes from offset up to min(offset+count, size),
   * fetching a block at the first byte and at every block boundary, and
   * return how many were copied.
   */
  method InodeRead(disk: int -> seq<u8>, ino: Inode, offset: int, count: int) returns (n: int, data: seq<u8>)
    requires DiskOk(disk) && InodeOk(ino)
    requires 0 <= offset < U32_LIMIT && 0 <= count < U32_LIMIT
    ensures n == |data| == ReadCount(offset, count, ino.size)
    ensures forall q :: 0 <= q < |data| ==> offset + q < ino.size && data[q] == FileByte(disk, ino, offset + q)
  {
    var tail := Wrap32(count + offset);
    tail := if tail > ino.size then ino.size else tail;
    data := [];
    var blk: seq<u8> := [];
    var loaded := false;
    var i := offset;
    while i < tail
      invariant offset <= i && (offset < tail ==> i <= tail) && (tail <= offset ==> i == offset)
      invariant i == offset + |data|
      invariant forall q :: 0 <= q < |data| ==> offset + q < ino.size && data[q] == FileByte(disk, ino, offset + q)
      invariant loaded ==> offset < i && i - 1 < ino.size
      invariant loaded ==> blk == disk(BlknoVtop(disk, ino, (i - 1) / BLOCKSIZE))
      decreases tail - i
    {
      if !loaded || i % BLOCKSIZE == 0 {
        blk := disk(BlknoVtop(disk, ino, i / BLOCKSIZE));
        loaded := true;
      } else {
        BlockOfNext(i);
      }
      data := data + [blk[i % BLOCKSIZE]];
      i := i + 1;
    }
    assert tail == Min(Wrap32(count + offset), ino.size);
    n := i - offset;
  }

  // ---------------------------------------------------------------------------
  // Directory lookup
  // ---------------------------------------------------------------------------

  /** Logical block and byte offset of directory entry k. */
  function DentPos(k: nat): int {
    DENT_SIZE * k
  }

  /** The block holding directory entry k. */
  function DentBlock(disk: int -> seq<u8>, dir: Inode, k: nat): (blk: seq<u8>)
    requires DiskOk(disk) && InodeOk(dir) && DentPos(k) < dir.size
    ensures |blk| == BLOCKSIZE
  {
    FileBlock(disk, dir, DentPos(k))
  }

  function FileBlock(disk: int -> seq<u8>, ino: Inode, p: int): (blk: seq<u8>)
    requires DiskOk(disk) && InodeOk(ino) && 0 <= p < ino.size
    ensures |blk| == BLOCKSIZE
  {
    PosInMappedBlock(ino, p);
    disk(BlknoVtop(disk, ino, p / BLOCKSIZE))
  }

  /** The inode number of directory entry k (0 marks an unused entry). */
  function DentIno(disk: int -> seq<u8>, dir: Inode, k: nat): int
    requires DiskOk(disk) && InodeOk(dir) && DentPos(k) < dir.size
  {
    Le16(DentBlock(disk, dir, k), DentPos(k) % BLOCKSIZE)
  }

  /** The name of directory entry k, read as a C string from byte 2 of the entry. */
  function DentName(disk: int -> seq<u8>, dir: Inode, k: nat): seq<u8>
    requires DiskOk(disk) && InodeOk(dir) && DentPos(k) < dir.size
  {
    DentBlock(disk, dir, k)[DentPos(k) % BLOCKSIZE + 2..]
  }

  /** Entry k is in use and its name matches the first component of path. */
  predicate DentHit(disk: int -> seq<u8>, dir: Inode, path: seq<u8>, k: nat)
    requires DiskOk(disk) && InodeOk(dir) && DentPos(k) < dir.size
  {
    DentIno(disk, dir, k) != 0 && DentMatch(path, DentName(disk, dir, k))
  }

  /** Number of entry slots a directory of this size is scanned for. */
  function NumDents(dir: Inode): nat
    requires 0 <= dir.size
  {
    (dir.size + DENT_SIZE - 1) / DENT_SIZE
  }

  lemma DentCount(dir: Inode, k: nat)
    requires 0 <= dir.size
    ensures DentPos(k) < dir.size <==> k < NumDents(dir)
  {
  }

  /** For each entry slot of a directory: is it in use with a name matching path? */
  function DentHits(disk: int -> seq<u8>, dir: Inode, path: seq<u8>): (hits: seq<bool>)
    requires DiskOk(disk) && InodeOk(dir)
    ensures |hits| == NumDents(dir)
  {
    seq(NumDents(dir), k requires 0 <= k < NumDents(dir) =>
      DentCount(dir, k); DentHit(disk, dir, path, k))
  }

  /** The first in-use entry whose name matches the first component of path. */
  function FindDent(disk: int -> seq<u8>, dir: Inode, path: seq<u8>): (r: Option<nat>)
    requires DiskOk(disk) && InodeOk(dir)
    ensures r.Some? ==> DentPos(r.value) < dir.size
  {
    var r := FirstTrue(DentHits(disk, dir, path), 0);
    if r.Some? then DentCount(dir, r.value); r else r
  }

  /**
   * The entry a lookup finds is in use and matches, no earlier entry does,
   * and when nothing is found no entry matches.
   */
  lemma FindDentFirst(disk: int -> seq<u8>, dir: Inode, path: seq<u8>)
    requires DiskOk(disk) && InodeOk(dir)
    ensures var r := FindDent(disk, dir, path);
      r.Some? ==> (DentHit(disk, dir, path, r.value)
        && forall j :: 0 <= j < r.value ==> DentPos(j) < dir.size && !DentHit(disk, dir, path, j))
    ensures FindDent(disk, dir, path).None? ==>
      forall j :: 0 <= j && DentPos(j) < dir.size ==> !DentHit(disk, dir, path, j)
  {
    var hits := DentHits(disk, dir, path);
    FirstTrueIsFirst(hits, 0);
    forall j | 0 <= j && DentPos(j) < dir.size
      ensures hits[j] == DentHit(disk, dir, path, j)
    {
      DentCount(dir, j);
    }
  }

  /** An entry never straddles a block boundary. */
  lemma DentInBlock(k: nat)
    ensures DentPos(k) % BLOCKSIZE + DENT_SIZE <= BLOCKSIZE
  {
    assert DentPos(k) % BLOCKSIZE == DENT_SIZE * (k % 32);
  }

  /** Consecutive entries share a block unless the next one starts a new block. */
  lemma NextDentSameBlock(disk: int -> seq<u8>, dir: Inode, i: int, k: nat)
    requires DiskOk(disk) && InodeOk(dir)
    requires i == DentPos(k) && (i + DENT_SIZE) % BLOCKSIZE != 0 && i + DENT_SIZE < dir.size
    ensures FileBlock(disk, dir, i + DENT_SIZE) == FileBlock(disk, dir, i)
  {
    NextDentBlockIndex(i, k);
  }

  lemma NextDentBlockIndex(i: int, k: nat)
    requires i == DentPos(k) && (i + DENT_SIZE) % BLOCKSIZE != 0
    ensures (i + DENT_SIZE) / BLOCKSIZE == i / BLOCKSIZE
  {
    var q := k / 32;
    var m := k % 32;
    assert i == BLOCKSIZE * q + DENT_SIZE * m;
    assert m + 1 < 32;
  }

  /** Whether entry k is a hit, read from the block that holds it. */
  lemma HitInBlock(disk: int -> seq<u8>, dir: Inode, path: seq<u8>, k: nat, blk: seq<u8>)
    requires DiskOk(disk) && InodeOk(dir) && DentPos(k) < dir.size
    requires blk == FileBlock(disk, dir, DentPos(k))
    ensures DentPos(k) % BLOCKSIZE + DENT_SIZE <= |blk|
    ensures k < |DentHits(disk, dir, path)|
    ensures DentIno(disk, dir, k) == Le16(blk, DentPos(k) % BLOCKSIZE)
    ensures DentHits(disk, dir, path)[k] ==
      (Le16(blk, DentPos(k) % BLOCKSIZE) != 0 && DentMatch(path, blk[DentPos(k) % BLOCKSIZE + 2..]))
  {
    DentInBlock(k);
    DentCount(dir, k);
  }

  /**
   * One step of the opdent scan: read entry k from the block holding it;
   * for DENTOP_GET it is a hit when in use and its name matches.
   */
  method CheckDent(disk: int -> seq<u8>, dir: Inode, path: seq<u8>, k: nat, blk: seq<u8>, op: int)
    returns (no: int, hit: bool)
    requires DiskOk(disk) && InodeOk(dir) && DentPos(k) < dir.size
    requires blk == FileBlock(disk, dir, DentPos(k))
    ensures no == DentIno(disk, dir, k) && 0 <= no < U16_LIMIT
    ensures k < |DentHits(disk, dir, path)|
    ensures hit <==> op == DENTOP_GET && DentHits(disk, dir, path)[k]
    ensures hit ==> no != 0
  {
    var off := DentPos(k) % BLOCKSIZE;
    HitInBlock(disk, dir, path, k, blk);
    no := Le16(blk, off);
    hit := false;
    if no != 0 && op == DENTOP_GET {
      var cmp := StrcmpDent(path, blk[off + 2..]);
      hit := cmp == 0;
    }
  }

  /**
   * The scan loop of opdent: walk the 16-byte entries, fetching a block at
   * each block boundary, skip unused entries and, for DENTOP_GET, stop at
   * the first name that matches.  The result is the inode number found, or
   * 0.
   */
  method ScanDir(disk: int -> seq<u8>, dir: Inode, path: seq<u8>, op: int) returns (found: int)
    requires DiskOk(disk) && InodeOk(dir)
    ensures 0 <= found < U16_LIMIT
    ensures op != DENTOP_GET ==> found == 0
    ensures op == DENTOP_GET ==> (found == 0 <==> FindDent(disk, dir, path).None?)
    ensures op == DENTOP_GET && found != 0 ==> found == DentIno(disk, dir, FindDent(disk, dir, path).value)
  {
    found := 0;
    ghost var hits := DentHits(disk, dir, path);
    var blk: seq<u8> := [];
    var i := 0;
    var k: nat := 0;
    while i < dir.size
      invariant i == DentPos(k) && (i < dir.size <==> k < |hits|)
      invariant 0 < i % BLOCKSIZE && i < dir.size ==> blk == FileBlock(disk, dir, i)
      invariant op == DENTOP_GET ==> FirstTrue(hits, 0) == FirstTrue(hits, k)
    {
      if i % BLOCKSIZE == 0 {
        blk := FileBlock(disk, dir, i);
      }
      var no, hit := CheckDent(disk, dir, path, k, blk, op);
      if hit {
        found := no;
        return;
      }
      if (i + DENT_SIZE) % BLOCKSIZE != 0 && i + DENT_SIZE < dir.size {
        NextDentSameBlock(disk, dir, i, k);
        assert blk == FileBlock(disk, dir, i + DENT_SIZE);
      }
      i := i + DENT_SIZE;
      k := k + 1;
      DentCount(dir, k);
    }
  }

  /**
   * opdent: for DENTOP_GET on an allocated directory, the inode of the
   * first in-use entry whose name matches the first component of path.
   * Any other operation, a non-directory and a missing name give NULL.
   */
  method Opdent(disk: int -> seq<u8>, dir: Inode, path: seq<u8>, op: int) returns (r: Option<Inode>)
    requires DiskOk(disk) && InodeOk(dir)
    ensures op != DENTOP_GET || !IsDirectory(dir) ==> r.None?
    ensures op == DENTOP_GET && IsDirectory(dir) ==>
      (r.None? <==> FindDent(disk, dir, path).None?)
    ensures op == DENTOP_GET && IsDirectory(dir) && r.Some? ==>
      r.value == InodeAt(disk, DentIno(disk, dir, FindDent(disk, dir, path).value))
  {
    var found := 0;
    if HasFlag(dir.mode, I_ALLOC) && HasFlag(dir.mode, I_DIR) {
      found := ScanDir(disk, dir, path, op);
    }
    if op == DENTOP_GET && found != 0 {
      var ino := GetInode(disk, found);
      r := Some(ino);
    } else {
      r := None;
    }
  }
}
