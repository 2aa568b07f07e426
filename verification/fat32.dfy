/**
 * The read-only FAT32 driver: cluster classification, the geometry
 * computed at mount time, 28-bit FAT entries, cluster-to-sector mapping,
 * short-name formatting and its checksum, and
 * the open-file read/seek operations.
 *
 * The block device is a parameter `disk`: sector number -> the 512 bytes of
 * that sector. The FAT itself is read through `disk`, as the driver does.
 */
module Fat32 {
  import opened CTypes
  import opened BlkDev
  import opened CStrings

  /** Size of one directory entry. */
  const DENT_SIZE := 32
  /** Fewest data clusters a volume must have to be FAT32. */
  const MIN_CLUSTERS := 65526
  const UNUSED_CLUSTER := 0
  const RESERVED_CLUSTER := 1
  const BAD_CLUSTER := 0x0FFF_FFF7
  /** FAT entries are 28 bits wide; the top 4 bits of the 32-bit slot are reserved. */
  const ENTRY_LIMIT := 0x1000_0000

  const SPACE: u8 := 0x20
  const DOT: u8 := 0x2e

  // ---------------------------------------------------------------------------
  // Cluster numbers
  // ---------------------------------------------------------------------------

  predicate IsActiveCluster(c: int) { 2 <= c <= 0x0FFF_FFF6 }

  predicate IsTerminalCluster(c: int) { 0x0FFF_FFF8 <= c <= 0x0FFF_FFFF }

  /** Every 28-bit FAT entry falls in exactly one class: free, reserved, active, bad or terminal. */
  lemma ClusterClasses(c: int)
    requires 0 <= c < ENTRY_LIMIT
    ensures c == UNUSED_CLUSTER || c == RESERVED_CLUSTER || IsActiveCluster(c)
            || c == BAD_CLUSTER || IsTerminalCluster(c)
    ensures IsActiveCluster(c) ==> !IsTerminalCluster(c) && c != BAD_CLUSTER && c != RESERVED_CLUSTER && c != UNUSED_CLUSTER
    ensures IsTerminalCluster(c) ==> c != BAD_CLUSTER
  {
  }

  /** The first cluster of a directory entry, assembled from its high and low halves. */
  function DirCluster(hi: u16, lo: u16): (c: int)
    ensures 0 <= c < U32_LIMIT
    ensures c / U16_LIMIT == hi as int && c % U16_LIMIT == lo as int
  {
    hi as int * U16_LIMIT + lo as int
  }

  // ---------------------------------------------------------------------------
  // Boot sector and mount geometry
  // ---------------------------------------------------------------------------

  /** The boot-sector fields the driver uses. */
  datatype Boot = Boot(bytsPerSec: u16, secPerClus: u8, rsvdSecCnt: u16, numFATs: u8,
                       rootEntCnt: u16, totSec32: u32, fatSz32: u32, rootClus: u32,
                       bootSign: u16)

  predicate IsValidBoot(b: Boot) {
    b.bootSign == 0xaa55 && b.bytsPerSec as int == BLOCKSIZE
  }

  /** The regions of a volume, in sectors, as the driver records them at mount time. */
  datatype Geometry = Geometry(fatstart: int, fatsectors: int, rootstart: int,
                               rootsectors: int, datastart: int, datasectors: int)

  /** Sectors of the fixed root directory region, rounded up. */
  function RootSectors(b: Boot): (n: int)
    requires b.bytsPerSec > 0
    ensures 0 <= n
    ensures n * b.bytsPerSec as int >= DENT_SIZE * b.rootEntCnt as int
    ensures (n - 1) * (b.bytsPerSec as int) < DENT_SIZE * b.rootEntCnt as int || n == 0
  {
    var byts := b.bytsPerSec as int;
    var x := DENT_SIZE * b.rootEntCnt as int;
    var n := (x + byts - 1) / byts;
    CeilDiv(x, byts);
    n
  }

  lemma CeilDiv(x: int, d: int)
    requires 0 <= x && 0 < d
    ensures ((x + d - 1) / d) * d >= x
    ensures ((x + d - 1) / d - 1) * d < x || (x + d - 1) / d == 0
  {
    var q := (x + d - 1) / d;
    var r := (x + d - 1) % d;
    assert x + d - 1 == q * d + r;
    assert q * d - d == (q - 1) * d;
  }

  /** The geometry computed from the boot sector, in 32-bit unsigned arithmetic. */
  function Layout(b: Boot): Geometry
    requires b.bytsPerSec > 0
  {
    var fatstart := b.rsvdSecCnt as int;
    var fatsectors := Wrap32(b.fatSz32 as int * b.numFATs as int);
    var rootstart := Wrap32(fatstart + fatsectors);
    var rootsectors := RootSectors(b);
    var datastart := Wrap32(rootstart + rootsectors);
    Geometry(fatstart, fatsectors, rootstart, rootsectors, datastart,
             Wrap32(b.totSec32 as int - datastart))
  }

  /**
   * The outcome of mounting: the geometry, a rejected volume, or a division
   * by zero, which happens before the boot sector is validated when
   * BytsPerSec or SecPerClus is 0.
   */
  datatype MountResult = Ok(geo: Geometry) | BadFilesystem | DivideByZero

  function Mount(b: Boot): (r: MountResult)
    ensures r.DivideByZero? <==> b.bytsPerSec == 0 || b.secPerClus == 0
    ensures r.Ok? <==> b.bytsPerSec != 0 && b.secPerClus != 0 && IsValidBoot(b)
                       && Layout(b).datasectors / b.secPerClus as int >= MIN_CLUSTERS
    ensures r.Ok? ==> r.geo == Layout(b)
  {
    if b.bytsPerSec == 0 || b.secPerClus == 0 then DivideByZero
    else
      var g := Layout(b);
      if g.datasectors / b.secPerClus as int < MIN_CLUSTERS || !IsValidBoot(b) then BadFilesystem
      else Ok(g)
  }

  /** True when the fixed regions fit in the volume, so no subtraction in the layout wraps. */
  predicate RegionsFit(b: Boot)
    requires b.bytsPerSec > 0
  {
    b.rsvdSecCnt as int + b.fatSz32 as int * b.numFATs as int + RootSectors(b) <= b.totSec32 as int
  }

  /**
   * On a mounted volume whose regions fit, the FATs follow the reserved
   * sectors, the root directory follows the FATs and is large enough for
   * every root entry, and the data region runs to the end of the volume and
   * holds at least 65526 clusters.
   */
  lemma MountLayout(b: Boot)
    requires Mount(b).Ok? && RegionsFit(b)
    ensures var g := Mount(b).geo;
            && g.fatstart == b.rsvdSecCnt as int
            && g.rootstart == g.fatstart + b.fatSz32 as int * b.numFATs as int
            && g.rootsectors * BLOCKSIZE >= DENT_SIZE * b.rootEntCnt as int
            && g.datastart == g.rootstart + g.rootsectors
            && g.datastart + g.datasectors == b.totSec32 as int
            && g.datasectors >= MIN_CLUSTERS * b.secPerClus as int
  {
    var g := Mount(b).geo;
    var f := b.fatSz32 as int * b.numFATs as int;
    MulMono(b.fatSz32 as int, b.fatSz32 as int, b.numFATs as int);
    Wrap32Id(f);
    Wrap32Id(b.rsvdSecCnt as int + f);
    Wrap32Id(b.rsvdSecCnt as int + f + RootSectors(b));
    Wrap32Id(b.totSec32 as int - g.datastart);
    var spc := b.secPerClus as int;
    var q := g.datasectors / spc;
    Euclid(g.datasectors, spc);
    MulMono(MIN_CLUSTERS, q, spc);
  }

  /**
   * As written, a boot sector whose fixed regions extend past the end of
   * the volume is still mounted: the data-sector count wraps to a huge value.
   */
  lemma MountAcceptsOverlongRegions()
    ensures var b := Boot(512, 1, 32, 2, 0, 0, 1000, 2, 0xaa55);
            && !RegionsFit(b)
            && Mount(b).Ok? && Mount(b).geo.datasectors == U32_LIMIT - 2032
  {
  }

  /** A volume the driver has mounted. */
  datatype Volume = Volume(boot: Boot, geo: Geometry)

  predicate IsMounted(v: Volume) {
    Mount(v.boot) == Ok(v.geo)
  }

  /** Bytes per cluster. */
  function ClusterBytes(v: Volume): (n: int)
    requires v.boot.secPerClus > 0
    ensures BLOCKSIZE <= n
  {
    v.boot.secPerClus as int * BLOCKSIZE
  }

  // ---------------------------------------------------------------------------
  // FAT entries
  // ---------------------------------------------------------------------------

  /** A little-endian 32-bit value at byte offset o. */
  function Le32(s: seq<u8>, o: int): (v: int)
    requires 0 <= o && o + 4 <= |s|
    ensures 0 <= v < U32_LIMIT
  {
    s[o] as int + 0x100 * s[o + 1] as int + 0x1_0000 * s[o + 2] as int + 0x100_0000 * s[o + 3] as int
  }

  /** The four little-endian bytes of a 32-bit value. */
  function LeBytes(v: int): (s: seq<u8>)
    requires 0 <= v < U32_LIMIT
    ensures |s| == 4 && Le32(s, 0) == v
  {
    var v1 := v / 0x100;
    var v2 := v1 / 0x100;
    var v3 := v2 / 0x100;
    assert v == v % 0x100 + 0x100 * v1;
    assert v1 == v1 % 0x100 + 0x100 * v2;
    assert v2 == v2 % 0x100 + 0x100 * v3;
    assert v3 < 0x100;
    [(v % 0x100) as u8, (v1 % 0x100) as u8, (v2 % 0x100) as u8, v3 as u8]
  }

  lemma Wrap32Id(x: int)
    requires 0 <= x < U32_LIMIT
    ensures Wrap32(x) == x
  {
  }

  /** Where the FAT entry of a cluster lives: a sector and a byte offset inside it. */
  datatype FatSlot = FatSlot(sector: int, offset: int)

  function SlotOf(fatstart: int, index: int): (sl: FatSlot)
    requires 0 <= index < U32_LIMIT
    ensures 0 <= sl.offset && sl.offset + 4 <= BLOCKSIZE && sl.offset % 4 == 0
  {
    var byteIndex := Wrap32(index * 4);
    AlignedSlot(index * 4, byteIndex);
    FatSlot(Wrap32(fatstart + byteIndex / BLOCKSIZE), byteIndex % BLOCKSIZE)
  }

  lemma AlignedSlot(x: int, w: int)
    requires 0 <= x && x % 4 == 0 && w == x % U32_LIMIT
    ensures 0 <= w % BLOCKSIZE <= BLOCKSIZE - 4 && (w % BLOCKSIZE) % 4 == 0
  {
    var q := x / U32_LIMIT;
    assert x == q * U32_LIMIT + w;
    assert w == 4 * (x / 4 - q * 0x4000_0000);
    var q2 := w / BLOCKSIZE;
    assert w % BLOCKSIZE == 4 * (w / 4 - q2 * 128);
  }

  /** Distinct clusters below 2^30 have distinct FAT slots. */
  lemma SlotsDistinct(v: Volume, i: int, j: int)
    requires IsMounted(v) && 0 <= i < 0x4000_0000 && 0 <= j < 0x4000_0000 && i != j
    ensures SlotOf(v.geo.fatstart, i) != SlotOf(v.geo.fatstart, j)
  {
    var fs := v.geo.fatstart;
    assert fs == v.boot.rsvdSecCnt as int;
    var a, b := i * 4, j * 4;
    Wrap32Id(a);
    Wrap32Id(b);
    Wrap32Id(fs + a / BLOCKSIZE);
    Wrap32Id(fs + b / BLOCKSIZE);
    DivModSplit(a, b, BLOCKSIZE);
  }

  lemma DivModSplit(a: int, b: int, d: int)
    requires 0 < d && a != b
    ensures a / d != b / d || a % d != b % d
  {
    assert a == a / d * d + a % d;
    assert b == b / d * d + b % d;
  }

  /** fatent_read: the 28-bit entry of a cluster. */
  function FatentRead(v: Volume, disk: int -> seq<u8>, index: int): (e: int)
    requires DiskOk(disk) && 0 <= index < U32_LIMIT
    ensures 0 <= e < ENTRY_LIMIT
  {
    var sl := SlotOf(v.geo.fatstart, index);
    Le32(disk(sl.sector), sl.offset) % ENTRY_LIMIT
  }

  /** The slot value fatent_write stores: the old top 4 bits and the low 28 bits of the value. */
  function MergedEntry(old_: int, value: int): (e: int)
    requires 0 <= old_ < U32_LIMIT && 0 <= value < U32_LIMIT
    ensures 0 <= e < U32_LIMIT
    ensures e / ENTRY_LIMIT == old_ / ENTRY_LIMIT
    ensures e % ENTRY_LIMIT == value % ENTRY_LIMIT
  {
    old_ / ENTRY_LIMIT * ENTRY_LIMIT + value % ENTRY_LIMIT
  }

  /** A block with the entry at offset o replaced as fatent_write replaces it. */
  function Patched(blk: seq<u8>, o: int, value: int): (r: seq<u8>)
    requires 0 <= o && o + 4 <= |blk| && 0 <= value < U32_LIMIT
    ensures |r| == |blk|
  {
    blk[..o] + LeBytes(MergedEntry(Le32(blk, o), value)) + blk[o + 4..]
  }

  /**
   * fatent_write on the cached block that holds the slot: the slot keeps its
   * top 4 bits and takes the value's low 28 bits; the rest of the block is
   * unchanged. Returns the stored slot value.
   */
  method FatentWrite(blk: array<u8>, o: int, value: int) returns (entry: int)
    requires blk.Length == BLOCKSIZE && 0 <= o && o + 4 <= BLOCKSIZE && 0 <= value < U32_LIMIT
    modifies blk
    ensures entry == MergedEntry(old(Le32(blk[..], o)), value)
    ensures blk[..] == Patched(old(blk[..]), o, value)
  {
    var e := Le32(blk[..], o);
    entry := MergedEntry(e, value);
    var bs := LeBytes(entry);
    blk[o] := bs[0];
    blk[o + 1] := bs[1];
    blk[o + 2] := bs[2];
    blk[o + 3] := bs[3];
  }

  /** The disk after fatent_write has stored a value into the slot of a cluster. */
  function AfterWrite(v: Volume, disk: int -> seq<u8>, index: int, value: int): (d: int -> seq<u8>)
    requires IsMounted(v) && DiskOk(disk) && 0 <= index < U32_LIMIT && 0 <= value < U32_LIMIT
    ensures DiskOk(d)
  {
    var sl := SlotOf(v.geo.fatstart, index);
    var blk := Patched(disk(sl.sector), sl.offset, value);
    (s: int) => if s == sl.sector then blk else disk(s)
  }

  /** The patched slot reads back as the stored value; other 4-aligned slots are untouched. */
  lemma PatchedReads(blk: seq<u8>, o: int, value: int, o2: int)
    requires 0 <= o && o + 4 <= |blk| && 0 <= value < U32_LIMIT
    requires 0 <= o2 && o2 + 4 <= |blk| && o % 4 == 0 && o2 % 4 == 0
    ensures o2 == o ==> Le32(Patched(blk, o, value), o2) == MergedEntry(Le32(blk, o), value)
    ensures o2 != o ==> Le32(Patched(blk, o, value), o2) == Le32(blk, o2)
  {
    var p := Patched(blk, o, value);
    var bs := LeBytes(MergedEntry(Le32(blk, o), value));
    if o2 == o {
      assert p[o..o + 4] == bs;
    } else {
      assert o2 + 4 <= o || o + 4 <= o2;
      assert p[o2] == blk[o2] && p[o2 + 1] == blk[o2 + 1] && p[o2 + 2] == blk[o2 + 2] && p[o2 + 3] == blk[o2 + 3];
    }
  }

  /**
   * Reading after fatent_write: the written cluster's entry is the value's
   * low 28 bits, and the entry of every other cluster below 2^30 is unchanged.
   */
  lemma {:induction false} WriteThenRead(v: Volume, disk: int -> seq<u8>, index: int, value: int, j: int)
    requires IsMounted(v) && DiskOk(disk) && 0 <= index < 0x4000_0000 && 0 <= value < U32_LIMIT
    requires 0 <= j < 0x4000_0000
    ensures j == index ==> FatentRead(v, AfterWrite(v, disk, index, value), j) == value % ENTRY_LIMIT
    ensures j != index ==> FatentRead(v, AfterWrite(v, disk, index, value), j) == FatentRead(v, disk, j)
  {
    var sl, sj := SlotOf(v.geo.fatstart, index), SlotOf(v.geo.fatstart, j);
    var d := AfterWrite(v, disk, index, value);
    if j == index {
      PatchedReads(disk(sl.sector), sl.offset, value, sl.offset);
    } else {
      SlotsDistinct(v, index, j);
      if sj.sector == sl.sector {
        PatchedReads(disk(sl.sector), sl.offset, value, sj.offset);
      } else {
        assert d(sj.sector) == disk(sj.sector);
      }
    }
  }

  // ---------------------------------------------------------------------------
  // Clusters and sectors
  // ---------------------------------------------------------------------------

  /** cluster_to_sector, in 32-bit unsigned arithmetic. */
  function ClusterToSector(v: Volume, c: int): (s: int)
    requires 0 <= c < U32_LIMIT
    ensures 0 <= s < U32_LIMIT
  {
    Wrap32(v.geo.datastart + Wrap32(Wrap32(c - 2) * v.boot.secPerClus as int))
  }

  /** Number of data clusters of a mounted volume. */
  function ClusterCount(v: Volume): int
    requires IsMounted(v)
  {
    v.geo.datasectors / v.boot.secPerClus as int
  }

  /**
   * For a volume whose regions fit, the clusters 2 .. ClusterCount+1 map to
   * consecutive runs of SecPerClus sectors inside the data region: cluster c
   * starts at datastart + (c-2)*SecPerClus, and a higher cluster starts at or
   * after the end of a lower one.
   */
  lemma ClusterSectors(v: Volume, c: int, d: int)
    requires IsMounted(v) && RegionsFit(v.boot)
    requires 2 <= c < ClusterCount(v) + 2 && 2 <= d < ClusterCount(v) + 2
    requires c < U32_LIMIT && d < U32_LIMIT
    ensures ClusterToSector(v, c) == v.geo.datastart + (c - 2) * v.boot.secPerClus as int
    ensures v.geo.datastart <= ClusterToSector(v, c)
    ensures ClusterToSector(v, c) + v.boot.secPerClus as int <= v.boot.totSec32 as int
    ensures c < d ==> ClusterToSector(v, c) + v.boot.secPerClus as int <= ClusterToSector(v, d)
  {
    DataRegionEnds(v);
    SectorInRegion(v, c);
    SectorInRegion(v, d);
    if c < d {
      ConsecutiveRuns(v.geo.datastart, c - 2, d - 2, v.boot.secPerClus as int,
                      ClusterToSector(v, c), ClusterToSector(v, d));
    }
  }

  lemma DataRegionEnds(v: Volume)
    requires IsMounted(v) && RegionsFit(v.boot)
    ensures v.geo.datastart + v.geo.datasectors == v.boot.totSec32 as int
  {
    MountLayout(v.boot);
  }

  lemma ConsecutiveRuns(base: int, a: int, b: int, m: int, sa: int, sb: int)
    requires 0 <= a < b && 0 <= m && sa == base + a * m && sb == base + b * m
    ensures sa + m <= sb
  {
    MulMono(a + 1, b, m);
    assert (a + 1) * m == a * m + m;
  }

  lemma SectorInRegion(v: Volume, c: int)
    requires IsMounted(v) && 0 <= v.geo.datastart + v.geo.datasectors < U32_LIMIT
    requires 2 <= c < ClusterCount(v) + 2 && c < U32_LIMIT
    ensures ClusterToSector(v, c) == v.geo.datastart + (c - 2) * v.boot.secPerClus as int
    ensures 0 <= (c - 2) * v.boot.secPerClus as int
    ensures (c - 2) * v.boot.secPerClus as int + v.boot.secPerClus as int <= v.geo.datasectors
  {
    var spc := v.boot.secPerClus as int;
    InsideRegion(c - 2, spc, v.geo.datasectors);
    Wrap32Id(c - 2);
    Wrap32Id((c - 2) * spc);
    Wrap32Id(v.geo.datastart + (c - 2) * spc);
  }

  lemma InsideRegion(k: int, spc: int, n: int)
    requires 0 < spc && 0 <= n && 0 <= k < n / spc
    ensures 0 <= k * spc && k * spc + spc <= n
  {
    MulMono(k + 1, n / spc, spc);
    assert n == n / spc * spc + n % spc;
  }

  lemma Euclid(x: int, d: int)
    requires 0 < d
    ensures x == x / d * d + x % d && 0 <= x % d < d
  {
  }

  lemma MulMono(a: int, b: int, m: int)
    requires 0 <= a <= b && 0 <= m
    ensures 0 <= a * m <= b * m
  {
  }

  // ---------------------------------------------------------------------------
  // Short names and their checksum
  // ---------------------------------------------------------------------------

  /** One step of create_sum, in 8-bit arithmetic: (sum >> 1) + (sum << 7) + byte. */
  function SumStep(sum: int, b: u8): int {
    (sum / 2 + sum * 128 + b as int) % 256
  }

  /** create_sum's fold over the name bytes. */
  function NameSum(name: seq<u8>): (s: int)
    ensures 0 <= s < 256
  {
    if |name| == 0 then 0 else SumStep(NameSum(name[..|name| - 1]), name[|name| - 1])
  }

  /**
   * The long-name checksum as Microsoft's FAT specification defines it: an
   * unsigned-char rotate right by one bit, then the next byte added.
   */
  function ChkSum(name: seq<u8>): (s: int)
    ensures 0 <= s < 256
  {
    if |name| == 0 then 0
    else
      var sum := ChkSum(name[..|name| - 1]);
      ((if sum % 2 == 1 then 0x80 else 0) + sum / 2 + name[|name| - 1] as int) % 256
  }

  lemma StepRotates(sum: int, b: u8)
    requires 0 <= sum < 256
    ensures SumStep(sum, b) == ((if sum % 2 == 1 then 0x80 else 0) + sum / 2 + b as int) % 256
  {
    var q, r := sum / 2, sum % 2;
    assert sum * 128 == 256 * q + 128 * r;
  }

  /** The shift-and-add of the driver is the specification's rotate-and-add. */
  lemma {:induction false} NameSumIsChkSum(name: seq<u8>)
    ensures NameSum(name) == ChkSum(name)
    decreases |name|
  {
    if |name| > 0 {
      NameSumIsChkSum(name[..|name| - 1]);
      StepRotates(NameSum(name[..|name| - 1]), name[|name| - 1]);
    }
  }

  /** create_sum over the 11 bytes of a short name. */
  method CreateSum(name: seq<u8>) returns (sum: u8)
    requires |name| == 11
    ensures sum as int == ChkSum(name)
  {
    sum := 0;
    var i := 0;
    while i < 11
      invariant 0 <= i <= 11
      invariant sum as int == NameSum(name[..i])
    {
      assert name[..i + 1][..i] == name[..i];
      sum := SumStep(sum as int, name[i]) as u8;
      i := i + 1;
    }
    assert name[..11] == name;
    NameSumIsChkSum(name);
  }

  /** The byte get_sfn stores for a name byte: 0x05 stands for a leading 0xe5. */
  function SfnByte(b: u8): u8 {
    if b == 0x05 then 0xe5 else b
  }

  /** The bytes of one part of a short name up to (not including) the first space. */
  function Part(s: seq<u8>): (r: seq<u8>)
    ensures |r| <= |s|
    ensures forall k :: 0 <= k < |r| ==> r[k] != SPACE && r[k] != 0x05
  {
    if |s| == 0 || s[0] == SPACE then [] else [SfnByte(s[0])] + Part(s[1..])
  }

  /** The printable form of an 11-byte short name: base, then '.' and the extension if that is not blank. */
  function Sfn(name: seq<u8>): (r: seq<u8>)
    requires |name| == 11
    ensures |r| <= 12
    ensures forall k :: 0 <= k < |r| ==> r[k] != SPACE && r[k] != 0x05
  {
    Part(name[..8]) + (if name[8] != SPACE then [DOT] + Part(name[8..]) else [])
  }

  /** A part padded with spaces to width w. */
  function Padded(s: seq<u8>, w: nat): (r: seq<u8>)
    requires |s| <= w
    ensures |r| == w && r[..|s|] == s
    ensures forall k :: |s| <= k < w ==> r[k] == SPACE
  {
    s + seq(w - |s|, _ => SPACE)
  }

  /** The 11-byte directory form of a base name and an extension. */
  function ShortName(base: seq<u8>, ext: seq<u8>): (n: seq<u8>)
    requires |base| <= 8 && |ext| <= 3
    ensures |n| == 11
  {
    Padded(base, 8) + Padded(ext, 3)
  }

  predicate PlainPart(s: seq<u8>) {
    forall k :: 0 <= k < |s| ==> s[k] != SPACE && s[k] != 0x05
  }

  lemma {:induction false} PartOfPadded(s: seq<u8>, w: nat)
    requires |s| <= w && PlainPart(s)
    ensures Part(Padded(s, w)) == s
    decreases |s|
  {
    var p := Padded(s, w);
    if |s| == 0 {
      if w > 0 {
        assert p[0] == SPACE;
      }
    } else {
      assert p[0] == s[0];
      assert p[1..] == Padded(s[1..], w - 1);
      PartOfPadded(s[1..], w - 1);
    }
  }

  /**
   * get_sfn undoes the directory form: a base and an extension without
   * spaces and without the 0x05 escape come back as "BASE.EXT", or "BASE"
   * when the extension is empty.
   */
  lemma {:induction false} SfnOfShortName(base: seq<u8>, ext: seq<u8>)
    requires |base| <= 8 && |ext| <= 3 && PlainPart(base) && PlainPart(ext)
    ensures Sfn(ShortName(base, ext)) == base + (if |ext| == 0 then [] else [DOT] + ext)
  {
    var n := ShortName(base, ext);
    assert n[..8] == Padded(base, 8);
    assert n[8..] == Padded(ext, 3);
    PartOfPadded(base, 8);
    PartOfPadded(ext, 3);
    if |ext| > 0 {
      assert n[8] == ext[0];
    } else {
      assert n[8] == SPACE;
    }
  }

  /** Part(s) is the mapped prefix before index i when i is the first space (or the end). */
  lemma {:induction false} PartUpTo(s: seq<u8>, i: int)
    requires 0 <= i <= |s|
    requires forall k :: 0 <= k < i ==> s[k] != SPACE
    requires i == |s| || s[i] == SPACE
    ensures |Part(s)| == i
    ensures forall k :: 0 <= k < i ==> Part(s)[k] == SfnByte(s[k])
    decreases i
  {
    if i > 0 {
      PartUpTo(s[1..], i - 1);
      assert Part(s) == [SfnByte(s[0])] + Part(s[1..]);
    }
  }

  /**
   * One part of get_sfn: copies the mapped bytes of `part` into buf from
   * index p0 on, stopping at the first space.
   */
  method CopyPart(part: seq<u8>, buf: array<u8>, p0: int) returns (p: int)
    requires 0 <= p0 && p0 + |part| <= buf.Length
    modifies buf
    ensures p == p0 + |Part(part)|
    ensures buf[..p] == old(buf[..p0]) + Part(part)
  {
    p := p0;
    var i := 0;
    while i < |part|
      invariant 0 <= i <= |part| && p == p0 + i
      invariant buf[..p0] == old(buf[..p0])
      invariant forall k :: 0 <= k < i ==> part[k] != SPACE && buf[p0 + k] == SfnByte(part[k])
    {
      buf[p] := SfnByte(part[i]);
      if buf[p] == SPACE {
        break;
      }
      i := i + 1;
      p := p + 1;
    }
    PartUpTo(part, i);
    assert buf[..p] == old(buf[..p0]) + Part(part);
  }

  /**
   * get_sfn writing into its 13-byte static buffer: the buffer starts with
   * Sfn(name) followed by a NUL.
   */
  method GetSfn(name: seq<u8>, buf: array<u8>) returns (len: int)
    requires |name| == 11 && buf.Length == 13
    modifies buf
    ensures 0 <= len <= 12
    ensures buf[..len] == Sfn(name) && buf[len] == NUL
  {
    var p := CopyPart(name[..8], buf, 0);
    assert buf[..0] == [];
    ghost var text := Part(name[..8]);
    if name[8] != SPACE {
      buf[p] := DOT;
      assert buf[..p + 1] == text + [DOT];
      p := CopyPart(name[8..], buf, p + 1);
      text := text + [DOT] + Part(name[8..]);
    }
    assert text == Sfn(name);
    assert buf[..p] == text;
    buf[p] := NUL;
    assert buf[..p] == text;
    len := p;
  }

  // ---------------------------------------------------------------------------
  // Division facts used by the read loop
  // ---------------------------------------------------------------------------

  lemma MulSign(k: int, d: int)
    requires 0 < d
    ensures k >= 0 ==> k * d >= 0
    ensures k >= 1 ==> k * d >= d
    ensures k <= -1 ==> k * d <= -d
  {
    if k >= 1 {
      MulMono(1, k, d);
    } else if k <= -1 {
      MulMono(1, -k, d);
      assert (-k) * d == -(k * d);
    }
  }

  /** Quotient and remainder are the only pair with 0 <= r < d. */
  lemma DivModUnique(x: int, d: int, q: int, r: int)
    requires 0 < d && 0 <= r < d && x == q * d + r
    ensures x / d == q && x % d == r
  {
    Euclid(x, d);
    MulSign(q - x / d, d);
    assert (q - x / d) * d == x % d - r;
  }

  lemma DivLower(a: int, d: int, x: int)
    requires 0 < d && a * d <= x
    ensures a <= x / d
  {
    Euclid(x, d);
    MulSign(a - x / d - 1, d);
    assert (a - x / d - 1) * d == a * d - x / d * d - d;
  }

  lemma DivMono(a: int, b: int, d: int)
    requires 0 < d && a <= b
    ensures a / d <= b / d
  {
    Euclid(a, d);
    DivLower(a / d, d, b);
  }

  // ---------------------------------------------------------------------------
  // Cluster chains and file contents
  // ---------------------------------------------------------------------------

  /** The k-th cluster of the chain starting at c, following FAT entries. */
  function Nth(v: Volume, disk: int -> seq<u8>, c: int, k: nat): (r: int)
    requires DiskOk(disk) && 0 <= c < U32_LIMIT
    ensures 0 <= r < U32_LIMIT
  {
    if k == 0 then c else FatentRead(v, disk, Nth(v, disk, c, k - 1))
  }

  /** Clusters lo..hi of the chain starting at c are all active. */
  ghost predicate ChainActive(v: Volume, disk: int -> seq<u8>, c: int, lo: int, hi: int)
    requires DiskOk(disk) && 0 <= c < U32_LIMIT && 0 <= lo
  {
    forall k :: lo <= k <= hi ==> IsActiveCluster(Nth(v, disk, c, k))
  }

  /**
   * Byte p of a file whose chain starts at cluster c0: byte p % BLOCKSIZE of
   * the sector that holds it inside cluster p / (cluster size) of the chain.
   */
  function FileByte(v: Volume, disk: int -> seq<u8>, c0: int, p: int): u8
    requires v.boot.secPerClus > 0 && DiskOk(disk) && 0 <= c0 < U32_LIMIT && 0 <= p
  {
    var r := p % ClusterBytes(v);
    disk(Wrap32(ClusterToSector(v, Nth(v, disk, c0, ClusterIndex(v, p))) + r / BLOCKSIZE))[r % BLOCKSIZE]
  }

  /** The index, within the chain, of the cluster that holds byte p. */
  function ClusterIndex(v: Volume, p: int): nat
    requires v.boot.secPerClus > 0 && 0 <= p
  {
    DivMono(0, p, ClusterBytes(v));
    p / ClusterBytes(v)
  }

  /**
   * The bytes the read loop copies from sector sec of the ci-th cluster,
   * whose first byte is at file position `start`, are the file's bytes at
   * those positions.
   */
  lemma CopiedBytes(v: Volume, disk: int -> seq<u8>, c0: int, ci: nat, start: int, sec: int, inBlk: int, len: int)
    requires v.boot.secPerClus > 0 && DiskOk(disk) && 0 <= c0 < U32_LIMIT && start == ci * ClusterBytes(v)
    requires 0 <= sec < v.boot.secPerClus as int && 0 <= inBlk && 0 <= len && inBlk + len <= BLOCKSIZE
    ensures forall q :: start + sec * BLOCKSIZE + inBlk <= q < start + sec * BLOCKSIZE + inBlk + len ==>
              FileByte(v, disk, c0, q) == disk(Wrap32(ClusterToSector(v, Nth(v, disk, c0, ci)) + sec))[q - start - sec * BLOCKSIZE]
  {
    var cb := ClusterBytes(v);
    MulSign(ci, cb);
    forall q | start + sec * BLOCKSIZE + inBlk <= q < start + sec * BLOCKSIZE + inBlk + len
      ensures FileByte(v, disk, c0, q) == disk(Wrap32(ClusterToSector(v, Nth(v, disk, c0, ci)) + sec))[q - start - sec * BLOCKSIZE]
    {
      var r := q - start;
      DivModUnique(q, cb, ci, r);
      DivModUnique(r, BLOCKSIZE, sec, r - sec * BLOCKSIZE);
    }
  }

  /**
   * walk_cluster_chain: follows the chain from `cluster` once per whole
   * cluster before `offset`; BAD_CLUSTER when a link on the way is not active.
   */
  method WalkClusterChain(v: Volume, disk: int -> seq<u8>, offset: int, cluster: int) returns (c: int)
    requires v.boot.secPerClus > 0 && DiskOk(disk) && 0 <= offset < U32_LIMIT && 0 <= cluster < U32_LIMIT
    ensures var nlook := ClusterIndex(v, offset);
            && (ChainActive(v, disk, cluster, 1, nlook) ==> c == Nth(v, disk, cluster, nlook))
            && (!ChainActive(v, disk, cluster, 1, nlook) ==> c == BAD_CLUSTER)
  {
    var nlook := offset / (v.boot.secPerClus as int * BLOCKSIZE);
    assert nlook == ClusterIndex(v, offset);
    c := cluster;
    var i := 0;
    while i < nlook
      invariant 0 <= i <= nlook
      invariant c == Nth(v, disk, cluster, i) && ChainActive(v, disk, cluster, 1, i)
    {
      c := FatentRead(v, disk, c);
      if !IsActiveCluster(c) {
        assert !IsActiveCluster(Nth(v, disk, cluster, i + 1));
        return BAD_CLUSTER;
      }
      i := i + 1;
    }
  }

  function Min(a: int, b: int): int {
    if a <= b then a else b
  }

  /**
   * The number of bytes a read of `count` bytes at offset `off` of a file of
   * `size` bytes is meant to return: none at or past the end, and otherwise
   * never past the end.
   */
  function ReadLen(off: int, count: int, size: int): (n: int)
    requires 0 <= count
    ensures 0 <= n <= count
    ensures size <= off ==> n == 0
    ensures off < size ==> off + n <= size && (n == count || off + n == size)
  {
    if size <= off then 0 else Min(count, size - off)
  }

  /** The length fat32_read computes as written: tail = MIN(count + offset, size) and tail - offset, both in u32. */
  function ReadLenAsWritten(off: int, count: int, size: int): int {
    Wrap32(Min(Wrap32(count + off), size) - off)
  }

  /** Without wrap-around in count + offset, the written length is the intended one. */
  lemma ReadLenAgrees(off: int, count: int, size: int)
    requires 0 <= off < size < U32_LIMIT && 0 <= count && count + off < U32_LIMIT
    ensures ReadLenAsWritten(off, count, size) == ReadLen(off, count, size)
  {
    Wrap32Id(count + off);
    Wrap32Id(Min(count + off, size) - off);
  }

  /**
   * As written, a count near 2^32 wraps count + offset below the offset, and
   * the remaining length wraps to nearly 2^32: the read runs past the end of
   * a 1000-byte file instead of stopping after 900 bytes.
   */
  lemma ReadAsWrittenOverruns()
    ensures ReadLenAsWritten(100, 0xFFFF_FFF0, 1000) == 0xFFFF_FFF0
    ensures ReadLen(100, 0xFFFF_FFF0, 1000) == 900
  {
  }

  /**
   * The inner loop of fat32_read: copies from cluster `cur`, the ci-th of
   * the chain, whose first byte is at file position `start`, starting inClus
   * bytes into it, sector by sector, until
   * `remain` bytes are copied or the cluster ends.
   */
  method ReadCluster(v: Volume, disk: int -> seq<u8>, c0: int, cur: int, ghost ci: nat, ghost start: int,
                     inClus: int, remain: int)
    returns (bytes: seq<u8>)
    requires v.boot.secPerClus > 0 && DiskOk(disk) && 0 <= c0 < U32_LIMIT && cur == Nth(v, disk, c0, ci)
    requires start == ci * ClusterBytes(v)
    requires 0 <= inClus < ClusterBytes(v) && 0 < remain
    ensures |bytes| == Min(remain, ClusterBytes(v) - inClus)
    ensures forall q :: 0 <= q < |bytes| ==> bytes[q] == FileByte(v, disk, c0, start + inClus + q)
  {
    MulSign(ci, ClusterBytes(v));
    var spc := v.boot.secPerClus as int;
    var inBlk := inClus % BLOCKSIZE;
    var sec := inClus / BLOCKSIZE;
    Euclid(inClus, BLOCKSIZE);
    var rem := remain;
    bytes := [];
    while rem > 0 && sec < spc
      invariant 0 <= sec <= spc && 0 <= inBlk < BLOCKSIZE && (inBlk > 0 ==> sec < spc)
      invariant 0 <= rem <= remain && |bytes| == remain - rem
      invariant inClus + |bytes| <= sec * BLOCKSIZE + inBlk
      invariant rem > 0 ==> inClus + |bytes| == sec * BLOCKSIZE + inBlk
      invariant forall q :: 0 <= q < |bytes| ==> bytes[q] == FileByte(v, disk, c0, start + inClus + q)
      decreases spc - sec
    {
      var blk := disk(Wrap32(ClusterToSector(v, cur) + sec));
      var copylen := Min(BLOCKSIZE - inBlk, rem);
      CopiedBytes(v, disk, c0, ci, start, sec, inBlk, copylen);
      ghost var before := bytes;
      bytes := bytes + blk[inBlk..inBlk + copylen];
      forall q | |before| <= q < |bytes|
        ensures bytes[q] == FileByte(v, disk, c0, start + inClus + q)
      {
        assert bytes[q] == blk[q - |before| + inBlk];
      }
      rem := rem - copylen;
      inBlk := 0;
      sec := sec + 1;
    }
  }

  /**
   * The cluster loop of fat32_read: from cluster `cur`, which the walk found
   * for position off, copies up to `want` bytes cluster by cluster, and stops
   * early at the first cluster that is not active.
   */
  method ReadChain(v: Volume, disk: int -> seq<u8>, c0: int, cur: int, off: int, want: int)
    returns (data: seq<u8>)
    requires v.boot.secPerClus > 0 && DiskOk(disk) && 0 <= c0 < U32_LIMIT && 0 <= cur < U32_LIMIT
    requires 0 <= off && 0 <= want
    requires IsActiveCluster(cur) ==> cur == Nth(v, disk, c0, ClusterIndex(v, off))
    requires ChainActive(v, disk, c0, 1, ClusterIndex(v, off)) ==> cur == Nth(v, disk, c0, ClusterIndex(v, off))
    ensures |data| <= want
    ensures forall q :: 0 <= q < |data| ==> data[q] == FileByte(v, disk, c0, off + q)
    ensures want > 0 && ChainActive(v, disk, c0, 0, ClusterIndex(v, off + want - 1)) ==> |data| == want
  {
    var cb := v.boot.secPerClus as int * BLOCKSIZE;
    assert cb == ClusterBytes(v);
    var inClus := off % cb;
    var cur := cur;
    ghost var ci: nat := ClusterIndex(v, off);
    ghost var start := ci * cb;
    ghost var last := if want > 0 then ClusterIndex(v, off + want - 1) else 0;
    ghost var full := want > 0 && ChainActive(v, disk, c0, 0, last);
    Euclid(off, cb);
    if full {
      DivMono(off, off + want - 1, cb);
    }
    var remain := want;
    data := [];
    while remain > 0
      invariant 0 <= remain <= want && |data| == want - remain
      invariant 0 <= cur < U32_LIMIT && start == ci * cb
      invariant remain > 0 ==> 0 <= inClus < cb && off + |data| == start + inClus
      invariant forall q :: 0 <= q < |data| ==> data[q] == FileByte(v, disk, c0, off + q)
      invariant IsActiveCluster(cur) ==> cur == Nth(v, disk, c0, ci)
      invariant full && remain > 0 ==> cur == Nth(v, disk, c0, ci) && ci <= last
      decreases remain
    {
      if !IsActiveCluster(cur) {
        if full {
          assert false;
        }
        break;
      }
      var bytes := ReadCluster(v, disk, c0, cur, ci, start, inClus, remain);
      FileBytesAppend(v, disk, c0, off, data, start + inClus, bytes);
      data := data + bytes;
      remain := remain - |bytes|;
      cur := FatentRead(v, disk, cur);
      inClus := 0;
      MulSucc(ci, cb);
      ci := ci + 1;
      start := start + cb;
      if full && remain > 0 {
        DivLower(ci, cb, off + want - 1);
      }
    }
  }

  lemma MulSucc(k: int, d: int)
    ensures (k + 1) * d == k * d + d
  {
  }

  /** Bytes read from the file's position off + |data| on extend the bytes read from off. */
  lemma FileBytesAppend(v: Volume, disk: int -> seq<u8>, c0: int, off: int, data: seq<u8>, pos: int, bytes: seq<u8>)
    requires v.boot.secPerClus > 0 && DiskOk(disk) && 0 <= c0 < U32_LIMIT && 0 <= off && pos == off + |data|
    requires forall q :: 0 <= q < |data| ==> data[q] == FileByte(v, disk, c0, off + q)
    requires forall q :: 0 <= q < |bytes| ==> bytes[q] == FileByte(v, disk, c0, pos + q)
    ensures forall q :: 0 <= q < |data + bytes| ==> (data + bytes)[q] == FileByte(v, disk, c0, off + q)
  {
    forall q | 0 <= q < |data + bytes|
      ensures (data + bytes)[q] == FileByte(v, disk, c0, off + q)
    {
      if q >= |data| {
        assert (data + bytes)[q] == bytes[q - |data|];
      }
    }
  }

  /** How fat32_lseek interprets its offset. */
  datatype Whence = SeekSet | SeekCur | SeekEnd | OtherWhence(code: int)

  /** An open FAT32 file: its offset, and the size and first cluster from its directory entry. */
  class FatFile {
    var offset: int
    const size: int
    const cluster: int

    predicate Valid() {
      0 <= size < U32_LIMIT && 0 <= cluster < U32_LIMIT
    }

    constructor (size: int, cluster: int)
      requires 0 <= size < U32_LIMIT && 0 <= cluster < U32_LIMIT
      ensures Valid() && offset == 0 && this.size == size && this.cluster == cluster
    {
      this.size := size;
      this.cluster := cluster;
      offset := 0;
    }

    /** fat32_lseek: sets, moves or ends the offset; any other whence fails with -1. */
    method Lseek(off: int, whence: Whence) returns (r: int)
      modifies this`offset
      ensures whence.OtherWhence? ==> r == -1 && offset == old(offset)
      ensures whence.SeekSet? ==> r == 0 && offset == off
      ensures whence.SeekCur? ==> r == 0 && offset == old(offset) + off
      ensures whence.SeekEnd? ==> r == 0 && offset == size
    {
      match whence {
        case SeekSet => offset := off;
        case SeekCur => offset := offset + off;
        case SeekEnd => offset := size;
        case OtherWhence(_) => return -1;
      }
      r := 0;
    }

    /**
     * fat32_read with the intended length ReadLen: returns at most that many
     * bytes, each the file's byte at its position, advances the offset by the
     * number returned, and returns all of them when every cluster of the
     * chain up to the last byte wanted is active.
     */
    method Read(v: Volume, disk: int -> seq<u8>, count: int) returns (n: int, data: seq<u8>)
      requires Valid() && v.boot.secPerClus > 0 && DiskOk(disk) && 0 <= count < U32_LIMIT
      modifies this`offset
      ensures n == |data| && 0 <= n <= ReadLen(Wrap32(old(offset)), count, size)
      ensures offset == old(offset) + n
      ensures forall q :: 0 <= q < n ==> data[q] == FileByte(v, disk, cluster, Wrap32(old(offset)) + q)
      ensures var off := Wrap32(old(offset));
              var want := ReadLen(off, count, size);
              want > 0 && ChainActive(v, disk, cluster, 0, ClusterIndex(v, off + want - 1)) ==> n == want
    {
      var off := Wrap32(offset);
      var want := ReadLen(off, count, size);
      if size <= off {
        return 0, [];
      }
      var cur := WalkClusterChain(v, disk, off, cluster);
      data := ReadChain(v, disk, cluster, cur, off, want);
      n := |data|;
      offset := offset + n;
    }
  }
}
