/**
 * The physical page allocator (sys/kern/page.c).  `pageinfo` holds one
 * descriptor per physical page; free pages are threaded through their
 * descriptors' `next_free` into `page_freelist`, newest first.  The chain
 * is modelled as the sequence of page indices it visits, and the two flag
 * bits as booleans.  Pages are handed out by their kernel virtual address,
 * physical address plus `KERN_VMEM_ADDR`.
 */
module Page {
  import opened CTypes

  const PAGESIZE: int := 4096
  const KERN_VMEM_ADDR: int := 0xc000_0000
  const PROTMEM_ADDR: int := 0x10_0000
  const KERN_STRAIGHT_MAP_SIZE: int := 0x3800_0000
  /** sizeof(struct page): a pointer and a u32. */
  const PAGEINFO_SIZE: int := 8

  /** The PAGE_ALLOCATED and PAGE_RESERVED bits of a descriptor. */
  datatype PageFlags = PageFlags(isAllocated: bool, isReserved: bool)

  /** One entry of the BIOS memory map at MEMORYMAP_ADDR. */
  datatype ArDesc = ArDesc(base: int, len: int, kind: int)

  /** The kernel virtual address of page i. */
  function PageAddr(i: nat): (a: int)
    ensures a >= KERN_VMEM_ADDR && (a - KERN_VMEM_ADDR) % PAGESIZE == 0
  {
    KERN_VMEM_ADDR + i * PAGESIZE
  }

  /** `page_free`'s index: the physical address divided by PAGESIZE. */
  function PageIndex(addr: int): int {
    (addr - KERN_VMEM_ADDR) / PAGESIZE
  }

  /** Freeing finds the descriptor that allocation took the address from. */
  lemma PageIndexOfAddr(i: nat)
    ensures PageIndex(PageAddr(i)) == i
  {
    assert PageAddr(i) - KERN_VMEM_ADDR == i * PAGESIZE;
  }

  /** The indices hi - 1 down to lo: the order in which pushing lo .. hi - 1 leaves them. */
  function Descending(lo: int, hi: int): (s: seq<int>)
    ensures |s| == if hi <= lo then 0 else hi - lo
    ensures forall k :: 0 <= k < |s| ==> s[k] == hi - 1 - k
    decreases hi - lo
  {
    if hi <= lo then [] else [hi - 1] + Descending(lo, hi - 1)
  }

  /** A memory map is read up to its first all-zero (base, len) entry. */
  predicate Terminated(regions: seq<ArDesc>) {
    exists k :: 0 <= k < |regions| && regions[k].base == 0 && regions[k].len == 0
  }

  /** The index of the terminating entry. */
  function EndOfMap(regions: seq<ArDesc>, from: nat): (k: nat)
    requires from <= |regions| && exists k :: from <= k < |regions| && regions[k].base == 0 && regions[k].len == 0
    ensures from <= k < |regions| && regions[k].base == 0 && regions[k].len == 0
    ensures forall j :: from <= j < k ==> regions[j].base != 0 || regions[j].len != 0
    decreases |regions| - from
  {
    if regions[from].base == 0 && regions[from].len == 0 then from else EndOfMap(regions, from + 1)
  }

  /** The end of the last usable (type 1) region before position k, truncated to 32 bits; `prev` if there is none. */
  function LastUsableEnd(regions: seq<ArDesc>, k: nat, prev: int): (m: int)
    requires k <= |regions|
    ensures prev >= 0 ==> m >= 0
  {
    if k == 0 then prev
    else if regions[k - 1].kind == 1 then Wrap32(regions[k - 1].base + regions[k - 1].len)
    else LastUsableEnd(regions, k - 1, prev)
  }

  /** The memory size `page_init` settles on: clamped to the straight map and rounded down to a page. */
  function ClampMemSize(m: int): (r: int)
    requires m >= 0
    ensures 0 <= r <= m && r <= KERN_STRAIGHT_MAP_SIZE && r % PAGESIZE == 0
    ensures r > (if m < KERN_STRAIGHT_MAP_SIZE then m else KERN_STRAIGHT_MAP_SIZE) - PAGESIZE
  {
    var c := if m < KERN_STRAIGHT_MAP_SIZE then m else KERN_STRAIGHT_MAP_SIZE;
    c - c % PAGESIZE
  }

  /** The first page `recycle_area` frees at boot: the first whole page after the descriptor table. */
  function FirstFreePage(npages: nat): int {
    (PROTMEM_ADDR + npages * PAGEINFO_SIZE + (PAGESIZE - 1)) / PAGESIZE
  }

  /**
   * `recycle_area(start, memsize - start)` with memsize a whole number of
   * pages frees exactly the pages from the one `start` rounds up to, up to
   * the last page of memory.
   */
  lemma RecycleReachesEnd(start: int, npages: nat)
    requires 0 <= start <= npages * PAGESIZE
    ensures (start + (PAGESIZE - 1)) / PAGESIZE + (npages * PAGESIZE - start) / PAGESIZE == npages
  {
    var q := (start + (PAGESIZE - 1)) / PAGESIZE;
    var r := (start + (PAGESIZE - 1)) % PAGESIZE;
    assert start + (PAGESIZE - 1) == q * PAGESIZE + r;
    assert npages * PAGESIZE - start == (npages - q) * PAGESIZE + (PAGESIZE - 1 - r);
    assert (npages * PAGESIZE - start) / PAGESIZE == npages - q;
  }

  /** The pages on a free list are distinct pages of memory, neither allocated nor reserved. */
  ghost predicate FreeListOk(fl: seq<int>, flags: seq<PageFlags>) {
    && (forall k :: 0 <= k < |fl| ==> 0 <= fl[k] < |flags| && flags[fl[k]] == PageFlags(false, false))
    && (forall j, k :: 0 <= j < k < |fl| ==> fl[j] != fl[k])
  }

  /** The flags a with pages lo .. hi - 1 made free. */
  function Cleared(a: seq<PageFlags>, lo: int, hi: int): (r: seq<PageFlags>)
    ensures |r| == |a|
  {
    seq(|a|, j requires 0 <= j < |a| => if lo <= j < hi then PageFlags(false, false) else a[j])
  }

  /** One more page recycled: it was reserved and not yet free, and it joins the list. */
  lemma RecycleStep(fl: seq<int>, a: seq<PageFlags>, lo: int, i: int, hi: int)
    requires 0 <= lo <= i < hi <= |a|
    requires forall j :: lo <= j < hi ==> a[j] == PageFlags(false, true)
    requires FreeListOk(Descending(lo, i) + fl, Cleared(a, lo, i))
    ensures Cleared(a, lo, i)[i] == PageFlags(false, true)
    ensures Cleared(a, lo, i)[i := PageFlags(false, false)] == Cleared(a, lo, i + 1)
    ensures FreeListOk(Descending(lo, i + 1) + fl, Cleared(a, lo, i + 1))
  {
    var c, c1 := Cleared(a, lo, i), Cleared(a, lo, i + 1);
    var old_fl, new_fl := Descending(lo, i) + fl, Descending(lo, i + 1) + fl;
    assert new_fl == [i] + old_fl;
    forall k | 0 <= k < |old_fl| ensures old_fl[k] != i && c1[old_fl[k]] == PageFlags(false, false) {
    }
  }

  /** Taking the first page off a free list and marking it allocated leaves a free list. */
  lemma AllocKeeps(fl: seq<int>, a: seq<PageFlags>)
    requires FreeListOk(fl, a) && fl != []
    ensures FreeListOk(fl[1..], a[fl[0] := PageFlags(true, false)])
  {
    forall k | 0 <= k < |fl| - 1 ensures fl[1..][k] != fl[0] {
      assert fl[1..][k] == fl[k + 1];
    }
  }

  /** Freeing an allocated page and pushing it keeps a free list. */
  lemma FreeKeeps(fl: seq<int>, a: seq<PageFlags>, i: int)
    requires FreeListOk(fl, a) && 0 <= i < |a| && a[i] == PageFlags(true, false)
    ensures FreeListOk([i] + fl, a[i := PageFlags(false, false)])
  {
    forall k | 0 <= k < |fl| ensures fl[k] != i {
    }
  }

  class PageAlloc {
    /** `pageinfo`: the flags of every page of memory. */
    var info: array<PageFlags>
    /** The pages on `page_freelist`, first to be handed out first. */
    var freelist: seq<int>
    var nfree: int

    ghost predicate Valid()
      reads this, info
    {
      nfree == |freelist| && FreeListOk(freelist, info[..])
    }

    /**
     * `page_init`: the memory size is the end of the last usable region
     * of the map, clamped and page-aligned; every page starts reserved,
     * and the pages after the descriptor table are then freed.  The
     * machine must have memory beyond that table.
     */
    constructor Init(regions: seq<ArDesc>)
      requires Terminated(regions)
      requires PROTMEM_ADDR + ClampMemSize(LastUsableEnd(regions, EndOfMap(regions, 0), 0)) / PAGESIZE * PAGEINFO_SIZE
               <= ClampMemSize(LastUsableEnd(regions, EndOfMap(regions, 0), 0))
      ensures Valid()
      ensures info.Length == ClampMemSize(LastUsableEnd(regions, EndOfMap(regions, 0), 0)) / PAGESIZE
      ensures freelist == Descending(FirstFreePage(info.Length), info.Length)
      ensures forall i :: 0 <= i < FirstFreePage(info.Length) && i < info.Length ==> info[i] == PageFlags(false, true)
    {
      var memsize := ScanMemSize(regions);
      memsize := ClampMemSize(memsize);
      var npages := memsize / PAGESIZE;
      info := new PageFlags[npages](_ => PageFlags(false, true));
      var start := PROTMEM_ADDR + npages * PAGEINFO_SIZE;
      nfree := 0;
      freelist := [];
      new;
      RecycleReachesEnd(start, npages);
      RecycleArea(start, memsize - start);
    }

    /** `page_alloc`: NULL when no page is free; otherwise the first free page, now allocated. */
    method Alloc() returns (addr: Option<int>)
      requires Valid()
      modifies this, info
      ensures Valid() && info == old(info)
      ensures old(freelist) == [] ==> addr == None && freelist == [] && info[..] == old(info[..])
      ensures old(freelist) != [] ==>
                && addr == Some(PageAddr(old(freelist)[0]))
                && freelist == old(freelist)[1..] && nfree == old(nfree) - 1
                && info[..] == old(info[..])[old(freelist)[0] := PageFlags(true, false)]
    {
      if freelist == [] {
        return None;
      }
      var i := freelist[0];
      AllocKeeps(freelist, info[..]);
      nfree := nfree - 1;
      freelist := freelist[1..];
      info[i] := info[i].(isAllocated := true);
      return Some(PageAddr(i));
    }

    /** `page_free`: the page loses PAGE_ALLOCATED and goes to the front of the free list. */
    method Free(addr: int)
      requires Valid()
      requires 0 <= PageIndex(addr) < info.Length && info[PageIndex(addr)] == PageFlags(true, false)
      modifies this, info
      ensures Valid() && info == old(info)
      ensures freelist == [PageIndex(addr)] + old(freelist) && nfree == old(nfree) + 1
      ensures info[..] == old(info[..])[PageIndex(addr) := PageFlags(false, false)]
    {
      var index := PageIndex(addr);
      FreeKeeps(freelist, info[..], index);
      info[index] := info[index].(isAllocated := false);
      freelist := [index] + freelist;
      nfree := nfree + 1;
    }

    /** `recycle_area`: the whole pages of [start, start + size) lose PAGE_RESERVED and are pushed in ascending order. */
    method RecycleArea(start: int, size: int)
      requires Valid() && 0 <= start && 0 <= size
      requires (start + (PAGESIZE - 1)) / PAGESIZE + size / PAGESIZE <= info.Length
      requires forall i :: (start + (PAGESIZE - 1)) / PAGESIZE <= i < (start + (PAGESIZE - 1)) / PAGESIZE + size / PAGESIZE
                 ==> info[i] == PageFlags(false, true)
      modifies this, info
      ensures Valid() && info == old(info)
      ensures var lo := (start + (PAGESIZE - 1)) / PAGESIZE;
              && freelist == Descending(lo, lo + size / PAGESIZE) + old(freelist)
              && info[..] == Cleared(old(info[..]), lo, lo + size / PAGESIZE)
    {
      var startindex := (start + (PAGESIZE - 1)) / PAGESIZE;
      var endindex := startindex + size / PAGESIZE;
      freelist := RecycleLoop(info, startindex, endindex, freelist);
      nfree := nfree + (endindex - startindex);
    }
  }

  /** The loop of `recycle_area`: pages lo .. hi - 1 are cleared and pushed in turn onto fl0. */
  method RecycleLoop(pages: array<PageFlags>, lo: int, hi: int, fl0: seq<int>) returns (fl: seq<int>)
    requires 0 <= lo <= hi <= pages.Length
    requires forall j :: lo <= j < hi ==> pages[j] == PageFlags(false, true)
    requires FreeListOk(fl0, pages[..])
    modifies pages
    ensures fl == Descending(lo, hi) + fl0 && |fl| == |fl0| + (hi - lo)
    ensures pages[..] == Cleared(old(pages[..]), lo, hi)
    ensures FreeListOk(fl, pages[..])
  {
    ghost var a0 := pages[..];
    assert Cleared(a0, lo, lo) == a0;
    fl := fl0;
    var i := lo;
    while i < hi
      invariant lo <= i <= hi
      invariant fl == Descending(lo, i) + fl0 && |fl| == |fl0| + (i - lo)
      invariant pages[..] == Cleared(a0, lo, i)
      invariant FreeListOk(fl, pages[..])
    {
      RecycleStep(fl0, a0, lo, i, hi);
      pages[i] := pages[i].(isReserved := false);
      fl := [i] + fl;
      i := i + 1;
    }
  }

  /** The memory-map scan of `page_init`: the last usable region before the terminator decides the size. */
  method ScanMemSize(regions: seq<ArDesc>) returns (memsize: int)
    requires Terminated(regions)
    ensures memsize == LastUsableEnd(regions, EndOfMap(regions, 0), 0) && memsize >= 0
  {
    memsize := 0;
    var k := 0;
    while regions[k].base != 0 || regions[k].len != 0
      invariant 0 <= k <= EndOfMap(regions, 0)
      invariant memsize == LastUsableEnd(regions, k, 0) && memsize >= 0
      decreases EndOfMap(regions, 0) - k
    {
      if regions[k].kind == 1 {
        memsize := Wrap32(regions[k].base + regions[k].len);
      }
      k := k + 1;
    }
  }
}
