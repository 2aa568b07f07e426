/**
 * The kernel heap (sys/kern/malloc.c).  Requests are rounded up to a
 * multiple of 8; each multiple up to 8 * MAX_BIN has a bin, a list of
 * one-page chunks cut into objects of that size.  A chunk page starts with
 * a header (its bin link, the list of its free objects, `nobjs` and
 * `nfree`) followed by the objects.  Larger requests up to a page take a
 * whole page.
 *
 * The headers are modelled as a map from chunk page address to header
 * value, and each free list as the sequence of object addresses it
 * threads; a header's `bin` stands for the bin list its `link` is on.
 */
module Malloc {
  import opened CTypes
  import opened Page

  const SIZE_BASE: int := 8
  /** sizeof(struct chunkhdr): a two-pointer list_head, a pointer and two ints. */
  const CHUNKHDR_SIZE: int := 20
  const MAX_BIN: int := (PAGESIZE - CHUNKHDR_SIZE) / 2 / SIZE_BASE
  /** The bins the heap needs: indices 0 .. MAX_BIN, one more than `bin[MAX_BIN]` declares. */
  const NBINS: int := MAX_BIN + 1

  datatype ChunkHdr = ChunkHdr(bin: int, freelist: seq<int>, nobjs: int, nfree: int)

  /** Where `malloc` sends a request. */
  datatype Route = WholePage | Unsupported | Bin(index: int)

  /** `(request + 7) & ~7` in 32-bit arithmetic. */
  function RoundUp(request: int): (size: int)
    requires 0 <= request < U32_LIMIT
    ensures 0 <= size < U32_LIMIT && size % SIZE_BASE == 0
    ensures request + SIZE_BASE - 1 < U32_LIMIT ==> request <= size < request + SIZE_BASE
    ensures request + SIZE_BASE - 1 >= U32_LIMIT ==> size == 0
  {
    var s := Wrap32(request + (SIZE_BASE - 1));
    s - s % SIZE_BASE
  }

  /** The branch `malloc` takes for a request. */
  function RouteOf(request: int): (r: Route)
    requires 0 <= request < U32_LIMIT
    ensures r == WholePage <==> SIZE_BASE * MAX_BIN < RoundUp(request) <= PAGESIZE
    ensures r == Unsupported <==> RoundUp(request) > PAGESIZE
    ensures r.Bin? ==> r.index * SIZE_BASE == RoundUp(request) && 0 <= r.index <= MAX_BIN
  {
    var size := RoundUp(request);
    if size > SIZE_BASE * MAX_BIN && size <= PAGESIZE then WholePage
    else if size > SIZE_BASE * MAX_BIN then Unsupported
    else Bin(size / SIZE_BASE)
  }

  /** Requests of 2025 to 2032 bytes go to bin MAX_BIN, one past the last of the MAX_BIN bins the source declares. */
  lemma BinIndexOverflows()
    ensures MAX_BIN == 254
    ensures RouteOf(2025) == Bin(MAX_BIN) && RouteOf(2032) == Bin(MAX_BIN)
  {
  }

  /** Every bin index `malloc` computes names one of the NBINS bins. */
  lemma BinIndexInRange(request: int)
    requires 0 <= request < U32_LIMIT
    ensures RouteOf(request).Bin? ==> 0 <= RouteOf(request).index < NBINS
  {
  }

  /** The number of objects a chunk of objsize-byte objects holds. */
  function NObjs(objsize: int): int
    requires objsize > 0
  {
    (PAGESIZE - CHUNKHDR_SIZE) / objsize
  }

  /** The address of object i of the chunk at page c. */
  function ObjAddr(c: int, objsize: int, i: int): int {
    c + CHUNKHDR_SIZE + i * objsize
  }

  /** The free list `getnewchunk` builds: objects i - 1 down to 0, the last pushed first. */
  function NewFreeList(c: int, objsize: int, i: nat): (fl: seq<int>)
    ensures |fl| == i
    ensures forall k :: 0 <= k < i ==> fl[k] == ObjAddr(c, objsize, i - 1 - k)
  {
    seq(i, k requires 0 <= k < i => ObjAddr(c, objsize, i - 1 - k))
  }

  /** The objects of the chunk at page c with objects of objsize bytes. */
  ghost function Objects(c: int, objsize: int): set<int>
    requires objsize > 0
  {
    set i | 0 <= i < NObjs(objsize) :: ObjAddr(c, objsize, i)
  }

  /** A well-formed header of the chunk at page c. */
  ghost predicate ChunkOk(c: int, h: ChunkHdr) {
    && 1 <= h.bin < NBINS && h.nobjs == NObjs(h.bin * SIZE_BASE)
    && h.nfree == |h.freelist|
    && (forall k :: 0 <= k < |h.freelist| ==> h.freelist[k] in Objects(c, h.bin * SIZE_BASE))
    && (forall j, k :: 0 <= j < k < |h.freelist| ==> h.freelist[j] != h.freelist[k])
  }

  /** s without the element x. */
  function Without(s: seq<int>, x: int): (r: seq<int>)
    ensures forall y :: y in r <==> y in s && y != x
    ensures |r| <= |s|
  {
    if s == [] then [] else (if s[0] == x then [] else [s[0]]) + Without(s[1..], x)
  }

  /** c is the kernel address of an allocated page. */
  ghost predicate ChunkPage(c: int, flags: seq<PageFlags>) {
    0 <= PageIndex(c) < |flags| && c == PageAddr(PageIndex(c)) && flags[PageIndex(c)] == PageFlags(true, false)
  }

  /**
   * The heap's bookkeeping: every header describes an allocated page and
   * sits on the list of its bin, and the bin lists hold nothing else.
   */
  ghost predicate HeapOk(bins: seq<seq<int>>, hdr: map<int, ChunkHdr>, flags: seq<PageFlags>) {
    && |bins| == NBINS
    && (forall c :: c in hdr ==> ChunkOk(c, hdr[c]) && ChunkPage(c, flags) && c in bins[hdr[c].bin])
    && (forall b, c {:trigger c in bins[b]} :: 0 <= b < NBINS && c in bins[b] ==> c in hdr && hdr[c].bin == b)
  }

  /** Object i of a chunk is distinct from, and below, every later object. */
  lemma ObjAddrLess(c: int, objsize: int, i: int, j: int)
    requires objsize > 0 && i < j
    ensures ObjAddr(c, objsize, i) < ObjAddr(c, objsize, j)
  {
    assert ObjAddr(c, objsize, j) - ObjAddr(c, objsize, i) == (j - i) * objsize;
  }

  /** A fresh chunk's header is well formed. */
  lemma NewChunkOk(c: int, binindex: int)
    requires 1 <= binindex < NBINS
    ensures ChunkOk(c, ChunkHdr(binindex, NewFreeList(c, binindex * SIZE_BASE, NObjs(binindex * SIZE_BASE)),
                                NObjs(binindex * SIZE_BASE), NObjs(binindex * SIZE_BASE)))
  {
    var sz := binindex * SIZE_BASE;
    var n := NObjs(sz);
    var fl := NewFreeList(c, sz, n);
    forall k | 0 <= k < n ensures fl[k] in Objects(c, sz) {
      assert fl[k] == ObjAddr(c, sz, n - 1 - k);
    }
    forall j, k | 0 <= j < k < n ensures fl[j] != fl[k] {
      ObjAddrLess(c, sz, n - 1 - k, n - 1 - j);
    }
  }

  lemma MulMono(x: int, y: int, m: int)
    requires 0 <= x <= y && 0 <= m
    ensures x * m <= y * m
  {
    assert y * m - x * m == (y - x) * m;
  }

  lemma DivMul(p: int, d: int)
    requires p >= 0 && d > 0
    ensures (p / d) * d <= p
  {
    assert p == d * (p / d) + p % d;
  }

  /** An address less than a page past a page boundary masks down to that boundary. */
  lemma MaskToPage(c: int, off: int)
    requires c >= 0 && c % PAGESIZE == 0 && 0 <= off < PAGESIZE
    ensures (c + off) - (c + off) % PAGESIZE == c
  {
    var q := c / PAGESIZE;
    assert c == q * PAGESIZE;
    assert (c + off) % PAGESIZE == off;
  }

  /** Every object of a chunk lies inside the chunk's page, so masking its address finds the header. */
  lemma ObjectInPage(c: int, objsize: int, a: int)
    requires c >= 0 && c % PAGESIZE == 0 && objsize > 0 && a in Objects(c, objsize)
    ensures a - a % PAGESIZE == c
  {
    var i :| 0 <= i < NObjs(objsize) && a == ObjAddr(c, objsize, i);
    var n := NObjs(objsize);
    MulMono(i + 1, n, objsize);
    DivMul(PAGESIZE - CHUNKHDR_SIZE, objsize);
    assert (i + 1) * objsize == i * objsize + objsize;
    MaskToPage(c, a - c);
  }

  /** Every entry of a bin list is a chunk of that bin. */
  lemma InBin(bins: seq<seq<int>>, hdr: map<int, ChunkHdr>, flags: seq<PageFlags>, b: int, j: int)
    requires HeapOk(bins, hdr, flags) && 0 <= b < NBINS && 0 <= j < |bins[b]|
    ensures bins[b][j] in hdr && hdr[bins[b][j]].bin == b
  {
    var c := bins[b][j];
    assert c in bins[b];
  }

  /** Allocating a page that was free leaves the heap's chunks as they were. */
  lemma AllocKeepsHeap(bins: seq<seq<int>>, hdr: map<int, ChunkHdr>, flags: seq<PageFlags>, i: int)
    requires HeapOk(bins, hdr, flags) && 0 <= i < |flags| && flags[i] == PageFlags(false, false)
    ensures HeapOk(bins, hdr, flags[i := PageFlags(true, false)])
    ensures PageAddr(i) !in hdr
  {
    PageIndexOfAddr(i);
  }

  /** A new chunk on an allocated page joins the back of its bin. */
  lemma AddChunkKeepsHeap(bins: seq<seq<int>>, hdr: map<int, ChunkHdr>, flags: seq<PageFlags>, c: int, h: ChunkHdr)
    requires HeapOk(bins, hdr, flags) && c !in hdr && ChunkOk(c, h) && ChunkPage(c, flags)
    ensures HeapOk(bins[h.bin := bins[h.bin] + [c]], hdr[c := h], flags)
  {
  }

  /** Taking the first free object of a chunk keeps the heap well formed. */
  lemma TakeKeepsHeap(bins: seq<seq<int>>, hdr: map<int, ChunkHdr>, flags: seq<PageFlags>, c: int)
    requires HeapOk(bins, hdr, flags) && c in hdr && hdr[c].freelist != []
    ensures var h := hdr[c];
            HeapOk(bins, hdr[c := h.(freelist := h.freelist[1..], nfree := h.nfree - 1)], flags)
  {
    var h := hdr[c];
    var h' := h.(freelist := h.freelist[1..], nfree := h.nfree - 1);
    forall k | 0 <= k < |h'.freelist| ensures h'.freelist[k] == h.freelist[k + 1] {
    }
    assert ChunkOk(c, h');
  }

  /** Pushing an object that was in use back on its chunk's free list keeps the heap well formed. */
  lemma PushKeepsHeap(bins: seq<seq<int>>, hdr: map<int, ChunkHdr>, flags: seq<PageFlags>, c: int, a: int)
    requires HeapOk(bins, hdr, flags) && c in hdr
    requires a in Objects(c, hdr[c].bin * SIZE_BASE) && a !in hdr[c].freelist
    ensures var h := hdr[c];
            HeapOk(bins, hdr[c := h.(freelist := [a] + h.freelist, nfree := h.nfree + 1)], flags)
  {
    var h := hdr[c];
    var h' := h.(freelist := [a] + h.freelist, nfree := h.nfree + 1);
    forall j, k | 0 <= j < k < |h'.freelist| ensures h'.freelist[j] != h'.freelist[k] {
      if j > 0 {
        assert h'.freelist[j] == h.freelist[j - 1] && h'.freelist[k] == h.freelist[k - 1];
      } else {
        assert h'.freelist[k] == h.freelist[k - 1];
      }
    }
    assert ChunkOk(c, h');
  }

  /** Unlinking a chunk from its bin and freeing its page keeps the heap well formed. */
  lemma ReleaseKeepsHeap(bins: seq<seq<int>>, hdr: map<int, ChunkHdr>, flags: seq<PageFlags>, c: int)
    requires HeapOk(bins, hdr, flags) && c in hdr
    ensures HeapOk(bins[hdr[c].bin := Without(bins[hdr[c].bin], c)], hdr - {c}, flags[PageIndex(c) := PageFlags(false, false)])
  {
    var b := hdr[c].bin;
    var bins' := bins[b := Without(bins[b], c)];
    var hdr' := hdr - {c};
    forall d | d in hdr' ensures d in bins'[hdr'[d].bin] && PageIndex(d) != PageIndex(c) {
    }
  }

  /** For each chunk of a bin list: does it have a free object (`nfree > 0`)? */
  function FreeHits(bin: seq<int>, hdr: map<int, ChunkHdr>): (hits: seq<bool>)
    ensures |hits| == |bin|
    ensures forall j :: 0 <= j < |bin| ==> hits[j] == (bin[j] in hdr && hdr[bin[j]].nfree > 0)
  {
    seq(|bin|, j requires 0 <= j < |bin| => bin[j] in hdr && hdr[bin[j]].nfree > 0)
  }

  /** The page the next `page_alloc` hands out, given the free-page list. */
  function NextPage(pfl: seq<int>): (p: Option<int>)
    requires pfl == [] || pfl[0] >= 0
    ensures p.None? <==> pfl == []
  {
    if pfl == [] then None else Some(PageAddr(pfl[0]))
  }

  /** What `getobj` does, as a value: the object, the chunk it comes from, and the new bins and headers. */
  datatype Got = Got(obj: Option<int>, chunk: int, bins: seq<seq<int>>, hdr: map<int, ChunkHdr>)

  /** Headers whose free count is the length of their free list. */
  predicate CountsAgree(hdr: map<int, ChunkHdr>) {
    forall c :: c in hdr ==> hdr[c].nfree == |hdr[c].freelist|
  }

  /**
   * `getobj` on bin b as a function of the heap: the head of the free list
   * of the first chunk of the bin with a free object; failing that, a new
   * chunk on `page` joins the back of the bin and gives the head of its
   * free list; None when there is no such chunk and no new one can be made.
   */
  function GetObjSpec(bins: seq<seq<int>>, hdr: map<int, ChunkHdr>, page: Option<int>, b: int): Got
    requires 0 <= b < |bins| && CountsAgree(hdr)
  {
    var hits := FreeHits(bins[b], hdr);
    FirstTrueIsFirst(hits, 0);
    match FirstTrue(hits, 0)
    case Some(k) =>
      var c := bins[b][k];
      var h := hdr[c];
      Got(Some(h.freelist[0]), c, bins, hdr[c := h.(freelist := h.freelist[1..], nfree := h.nfree - 1)])
    case None =>
      var sz := b * SIZE_BASE;
      if sz < 4 || sz > PAGESIZE - CHUNKHDR_SIZE || page.None? then Got(None, 0, bins, hdr)
      else
        var c := page.value;
        var n := NObjs(sz);
        var fl := NewFreeList(c, sz, n);
        Got(Some(fl[0]), c, bins[b := bins[b] + [c]], hdr[c := ChunkHdr(b, fl[1..], n, n - 1)])
  }

  /**
   * Whether `getobj` on bin list `bin` took a page for a new chunk: it
   * returned an object although no chunk of the bin had a free one.
   */
  ghost predicate PageTaken(bin: seq<int>, hdr: map<int, ChunkHdr>, obj: Option<int>) {
    obj.Some? && FirstTrue(FreeHits(bin, hdr), 0).None?
  }

  /**
   * What `getobj` promises.  NULL exactly when no chunk of the bin has a
   * free object and no new chunk can be made.  Otherwise the object comes
   * either from the first chunk of the bin with a free object, on whose
   * free list it was, or from a new chunk on `page` added at the back of
   * the bin; in both cases it is no longer free, and every other chunk's
   * header is unchanged.
   */
  lemma GetObjSpecMeaning(bins: seq<seq<int>>, hdr: map<int, ChunkHdr>, flags: seq<PageFlags>, page: Option<int>, b: int)
    requires HeapOk(bins, hdr, flags) && 0 <= b < NBINS
    requires page.Some? ==> page.value !in hdr
    ensures var g := GetObjSpec(bins, hdr, page, b);
      g.obj.None? <==>
        (forall c :: c in bins[b] ==> hdr[c].nfree <= 0)
        && (b * SIZE_BASE < 4 || b * SIZE_BASE > PAGESIZE - CHUNKHDR_SIZE || page.None?)
    ensures var g := GetObjSpec(bins, hdr, page, b);
      g.obj.None? ==> g.bins == bins && g.hdr == hdr
    ensures var g := GetObjSpec(bins, hdr, page, b);
      g.obj.Some? && g.chunk in hdr ==>
        && g.obj.value in hdr[g.chunk].freelist && g.bins == bins
        && exists k :: 0 <= k < |bins[b]| && bins[b][k] == g.chunk
             && forall j :: 0 <= j < k ==> bins[b][j] in hdr && hdr[bins[b][j]].nfree <= 0
    ensures var g := GetObjSpec(bins, hdr, page, b);
      g.obj.Some? && g.chunk !in hdr ==>
        && page == Some(g.chunk) && g.bins == bins[b := bins[b] + [g.chunk]]
        && (forall c :: c in bins[b] ==> hdr[c].nfree <= 0)
        && g.obj.value in Objects(g.chunk, b * SIZE_BASE)
    ensures var g := GetObjSpec(bins, hdr, page, b);
      g.obj.Some? ==>
        && g.chunk in g.hdr && g.hdr[g.chunk].bin == b && g.obj.value !in g.hdr[g.chunk].freelist
        && forall c :: c in hdr && c != g.chunk ==> c in g.hdr && g.hdr[c] == hdr[c]
  {
    var hits := FreeHits(bins[b], hdr);
    FirstTrueIsFirst(hits, 0);
    forall j | 0 <= j < |bins[b]| ensures bins[b][j] in hdr && hdr[bins[b][j]].bin == b {
      InBin(bins, hdr, flags, b, j);
    }
    match FirstTrue(hits, 0)
    case Some(k) =>
      var c := bins[b][k];
      var h := hdr[c];
      assert ChunkOk(c, h);
      assert h.freelist[0] in h.freelist;
      assert h.freelist[0] !in h.freelist[1..] by {
        forall j | 0 <= j < |h.freelist| - 1 ensures h.freelist[1..][j] != h.freelist[0] {
          assert h.freelist[1..][j] == h.freelist[j + 1];
        }
      }
    case None =>
      var sz := b * SIZE_BASE;
      if !(sz < 4 || sz > PAGESIZE - CHUNKHDR_SIZE || page.None?) {
        var c := page.value;
        var n := NObjs(sz);
        assert n >= 1;
        var fl := NewFreeList(c, sz, n);
        assert fl[0] == ObjAddr(c, sz, n - 1);
        assert fl[0] !in fl[1..] by {
          forall j | 0 <= j < n - 1 ensures fl[1..][j] != fl[0] {
            ObjAddrLess(c, sz, n - 1 - (j + 1), n - 1);
          }
        }
      }
  }

  class Heap {
    var pages: PageAlloc
    /** The chunk pages on each bin list, in list order. */
    var bins: seq<seq<int>>
    /** The header at the start of each chunk page. */
    var hdr: map<int, ChunkHdr>

    ghost predicate Valid()
      reads this, pages, pages.info
    {
      pages.Valid() && HeapOk(bins, hdr, pages.info[..])
    }

    /** `malloc_init`: every bin empty. */
    constructor (pages: PageAlloc)
      requires pages.Valid()
      ensures Valid() && this.pages == pages && hdr == map[]
      ensures |bins| == NBINS && forall b :: 0 <= b < NBINS ==> bins[b] == []
    {
      this.pages := pages;
      bins := seq(NBINS, _ => []);
      hdr := map[];
    }

    /**
     * `getnewchunk`: objects below 4 bytes or too big for one page are
     * refused; otherwise a fresh page is cut into objects that are all
     * free, the last one first, and its address and header are returned.
     * A failed `page_alloc` also yields None.
     */
    method GetNewChunk(binindex: int) returns (ch: Option<int>, h: ChunkHdr)
      requires Valid() && 0 <= binindex < NBINS
      modifies pages, pages.info
      ensures Valid() && pages == old(pages)
      ensures ch.None? <==>
                binindex * SIZE_BASE < 4 || binindex * SIZE_BASE > PAGESIZE - CHUNKHDR_SIZE || old(pages.freelist) == []
      ensures ch.None? ==> pages.freelist == old(pages.freelist) && pages.info[..] == old(pages.info[..])
      ensures ch.Some? ==>
                && pages.freelist == old(pages.freelist)[1..]
                && pages.info[..] == old(pages.info[..])[old(pages.freelist)[0] := PageFlags(true, false)]
      ensures ch.Some? ==>
                && old(pages.freelist) != [] && ch.value == PageAddr(old(pages.freelist)[0])
                && ch.value !in hdr && ChunkOk(ch.value, h) && ChunkPage(ch.value, pages.info[..])
                && h == ChunkHdr(binindex, NewFreeList(ch.value, binindex * SIZE_BASE, NObjs(binindex * SIZE_BASE)),
                                 NObjs(binindex * SIZE_BASE), NObjs(binindex * SIZE_BASE))
    {
      h := ChunkHdr(0, [], 0, 0);
      var objsize := binindex * SIZE_BASE;
      if objsize < 4 || objsize > PAGESIZE - CHUNKHDR_SIZE {
        return None, h;
      }
      ghost var fl0, flags0 := pages.freelist, pages.info[..];
      if fl0 != [] {
        AllocKeepsHeap(bins, hdr, flags0, fl0[0]);
      }
      var page := pages.Alloc();
      if page.None? {
        return None, h;
      }
      var c := page.value;
      PageIndexOfAddr(fl0[0]);
      var nobjs := NObjs(objsize);
      var freelist: seq<int> := [];
      var obj := c + CHUNKHDR_SIZE;
      var i := 0;
      while i < nobjs
        invariant 0 <= i <= nobjs && obj == ObjAddr(c, objsize, i)
        invariant freelist == NewFreeList(c, objsize, i)
      {
        freelist := [obj] + freelist;
        obj := obj + objsize;
        i := i + 1;
      }
      h := ChunkHdr(binindex, freelist, nobjs, nobjs);
      NewChunkOk(c, binindex);
      return Some(c), h;
    }

    /** The `list_foreach` of `getobj`: the first chunk of bin b with a free object, or the list length. */
    method FindFree(b: int) returns (k: int)
      requires Valid() && 0 <= b < NBINS
      ensures 0 <= k <= |bins[b]|
      ensures forall j :: 0 <= j < k ==> bins[b][j] in hdr && hdr[bins[b][j]].nfree <= 0
      ensures k < |bins[b]| ==> bins[b][k] in hdr && hdr[bins[b][k]].nfree > 0
    {
      k := 0;
      while k < |bins[b]| && (InBin(bins, hdr, pages.info[..], b, k); hdr[bins[b][k]].nfree <= 0)
        invariant 0 <= k <= |bins[b]|
        invariant forall j :: 0 <= j < k ==> bins[b][j] in hdr && hdr[bins[b][j]].nfree <= 0
      {
        k := k + 1;
      }
    }

    /** The chunk added by the `goto retry` path of `getobj`: a new chunk at the back of bin b. */
    method Grow(b: int) returns (ok: bool)
      requires Valid() && 0 <= b < NBINS
      modifies this, pages, pages.info
      ensures Valid() && pages == old(pages)
      ensures ok <==> !(b * SIZE_BASE < 4 || b * SIZE_BASE > PAGESIZE - CHUNKHDR_SIZE || old(pages.freelist) == [])
      ensures ok ==>
                var c := PageAddr(old(pages.freelist)[0]);
                var n := NObjs(b * SIZE_BASE);
                && c !in old(hdr) && n >= 1
                && bins == old(bins)[b := old(bins[b]) + [c]]
                && hdr == old(hdr)[c := ChunkHdr(b, NewFreeList(c, b * SIZE_BASE, n), n, n)]
      ensures ok ==>
                && pages.freelist == old(pages.freelist)[1..]
                && pages.info[..] == old(pages.info[..])[old(pages.freelist)[0] := PageFlags(true, false)]
      ensures !ok ==>
                && bins == old(bins) && hdr == old(hdr)
                && pages.freelist == old(pages.freelist) && pages.info[..] == old(pages.info[..])
    {
      var c, h := GetNewChunk(b);
      if c.None? {
        return false;
      }
      AddChunkKeepsHeap(bins, hdr, pages.info[..], c.value, h);
      hdr := hdr[c.value := h];
      bins := bins[b := bins[b] + [c.value]];
      return true;
    }

    /** The object `getobj` takes from chunk k of bin b: the head of its free list. */
    method Take(b: int, k: int) returns (obj: int)
      requires Valid() && 0 <= b < NBINS && 0 <= k < |bins[b]|
      requires bins[b][k] in hdr && hdr[bins[b][k]].nfree > 0
      modifies this`hdr
      ensures Valid() && bins == old(bins)
      ensures var c := bins[b][k];
              var h := old(hdr[c]);
              && obj == h.freelist[0]
              && hdr == old(hdr)[c := h.(freelist := h.freelist[1..], nfree := h.nfree - 1)]
      ensures var c := obj - obj % PAGESIZE;
              && c == bins[b][k] && c in hdr && hdr[c].bin == b
              && obj in Objects(c, b * SIZE_BASE) && obj !in hdr[c].freelist
    {
      var c := bins[b][k];
      InBin(bins, hdr, pages.info[..], b, k);
      var h := hdr[c];
      obj := h.freelist[0];
      TakeKeepsHeap(bins, hdr, pages.info[..], c);
      hdr := hdr[c := h.(freelist := h.freelist[1..], nfree := h.nfree - 1)];
      PageIndexOfAddr(PageIndex(c));
      ObjectInPage(c, b * SIZE_BASE, obj);
      assert obj !in h.freelist[1..] by {
        forall j | 0 <= j < |h.freelist| - 1 ensures h.freelist[1..][j] != obj {
          assert h.freelist[1..][j] == h.freelist[j + 1];
        }
      }
    }

    /**
     * `getobj`: the first free object of the first chunk of the bin that
     * has one; when none has, a new chunk is appended to the bin and the
     * search is repeated (the `goto retry`).  None when no chunk can be made.
     */
    method GetObj(binindex: int) returns (obj: Option<int>)
      requires Valid() && 0 <= binindex < NBINS
      modifies this, pages, pages.info
      ensures Valid() && pages == old(pages)
      ensures var g := GetObjSpec(old(bins), old(hdr), NextPage(old(pages.freelist)), binindex);
              obj == g.obj && bins == g.bins && hdr == g.hdr
      ensures PageTaken(old(bins[binindex]), old(hdr), obj) ==>
                && pages.freelist == old(pages.freelist)[1..]
                && pages.info[..] == old(pages.info[..])[old(pages.freelist)[0] := PageFlags(true, false)]
      ensures !PageTaken(old(bins[binindex]), old(hdr), obj) ==>
                pages.freelist == old(pages.freelist) && pages.info[..] == old(pages.info[..])
      ensures obj.Some? ==>
                var c := obj.value - obj.value % PAGESIZE;
                && c in hdr && hdr[c].bin == binindex
                && obj.value in Objects(c, binindex * SIZE_BASE) && obj.value !in hdr[c].freelist
    {
      ghost var hits := FreeHits(bins[binindex], hdr);
      FirstTrueIsFirst(hits, 0);
      var k := FindFree(binindex);
      if k == |bins[binindex]| {
        ghost var n0 := |bins[binindex]|;
        var ok := Grow(binindex);
        if !ok {
          return None;
        }
        k := FindFree(binindex);
        assert bins[binindex][n0] in hdr && hdr[bins[binindex][n0]].nfree > 0;
        assert k == n0;
      }
      var o := Take(binindex, k);
      return Some(o);
    }

    /** `malloc`: a whole page, nothing, or an object of the request's bin, as `RouteOf` decides. */
    method Malloc(request: int) returns (m: Option<int>)
      requires Valid() && 0 <= request < U32_LIMIT
      modifies this, pages, pages.info
      ensures Valid() && pages == old(pages)
      ensures RouteOf(request) == Unsupported ==>
                && m == None && hdr == old(hdr) && bins == old(bins)
                && pages.freelist == old(pages.freelist) && pages.info[..] == old(pages.info[..])
      ensures RouteOf(request) == WholePage ==>
                hdr == old(hdr) && bins == old(bins) && (m == None <==> old(pages.freelist) == [])
                && (m.Some? ==> m.value == PageAddr(old(pages.freelist)[0]))
      ensures var taken := match RouteOf(request)
                           case WholePage => m.Some?
                           case Bin(b) => PageTaken(old(bins[b]), old(hdr), m)
                           case Unsupported => false;
              && (taken ==>
                    && old(pages.freelist) != [] && pages.freelist == old(pages.freelist)[1..]
                    && pages.info[..] == old(pages.info[..])[old(pages.freelist)[0] := PageFlags(true, false)])
              && (!taken ==> pages.freelist == old(pages.freelist) && pages.info[..] == old(pages.info[..]))
      ensures RouteOf(request).Bin? ==>
                var g := GetObjSpec(old(bins), old(hdr), NextPage(old(pages.freelist)), RouteOf(request).index);
                m == g.obj && bins == g.bins && hdr == g.hdr
      ensures RouteOf(request).Bin? && m.Some? ==>
                var c := m.value - m.value % PAGESIZE;
                && c in hdr && hdr[c].bin == RouteOf(request).index
                && m.value in Objects(c, RoundUp(request)) && m.value !in hdr[c].freelist
    {
      var size := RoundUp(request);
      if size > SIZE_BASE * MAX_BIN && size <= PAGESIZE {
        if pages.freelist != [] {
          AllocKeepsHeap(bins, hdr, pages.info[..], pages.freelist[0]);
        }
        m := pages.Alloc();
      } else if size > SIZE_BASE * MAX_BIN {
        m := None;
      } else {
        m := GetObj(size / SIZE_BASE);
      }
    }

    /**
     * `free`: the header is found by masking the address down to its page;
     * the object goes back on the chunk's free list, unless that makes every
     * object free, in which case the chunk leaves its bin and its page is
     * freed.  Only objects of chunks can be freed: the whole-page branch is
     * commented out in the source.
     */
    method Free(addr: int)
      requires Valid()
      requires var c := addr - addr % PAGESIZE;
               c in hdr && addr in Objects(c, hdr[c].bin * SIZE_BASE) && addr !in hdr[c].freelist
      modifies this, pages, pages.info
      ensures Valid() && pages == old(pages)
      ensures var c := addr - addr % PAGESIZE;
              var h := old(hdr[c]);
              if h.nfree + 1 == h.nobjs then
                && hdr == old(hdr) - {c} && bins == old(bins)[h.bin := Without(old(bins[h.bin]), c)]
                && pages.freelist == [PageIndex(c)] + old(pages.freelist)
                && pages.info[..] == old(pages.info[..])[PageIndex(c) := PageFlags(false, false)]
              else
                && hdr == old(hdr)[c := h.(freelist := [addr] + h.freelist, nfree := h.nfree + 1)]
                && bins == old(bins) && pages.freelist == old(pages.freelist) && pages.info[..] == old(pages.info[..])
    {
      var c := addr - addr % PAGESIZE;
      var h := hdr[c];
      if h.nfree + 1 == h.nobjs {
        ReleaseKeepsHeap(bins, hdr, pages.info[..], c);
        bins := bins[h.bin := Without(bins[h.bin], c)];
        hdr := hdr - {c};
        pages.Free(c);
      } else {
        PushKeepsHeap(bins, hdr, pages.info[..], c, addr);
        hdr := hdr[c := h.(freelist := [addr] + h.freelist, nfree := h.nfree + 1)];
      }
    }
  }
}
