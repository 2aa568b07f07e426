/**
 * Virtual memory maps (sys/kern/vmem.c).  A map is a list of areas, each a
 * page-aligned range of user addresses served by a mapper.  Addresses and
 * sizes are 32-bit unsigned values, so the end of a range is computed with
 * wrap-around exactly as the kernel computes it; masking off the low bits
 * of a value is subtracting its remainder modulo the page size.
 */
module Vmem {
  import opened CTypes
  import Page

  const PAGESIZE: int := Page.PAGESIZE

  /** `x & ~(PAGESIZE-1)`: the page boundary at or below x. */
  function PageBase(x: int): (r: int)
    requires x >= 0
    ensures r % PAGESIZE == 0 && r <= x < r + PAGESIZE
  {
    x - x % PAGESIZE
  }

  /** The range `vm_add_area` records: page-aligned start and size, and the in-page offset of the request. */
  datatype Aligned = Aligned(start: int, size: int, offset: int)

  /** The alignment at the head of `vm_add_area`, in 32-bit arithmetic. */
  function Align(start: int, size: int): (r: Aligned)
    requires 0 <= start < U32_LIMIT && 0 <= size < U32_LIMIT
    ensures r.start + r.offset == start && 0 <= r.offset < PAGESIZE
    ensures r.start % PAGESIZE == 0 && r.size % PAGESIZE == 0 && 0 <= r.size < U32_LIMIT
  {
    var off := start % PAGESIZE;
    Aligned(start - off, PageBase(Wrap32(Wrap32(size + off) + (PAGESIZE - 1))), off)
  }

  /** When nothing wraps, the aligned range covers the requested one and overshoots it by less than a page. */
  lemma AlignCovers(start: int, size: int)
    requires 0 <= start < U32_LIMIT && 0 <= size && start % PAGESIZE + size + (PAGESIZE - 1) < U32_LIMIT
    ensures var r := Align(start, size);
            r.start <= start && start + size <= r.start + r.size < start + size + PAGESIZE
  {
  }

  /** The object an area is backed by; `vm_add_area` points it back at its area. */
  class Mapper {
    var area: Option<VmArea>

    constructor ()
      ensures area == None
    {
      area := None;
    }
  }

  datatype VmArea = VmArea(start: int, size: int, offset: int, flags: int, mapper: Mapper)

  /** The overlap test of `vm_add_area` for the range [start, start+size) against area a, as the kernel computes it. */
  predicate Clashes(start: int, size: int, a: VmArea) {
    || (start < a.start && Wrap32(start + size - 1) >= a.start)
    || (start >= a.start && start <= Wrap32(a.start + a.size - 1))
  }

  /** The two ranges share an address. */
  predicate Intersect(start: int, size: int, a: VmArea) {
    start < a.start + a.size && a.start < start + size
  }

  /** A range that does not run past the end of the 32-bit address space. */
  predicate NoWrap(start: int, size: int) {
    0 <= start && 0 <= size && start + size <= U32_LIMIT
  }

  /** For ranges that do not wrap, a shared address is always caught, and for non-empty ones nothing else is. */
  lemma ClashIffIntersect(start: int, size: int, a: VmArea)
    requires NoWrap(start, size) && NoWrap(a.start, a.size)
    ensures Intersect(start, size, a) ==> Clashes(start, size, a)
    ensures size > 0 && a.size > 0 && Clashes(start, size, a) ==> Intersect(start, size, a)
  {
  }

  /** No two areas of the list share an address. */
  ghost predicate Disjoint(areas: seq<VmArea>) {
    forall i, j :: 0 <= i < j < |areas| ==> !Intersect(areas[j].start, areas[j].size, areas[i])
  }

  /** An area that passes the overlap test against every area of a disjoint list keeps it disjoint. */
  lemma {:induction false} AddKeepsDisjoint(areas: seq<VmArea>, n: VmArea)
    requires Disjoint(areas) && NoWrap(n.start, n.size)
    requires forall k :: 0 <= k < |areas| ==> NoWrap(areas[k].start, areas[k].size) && !Clashes(n.start, n.size, areas[k])
    ensures Disjoint(areas + [n])
  {
    var s := areas + [n];
    forall i, j | 0 <= i < j < |s| ensures !Intersect(s[j].start, s[j].size, s[i]) {
      if j == |areas| {
        ClashIffIntersect(n.start, n.size, areas[i]);
      }
    }
  }

  /** The lookup test of `vm_findarea`; the end of the area is a 32-bit sum. */
  predicate Contains(a: VmArea, addr: int) {
    a.start <= addr && Wrap32(a.start + a.size) > addr
  }

  /** In a disjoint list of areas that end below 4 GiB, at most one area contains an address. */
  lemma {:induction false} ContainsUnique(areas: seq<VmArea>, i: int, j: int, addr: int)
    requires Disjoint(areas) && 0 <= i < |areas| && 0 <= j < |areas|
    requires forall k :: 0 <= k < |areas| ==> 0 <= areas[k].start && 0 <= areas[k].size && areas[k].start + areas[k].size < U32_LIMIT
    requires Contains(areas[i], addr) && i != j
    ensures !Contains(areas[j], addr)
  {
    if i < j {
      assert !Intersect(areas[j].start, areas[j].size, areas[i]);
    } else if j < i {
      assert !Intersect(areas[i].start, areas[i].size, areas[j]);
    }
  }

  /** An area as `vm_add_area` stores it: page-aligned 32-bit values. */
  predicate AreaOk(a: VmArea) {
    && 0 <= a.start < U32_LIMIT && a.start % PAGESIZE == 0
    && 0 <= a.size < U32_LIMIT && a.size % PAGESIZE == 0
    && 0 <= a.offset < PAGESIZE
  }

  class VmMap {
    /** `area_list`, oldest area first. */
    var areas: seq<VmArea>
    var flags: int

    ghost predicate Valid()
      reads this
    {
      forall k :: 0 <= k < |areas| ==> AreaOk(areas[k])
    }

    /** `vm_map_new`: no areas and no flags. */
    constructor ()
      ensures Valid() && areas == [] && flags == 0
    {
      areas := [];
      flags := 0;
    }

    /**
     * `vm_add_area`: -1 and no change when the aligned range fails the
     * overlap test against some area; otherwise the area is appended, the
     * mapper points at it, and 0 is returned.
     */
    method AddArea(start: int, size: int, mapper: Mapper) returns (r: int)
      requires Valid() && 0 <= start < U32_LIMIT && 0 <= size < U32_LIMIT
      modifies this, mapper
      ensures Valid() && flags == old(flags)
      ensures var al := Align(start, size);
              (exists k :: 0 <= k < |old(areas)| && Clashes(al.start, al.size, old(areas)[k])) ==>
                r == -1 && areas == old(areas) && mapper.area == old(mapper.area)
      ensures var al := Align(start, size);
              (forall k :: 0 <= k < |old(areas)| ==> !Clashes(al.start, al.size, old(areas)[k])) ==>
                && r == 0
                && areas == old(areas) + [VmArea(al.start, al.size, al.offset, 0, mapper)]
                && mapper.area == Some(VmArea(al.start, al.size, al.offset, 0, mapper))
    {
      var al := Align(start, size);
      var i := 0;
      while i < |areas|
        invariant 0 <= i <= |areas|
        invariant forall k :: 0 <= k < i ==> !Clashes(al.start, al.size, areas[k])
      {
        if Clashes(al.start, al.size, areas[i]) {
          return -1;
        }
        i := i + 1;
      }
      var area := VmArea(al.start, al.size, al.offset, 0, mapper);
      areas := areas + [area];
      mapper.area := Some(area);
      return 0;
    }

    /** `vm_findarea`: the first area containing addr, or None when no area does. */
    method FindArea(addr: int) returns (a: Option<VmArea>)
      ensures a.None? <==> forall k :: 0 <= k < |areas| ==> !Contains(areas[k], addr)
      ensures a.Some? ==> exists k :: 0 <= k < |areas| && areas[k] == a.value && Contains(a.value, addr)
                                      && forall j :: 0 <= j < k ==> !Contains(areas[j], addr)
    {
      var i := 0;
      while i < |areas|
        invariant 0 <= i <= |areas|
        invariant forall k :: 0 <= k < i ==> !Contains(areas[k], addr)
      {
        if Contains(areas[i], addr) {
          return Some(areas[i]);
        }
        i := i + 1;
      }
      return None;
    }
  }
}
