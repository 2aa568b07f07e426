/**
 * Packet buffers (sys/kern/pktbuf.c).  A buffer owns the bytes from
 * `begin` to `end`; the packet itself lies between `head` and `tail`, and
 * headers are prepended by moving `head` back into the headroom.  Every
 * pointer is modelled as its offset from `begin`, so `begin` is 0 and
 * `end` is the length of the storage.
 */
module PktBuf {
  import opened CTypes
  import opened KernLib

  /** The two moving pointers of a buffer whose storage ends at `end`. */
  datatype Ptrs = Ptrs(head: int, tail: int, end: int)

  /** Both moving pointers lie within the storage. */
  predicate Inside(p: Ptrs) {
    0 <= p.head <= p.end && 0 <= p.tail <= p.end
  }

  function Max(a: int, b: int): (r: int)
    ensures r >= a && r >= b && (r == a || r == b)
  {
    if a >= b then a else b
  }

  /** `pktbuf_reserve_headroom`: the new pointers, or None (-1) when the headroom does not fit. */
  function Reserved(p: Ptrs, size: nat): (r: Option<Ptrs>)
    ensures r.None? <==> p.head + size > p.end
    ensures r.Some? ==> r.value == Ptrs(p.head + size, Max(p.head + size, p.tail), p.end)
  {
    if p.head + size > p.end then None
    else Some(Ptrs(p.head + size, Max(p.head + size, p.tail), p.end))
  }

  /** `pktbuf_add_header`: head moves back by size, or None (NULL) when it would pass `begin`. */
  function HeaderAdded(p: Ptrs, size: nat): (r: Option<Ptrs>)
    ensures r.None? <==> size > p.head
    ensures r.Some? ==> r.value.head + size == p.head && r.value.tail == p.tail && r.value.end == p.end
  {
    if size > p.head then None else Some(p.(head := p.head - size))
  }

  /** `pktbuf_remove_header`: head moves forward by size, unchecked. */
  function HeaderRemoved(p: Ptrs, size: nat): (r: Ptrs)
    ensures r.head == p.head + size && r.tail == p.tail && r.end == p.end
  {
    p.(head := p.head + size)
  }

  /** `pktbuf_copyin`: tail moves up to the end of the copied range if it lies beyond it. */
  function CopiedIn(p: Ptrs, size: nat, offset: nat): (r: Ptrs)
    ensures r.tail == Max(p.tail, p.head + offset + size)
    ensures r.head == p.head && r.end == p.end
  {
    if p.head + offset + size > p.tail then p.(tail := p.head + offset + size) else p
  }

  /** Reserving headroom keeps the pointers inside and the packet non-negative in length. */
  lemma ReserveInside(p: Ptrs, size: nat)
    requires Inside(p)
    ensures Reserved(p, size).Some? ==> Inside(Reserved(p, size).value) && Reserved(p, size).value.head <= Reserved(p, size).value.tail
  {
  }

  /** Removing a header of the size just added restores the pointers. */
  lemma AddRemoveRoundTrip(p: Ptrs, size: nat)
    requires HeaderAdded(p, size).Some?
    ensures HeaderRemoved(HeaderAdded(p, size).value, size) == p
  {
  }

  /** Adding a header after removing one of the same size restores the pointers. */
  lemma RemoveAddRoundTrip(p: Ptrs, size: nat)
    requires Inside(p)
    ensures HeaderAdded(HeaderRemoved(p, size), size) == Some(p)
  {
  }

  class PktBuf {
    /** The storage, `begin` to `end`. */
    var mem: array<u8>
    var head: int
    var tail: int

    function Pointers(): Ptrs
      reads this
    {
      Ptrs(head, tail, mem.Length)
    }

    ghost predicate Valid()
      reads this
    {
      Inside(Pointers())
    }

    /** `pktbuf_create`: the packet is the whole of `buf`. */
    constructor Create(buf: array<u8>)
      ensures Valid() && mem == buf && head == 0 && tail == buf.Length
    {
      mem := buf;
      head := 0;
      tail := buf.Length;
    }

    /** `pktbuf_alloc`: fresh storage of `size` bytes holding an empty packet at its start. */
    static method Alloc(size: nat) returns (pkt: PktBuf)
      ensures fresh(pkt) && fresh(pkt.mem) && pkt.Valid()
      ensures pkt.mem.Length == size && pkt.head == 0 && pkt.tail == 0
    {
      var buf := new u8[size];
      pkt := new PktBuf.Create(buf);
      pkt.tail := pkt.head;
    }

    /** `pktbuf_reserve_headroom`: 0 and the moved pointers, or -1 and no change. */
    method ReserveHeadroom(size: nat) returns (r: int)
      requires Valid()
      modifies this
      ensures Valid() && mem == old(mem)
      ensures Reserved(old(Pointers()), size).None? ==> r == -1 && Pointers() == old(Pointers())
      ensures Reserved(old(Pointers()), size).Some? ==> r == 0 && Pointers() == Reserved(old(Pointers()), size).value
    {
      if head + size > mem.Length {
        return -1;
      }
      head := head + size;
      tail := Max(head, tail);
      return 0;
    }

    /** `pktbuf_add_header`: the new head offset, or None (NULL) and no change. */
    method AddHeader(size: nat) returns (hdr: Option<int>)
      requires Valid()
      modifies this
      ensures Valid() && mem == old(mem)
      ensures HeaderAdded(old(Pointers()), size).None? ==> hdr.None? && Pointers() == old(Pointers())
      ensures HeaderAdded(old(Pointers()), size).Some? ==>
                Pointers() == HeaderAdded(old(Pointers()), size).value && hdr == Some(head)
    {
      if size > head {
        return None;
      }
      head := head - size;
      return Some(head);
    }

    /** `pktbuf_remove_header`: the caller removes no more than the storage holds. */
    method RemoveHeader(size: nat)
      requires Valid() && head + size <= mem.Length
      modifies this
      ensures Valid() && mem == old(mem)
      ensures Pointers() == HeaderRemoved(old(Pointers()), size)
    {
      head := head + size;
    }

    /** `pktbuf_copyin`: `size` bytes of data land at head + offset, and tail covers them. */
    method Copyin(data: seq<u8>, size: nat, offset: nat)
      requires Valid() && head + offset + size <= mem.Length && size <= |data|
      modifies this, mem
      ensures Valid() && mem == old(mem)
      ensures Pointers() == CopiedIn(old(Pointers()), size, offset)
      ensures mem[head + offset..head + offset + size] == data[..size]
      ensures mem[..head + offset] == old(mem[..head + offset])
      ensures mem[head + offset + size..] == old(mem[head + offset + size..])
    {
      if head + offset + size > tail {
        tail := head + offset + size;
      }
      var _ := Memcpy(mem, head + offset, data, size);
    }
  }
}
