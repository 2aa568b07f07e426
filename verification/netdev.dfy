/**
 * Network devices (sys/kern/netdev.c): the device table and the packet
 * rings that the drivers fill and drain.  A ring keeps `count` slots and
 * uses all of them, so a full ring has `head == tail` just like an empty
 * one; `free` tells the two apart, but dequeue looks only at the indices.
 */
module NetDev {
  import opened CTypes
  import opened CharDev
  import opened PktBuf

  const MAX_NETDEV: int := 64

  /** One slot on from t, the offsets shift down by one; n - 1 slots on from it is t again. */
  lemma NextShift(t: int, k: int, n: int)
    requires 0 <= t < n && 0 < k <= n
    ensures Slot(Next(t, n), k - 1, n) == if k < n then Slot(t, k, n) else t
  {
  }

  /** Taking the oldest item off a ring: it sits at t, and the rest start one slot on. */
  lemma {:induction false} RingPop<T>(c: seq<T>, a: seq<T>, t: int, n: int)
    requires 0 <= t < n && Ring(c, a, t, n) && 0 < |c|
    ensures c[0] == a[t] && Ring(c[1..], a, Next(t, n), n)
  {
    assert c[0] == a[Slot(t, 0, n)];
    forall i | 0 <= i < |c| - 1 ensures c[1..][i] == a[Slot(Next(t, n), i, n)] {
      NextShift(t, i + 1, n);
    }
  }

  /** Storing x in the slot after the last item appends x to the ring. */
  lemma {:induction false} RingPush<T>(c: seq<T>, a: seq<T>, t: int, n: int, x: T)
    requires 0 <= t < n && Ring(c, a, t, n) && |c| < n
    ensures Ring(c + [x], a[Slot(t, |c|, n) := x], t, n)
  {
    forall i | 0 <= i < |c| + 1 ensures (c + [x])[i] == a[Slot(t, |c|, n) := x][Slot(t, i, n)] {
      if i < |c| {
        SlotInjective(t, i, |c|, n);
      }
    }
  }

  class NdQueue {
    var addr: array<PktBuf?>
    var count: int
    var free: int
    var head: int
    var tail: int
    /** The queued packets, oldest first. */
    ghost var Items: seq<PktBuf?>

    ghost predicate Valid()
      reads this, addr
    {
      && 0 < count && addr.Length == count
      && 0 <= head < count && 0 <= tail < count
      && |Items| <= count && Ring(Items, addr[..], tail, count) && null !in Items
      && (|Items| < count ==> head == Slot(tail, |Items|, count))
      && (|Items| == count ==> head == tail)
      && free == count - |Items|
    }

    /** `ndqueue_create`: an empty ring over `mem` with every slot free. */
    constructor (mem: array<PktBuf?>, count: int)
      requires 0 < count && mem.Length == count
      ensures Valid() && Items == [] && addr == mem
      ensures this.count == count && free == count && head == 0 && tail == 0
    {
      addr := mem;
      this.count := count;
      free := count;
      head := 0;
      tail := 0;
      Items := [];
    }

    /** `ndqueue_enqueue`: 0 when no slot is free; otherwise the packet joins the back and 1 is returned. */
    method Enqueue(pkt: PktBuf) returns (r: int)
      requires Valid()
      modifies this`head, this`free, this`Items, addr
      ensures Valid() && tail == old(tail)
      ensures old(free) == 0 ==> r == 0 && Items == old(Items) && free == 0
      ensures old(free) != 0 ==> r == 1 && Items == old(Items) + [pkt] && free == old(free) - 1
    {
      if free == 0 {
        return 0;
      }
      ghost var c0, a0 := Items, addr[..];
      addr[head] := pkt;
      assert addr[..] == a0[head := pkt];
      RingPush(c0, a0, tail, count, pkt);
      free := free - 1;
      NextShift(tail, |c0| + 1, count);
      head := Next(head, count);
      Items := c0 + [pkt];
      return 1;
    }

    /**
     * `ndqueue_dequeue` as written: NULL when `head == tail`, otherwise the
     * oldest packet.  A full ring also has `head == tail`, so its packets
     * cannot be dequeued.
     */
    method Dequeue() returns (pkt: PktBuf?)
      requires Valid()
      modifies this`tail, this`free, this`Items
      ensures Valid() && head == old(head)
      ensures (old(Items) == [] || |old(Items)| == count) ==> pkt == null && Items == old(Items) && free == old(free)
      ensures 0 < |old(Items)| < count ==> pkt == old(Items)[0] && Items == old(Items)[1..] && free == old(free) + 1
    {
      if head == tail {
        if 0 < |Items| < count {
          SlotInjective(tail, 0, |Items|, count);
        }
        return null;
      }
      pkt := addr[tail];
      RingPop(Items, addr[..], tail, count);
      NextShift(tail, |Items|, count);
      tail := Next(tail, count);
      free := free + 1;
      Items := Items[1..];
    }

    /** The dequeue the ring needs: emptiness decided by `free == count`, so every queued packet comes out in order. */
    method DequeueByFree() returns (pkt: PktBuf?)
      requires Valid()
      modifies this`tail, this`free, this`Items
      ensures Valid() && head == old(head)
      ensures old(Items) == [] ==> pkt == null && Items == [] && free == old(free)
      ensures old(Items) != [] ==> pkt == old(Items)[0] && Items == old(Items)[1..] && free == old(free) + 1
    {
      if free == count {
        return null;
      }
      pkt := addr[tail];
      RingPop(Items, addr[..], tail, count);
      NextShift(tail, |Items|, count);
      tail := Next(tail, count);
      free := free + 1;
      Items := Items[1..];
    }
  }

  /** A ring of one slot holding one packet: `ndqueue_dequeue` reports it empty. */
  method FullRingLooksEmpty(pkt: PktBuf) returns (out: PktBuf?)
    ensures out == null
  {
    var mem := new PktBuf?[1];
    var q := new NdQueue(mem, 1);
    var r := q.Enqueue(pkt);
    out := q.Dequeue();
  }

  class NetDev {
    var devno: int
  }

  /** `netdev_tbl` and `nnetdev`. */
  class NetDevTable {
    var tbl: array<NetDev?>
    var nnetdev: int
    /** The registered devices, in registration order. */
    ghost var Devs: seq<NetDev>

    ghost predicate Valid()
      reads this, tbl, Devs
    {
      && tbl.Length == MAX_NETDEV && nnetdev == |Devs| <= MAX_NETDEV
      && (forall i :: 0 <= i < |Devs| ==> tbl[i] == Devs[i] && Devs[i].devno == i)
    }

    /** `netdev_init`: every entry NULL and no device registered. */
    constructor ()
      ensures Valid() && Devs == [] && fresh(tbl)
      ensures forall i :: 0 <= i < tbl.Length ==> tbl[i] == null
    {
      tbl := new NetDev?[MAX_NETDEV](_ => null);
      nnetdev := 0;
      Devs := [];
    }

    /** `netdev_add`: the device takes the next entry and its index as `devno`. */
    method Add(dev: NetDev)
      requires Valid() && nnetdev < MAX_NETDEV && dev !in Devs
      modifies this, tbl, dev
      ensures Valid() && tbl == old(tbl) && Devs == old(Devs) + [dev]
      ensures dev.devno == old(nnetdev) && nnetdev == old(nnetdev) + 1
    {
      tbl[nnetdev] := dev;
      dev.devno := nnetdev;
      nnetdev := nnetdev + 1;
      Devs := Devs + [dev];
    }
  }
}
