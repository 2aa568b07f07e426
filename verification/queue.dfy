/**
 * The bounded FIFO over the intrusive list (sys/kern/queue.c): `free`
 * counts the slots still available, and items are linked into `list`.
 */
module Queue {
  import opened List

  class QueueHead {
    var free: int
    var list: ListHead
    /** The queued nodes, oldest first. */
    ghost var Items: seq<ListHead>

    ghost predicate Valid()
      reads this, set x | x in [list] + Items
    {
      Ring([list] + Items)
    }

    /** `queue_init`: `free` is the capacity and the list is empty. */
    constructor (len: int)
      ensures Valid() && free == len && Items == [] && fresh(list)
    {
      free := len;
      list := new ListHead();
      Items := [];
    }

    /** `queue_enqueue`: -1 when full; otherwise the item joins the back and `free` drops by one. */
    method Enqueue(item: ListHead) returns (r: int)
      requires Valid() && item !in [list] + Items
      modifies this, item, list, ([list] + Items)[|Items|]
      ensures Valid() && list == old(list)
      ensures old(free) == 0 ==> r == -1 && free == old(free) && Items == old(Items)
      ensures old(free) != 0 ==> r == 0 && free == old(free) - 1 && Items == old(Items) + [item]
    {
      if free == 0 {
        return -1;
      }
      PushBack(item, list, [list] + Items);
      free := free - 1;
      Items := Items + [item];
      assert [list] + Items == old([list] + Items) + [item];
      return 0;
    }

    /** `queue_dequeue`: NULL when empty; otherwise the oldest item, and `free` grows by one. */
    method Dequeue() returns (p: ListHead?)
      requires Valid()
      modifies this, set x | x in [list] + Items
      ensures Valid() && list == old(list)
      ensures old(Items) == [] ==> p == null && free == old(free) && Items == []
      ensures old(Items) != [] ==> p == old(Items)[0] && free == old(free) + 1 && Items == old(Items)[1..]
      ensures p != null ==> p.next == p && p.prev == p
    {
      ghost var r := [list] + Items;
      RingLinks(r, 0);
      if list.next == list {
        return null;
      }
      free := free + 1;
      p := Pop(list, r);
      Items := Items[1..];
      assert [list] + Items == [list] + r[2..];
    }
  }
}
