/**
 * The intrusive circular doubly linked list (sys/kern/list.c).  A list is
 * a header node whose `next`/`prev` links run through the element nodes and
 * back to the header.  The abstract value of a list is the ring of nodes
 * met by following `next` from the header: `[header] + elements`.
 */
module List {
  class ListHead {
    var next: ListHead?
    var prev: ListHead?

    /** A fresh node set up by `list_init`. */
    constructor ()
      ensures next == this && prev == this
    {
      new;
      next := this;
      prev := this;
    }
  }

  /**
   * The nodes r, all distinct, are linked in a circle: each node's `next`
   * is the following one, each node's `prev` the one before, and the last
   * node links back to the first.
   */
  ghost predicate Ring(r: seq<ListHead>)
    reads r
  {
    && |r| > 0
    && (forall i, j :: 0 <= i < j < |r| ==> r[i] != r[j])
    && (forall i, j {:trigger r[i], r[j]} :: 0 <= i && j == i + 1 < |r| ==> r[i].next == r[j] && r[j].prev == r[i])
    && r[|r| - 1].next == r[0] && r[0].prev == r[|r| - 1]
  }

  /** The node after r[k] in the ring r. */
  function Succ(r: seq<ListHead>, k: nat): ListHead
    requires k < |r|
  {
    if k == |r| - 1 then r[0] else r[k + 1]
  }

  /** The node before r[k] in the ring r. */
  function Pred(r: seq<ListHead>, k: nat): ListHead
    requires k < |r|
  {
    if k == 0 then r[|r| - 1] else r[k - 1]
  }

  /** Each node of a ring links to its ring neighbours. */
  lemma RingLinks(r: seq<ListHead>, k: nat)
    requires Ring(r) && k < |r|
    ensures r[k].next == Succ(r, k) && r[k].prev == Pred(r, k)
    ensures |r| > 1 ==> r[k].next != r[k] && r[k].prev != r[k]
  {
    if |r| > 1 {
      assert Succ(r, k) != r[k] && Pred(r, k) != r[k];
    }
  }

  /** A ring read from any of its nodes is again a ring. */
  lemma {:induction false} RingRotate(r: seq<ListHead>)
    requires Ring(r)
    ensures Ring(r[1..] + [r[0]])
  {
    var q := r[1..] + [r[0]];
    forall i, j | 0 <= i < j < |q| ensures q[i] != q[j] {
      if j < |q| - 1 { assert q[i] == r[i + 1] && q[j] == r[j + 1]; }
      else { assert q[i] == r[i + 1] && q[j] == r[0]; }
    }
    forall i | 0 <= i < |q| - 1 ensures q[i].next == q[i + 1] && q[i + 1].prev == q[i] {
      if i < |q| - 2 { assert q[i] == r[i + 1] && q[i + 1] == r[i + 2]; }
    }
  }

  /** Reading a ring from its k-th node gives a ring. */
  lemma {:induction false} RingRotateBy(r: seq<ListHead>, k: nat)
    requires Ring(r) && k <= |r|
    ensures Ring(r[k..] + r[..k])
    decreases k
  {
    if k == 0 {
      assert r[k..] + r[..k] == r;
    } else {
      RingRotateBy(r, k - 1);
      var q := r[k - 1..] + r[..k - 1];
      RingRotate(q);
      assert q[0] == r[k - 1] && q[1..] == r[k..] + r[..k - 1];
      assert r[..k] == r[..k - 1] + [r[k - 1]];
      assert q[1..] + [q[0]] == r[k..] + r[..k];
    }
  }

  /** `list_init`: the node becomes the header of an empty list. */
  method Init(hdr: ListHead)
    modifies hdr
    ensures Ring([hdr]) && hdr.next == hdr
  {
    hdr.next := hdr;
    hdr.prev := hdr;
  }

  /** `list_is_empty`: the list is empty exactly when the header is its own successor. */
  method IsEmpty(list: ListHead, ghost r: seq<ListHead>) returns (empty: bool)
    requires Ring(r) && r[0] == list
    ensures empty <==> r == [list]
  {
    assert |r| > 1 ==> list.next == r[1] && r[1] != r[0];
    empty := list.next == list;
  }

  /** `list_pushfront`: item becomes the first element, right after the header. */
  method PushFront(item: ListHead, list: ListHead, ghost r: seq<ListHead>)
    requires Ring(r) && r[0] == list && item !in r
    modifies item, list, if |r| == 1 then list else r[1]
    ensures Ring([list, item] + r[1..])
  {
    ghost var succ := if |r| == 1 then list else r[1];
    assert list.next == succ;
    item.next := list.next;
    item.prev := list;
    list.next.prev := item;
    list.next := item;
    ghost var q := [list, item] + r[1..];
    assert forall i :: 2 <= i < |q| ==> q[i] == r[i - 1];
    assert forall i :: 2 <= i < |q| - 1 ==> q[i].next == q[i + 1] && q[i + 1].prev == q[i];
  }

  /** `list_pushback`: item becomes the last element, right before the header. */
  method PushBack(item: ListHead, list: ListHead, ghost r: seq<ListHead>)
    requires Ring(r) && r[0] == list && item !in r
    modifies item, list, r[|r| - 1]
    ensures Ring(r + [item])
  {
    ghost var pred := r[|r| - 1];
    assert list.prev == pred;
    item.next := list;
    item.prev := list.prev;
    list.prev.next := item;
    list.prev := item;
    ghost var q := r + [item];
    assert forall i :: 0 <= i < |r| ==> q[i] == r[i];
    assert forall i :: 0 <= i < |r| - 1 ==> q[i].next == q[i + 1] && q[i + 1].prev == q[i];
  }

  /**
   * `list_remove`: unlinks r[k] from its ring, leaves every other link as it
   * was, and makes the removed node a self-loop.
   */
  method Remove(item: ListHead, ghost r: seq<ListHead>, ghost k: nat)
    requires Ring(r) && k < |r| && r[k] == item
    modifies item, Pred(r, k), Succ(r, k)
    ensures item.next == item && item.prev == item
    ensures |r| > 1 ==> Ring(r[..k] + r[k + 1..])
    ensures forall x :: x in r && x != item && x != Pred(r, k) ==> x.next == old(x.next)
    ensures forall x :: x in r && x != item && x != Succ(r, k) ==> x.prev == old(x.prev)
  {
    RingLinks(r, k);
    item.prev.next := item.next;
    item.next.prev := item.prev;
    item.next := item;
    item.prev := item;
    if |r| > 1 {
      ghost var q := r[..k] + r[k + 1..];
      assert forall i :: 0 <= i < k ==> q[i] == r[i];
      assert forall i :: k <= i < |q| ==> q[i] == r[i + 1];
      assert forall i, j :: 0 <= i < j < |q| ==> q[i] != q[j] by {
        forall i, j | 0 <= i < j < |q| ensures q[i] != q[j] {
          var i', j' := if i < k then i else i + 1, if j < k then j else j + 1;
          assert q[i] == r[i'] && q[j] == r[j'] && i' < j';
        }
      }
    }
  }

  /** `list_pop`: NULL on an empty list, otherwise the first element, unlinked. */
  method Pop(list: ListHead, ghost r: seq<ListHead>) returns (first: ListHead?)
    requires Ring(r) && r[0] == list
    modifies r
    ensures r == [list] ==> first == null && list.next == list && list.prev == list
    ensures |r| > 1 ==> first == r[1] && first.next == first && first.prev == first
    ensures |r| > 1 ==> Ring([list] + r[2..])
  {
    RingLinks(r, 0);
    if list.next == list {
      return null;
    }
    first := list.next;
    Remove(first, r, 1);
    assert r[..1] + r[2..] == [list] + r[2..];
  }

  /** The first element of a ring moved to its end: the ring read from its second node. */
  lemma RingRotateFront(a: ListHead, b: ListHead, rest: seq<ListHead>)
    requires Ring([a, b] + rest)
    ensures Ring([b] + rest + [a])
  {
    var q := [a, b] + rest;
    RingRotate(q);
    assert q[1..] + [q[0]] == [b] + rest + [a];
  }

  /** The last element of a ring moved to its front: the ring read from its last node. */
  lemma RingRotateBack(front: seq<ListHead>, a: ListHead)
    requires Ring(front + [a])
    ensures Ring([a] + front)
  {
    var q := front + [a];
    RingRotateBy(q, |front|);
    assert q[|front|..] + q[..|front|] == [a] + front;
  }

  /** `list_rotate_forward`: the header moves one place on, so the first element becomes the last. */
  method RotateForward(list: ListHead, ghost r: seq<ListHead>)
    requires Ring(r) && r[0] == list
    modifies r
    ensures |r| == 1 ==> list.next == list && list.prev == list
    ensures |r| > 1 ==> Ring([list] + r[2..] + [r[1]])
  {
    RingLinks(r, 0);
    if list.next == list {
      return;
    }
    var next := list.next;
    ghost var rest := r[1..];
    assert next == rest[0];
    assert list !in rest by {
      assert forall j :: 1 <= j < |r| ==> r[0] != r[j];
    }
    Remove(list, r, 0);
    assert r[..0] + r[1..] == rest;
    PushFront(list, next, rest);
    assert rest[1..] == r[2..];
    RingRotateFront(next, list, r[2..]);
  }

  /** `list_rotete_backward`: the header moves one place back, so the last element becomes the first. */
  method RotateBackward(list: ListHead, ghost r: seq<ListHead>)
    requires Ring(r) && r[0] == list
    modifies r
    ensures |r| == 1 ==> list.next == list && list.prev == list
    ensures |r| > 1 ==> Ring([list] + ([r[|r| - 1]] + r[1..|r| - 1]))
  {
    RingLinks(r, 0);
    if list.next == list {
      return;
    }
    var prev := list.prev;
    ghost var mid := r[1..|r| - 1];
    assert prev == r[|r| - 1];
    assert list !in r[1..] by {
      assert forall j :: 1 <= j < |r| ==> r[0] != r[j];
    }
    Remove(list, r, 0);
    assert r[..0] + r[1..] == mid + [prev];
    RingRotateBack(mid, prev);
    PushBack(list, prev, [prev] + mid);
    RingRotateBack([prev] + mid, list);
  }
}
