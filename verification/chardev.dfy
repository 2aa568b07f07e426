/**
 * The character-device ring buffer (sys/kern/chardev.c).  One slot is kept
 * free, so a buffer of `size` bytes holds at most `size - 1` bytes; `head`
 * is where the next byte is written and `tail` where the next is read.
 */
module CharDev {
  import opened CTypes

  /** Slot i places after t in a ring of n slots (t < n, i < n). */
  function Slot(t: int, i: int, n: int): (r: int)
    requires 0 <= t < n && 0 <= i < n
    ensures 0 <= r < n
  {
    if t + i < n then t + i else t + i - n
  }

  /** The slot after t, wrapping at n: the `if(p == size) p = 0` step. */
  function Next(t: int, n: int): (r: int)
    requires 0 <= t < n
    ensures 0 <= r < n
  {
    if t + 1 == n then 0 else t + 1
  }

  /** The number of slots from t forward to h in a ring of n slots. */
  function Distance(t: int, h: int, n: int): (r: int)
    requires 0 <= t < n && 0 <= h < n
    ensures 0 <= r < n
    ensures Slot(t, r, n) == h
  {
    if h >= t then h - t else h + n - t
  }

  /** The stored items c sit in a, in order, from slot t on. */
  ghost predicate Ring<T>(c: seq<T>, a: seq<T>, t: int, n: int)
    requires 0 <= t < n
  {
    |a| == n && |c| <= n && forall i :: 0 <= i < |c| ==> c[i] == a[Slot(t, i, n)]
  }

  /** `(tail + (size - 1)) % size` is the slot just before `tail`. */
  lemma LimitSlot(t: int, n: int)
    requires 0 <= t < n
    ensures (t + (n - 1)) % n == Slot(t, n - 1, n)
  {
    if t > 0 {
      assert t + (n - 1) == n + (t - 1);
    }
  }

  /** One slot further on: `Next` steps through the slots in ring order. */
  lemma NextSlot(t: int, i: int, n: int)
    requires 0 <= t < n && 0 <= i && i + 1 < n
    ensures Next(Slot(t, i, n), n) == Slot(t, i + 1, n)
  {
  }

  /** Distance measures the offset of a slot back. */
  lemma SlotDistance(t: int, i: int, n: int)
    requires 0 <= t < n && 0 <= i < n
    ensures Distance(t, Slot(t, i, n), n) == i
  {
  }

  /** Distinct offsets below n name distinct slots. */
  lemma SlotInjective(t: int, i: int, j: int, n: int)
    requires 0 <= t < n && 0 <= i < n && 0 <= j < n
    ensures Slot(t, i, n) == Slot(t, j, n) ==> i == j
  {
  }

  /** Dropping k items from the front moves the ring start k slots on. */
  lemma {:induction false} RingDrop<T>(c: seq<T>, a: seq<T>, t: int, n: int, k: int)
    requires 0 <= t < n && Ring(c, a, t, n) && 0 <= k <= |c| && k < n
    ensures Ring(c[k..], a, Slot(t, k, n), n)
  {
    forall i | 0 <= i < |c| - k ensures c[k..][i] == a[Slot(Slot(t, k, n), i, n)] {
      assert c[k..][i] == c[k + i] == a[Slot(t, k + i, n)];
    }
  }

  /** The array after writing bytes s into consecutive slots from h on. */
  function Fill(a: seq<u8>, h: int, s: seq<u8>, n: int): (r: seq<u8>)
    requires 0 <= h < n && |s| < n && |a| == n
    ensures |r| == n
  {
    if s == [] then a
    else Fill(a, h, s[..|s| - 1], n)[Slot(h, |s| - 1, n) := s[|s| - 1]]
  }

  /** One more byte written: the array gains s[w] in the slot w places after h. */
  lemma FillUpdate(a: seq<u8>, h: int, s: seq<u8>, n: int, w: int, before: seq<u8>, after: seq<u8>, slot: int)
    requires 0 <= h < n && 0 <= w < |s| && w + 1 < n && |a| == n
    requires before == Fill(a, h, s[..w], n) && slot == Slot(h, w, n) && after == before[slot := s[w]]
    ensures after == Fill(a, h, s[..w + 1], n)
  {
    assert s[..w + 1][..w] == s[..w];
  }

  /** Writing the bytes s after the stored bytes c appends s to the contents. */
  lemma {:induction false} FillRing(c: seq<u8>, a: seq<u8>, t: int, n: int, s: seq<u8>)
    requires 0 <= t < n && Ring(c, a, t, n) && |c| + |s| < n
    ensures Ring(c + s, Fill(a, Slot(t, |c|, n), s, n), t, n)
    decreases |s|
  {
    var h := Slot(t, |c|, n);
    if s == [] {
      assert c + s == c;
    } else {
      var m := |s| - 1;
      var x := s[m];
      FillRing(c, a, t, n, s[..m]);
      var b := Fill(a, h, s[..m], n);
      var slot := Slot(h, m, n);
      assert slot == Slot(t, |c| + m, n);
      assert c + s == (c + s[..m]) + [x];
      forall i | 0 <= i < |c + s| ensures (c + s)[i] == b[slot := x][Slot(t, i, n)] {
        if i < |c + s| - 1 {
          SlotInjective(t, i, |c| + m, n);
          assert (c + s)[i] == (c + s[..m])[i];
        }
      }
    }
  }

  /** One more byte read: the copy in `after` extends by the oldest byte not yet copied. */
  lemma CopyStep(c: seq<u8>, d0: seq<u8>, r: int, before: seq<u8>, after: seq<u8>)
    requires 0 <= r < |c| && r < |before| && |d0| == |before|
    requires before[..r] == c[..r] && before[r..] == d0[r..] && after == before[r := c[r]]
    ensures after[..r + 1] == c[..r + 1] && after[r + 1..] == d0[r + 1..]
  {
    assert after[..r + 1] == before[..r] + [c[r]];
    assert c[..r + 1] == c[..r] + [c[r]];
  }

  /**
   * The copying loop of `cdbuf_write`: bytes of `src` go into consecutive
   * slots from `h0` on until `count` are written or the slot before `t` is
   * reached; `used` is the number of slots already taken.
   */
  method WriteLoop(buf: array<u8>, t: int, h0: int, ghost used: int, src: seq<u8>, count: int)
    returns (w: int, h: int)
    requires 0 <= t < buf.Length < U32_LIMIT && 0 <= used < buf.Length
    requires h0 == Slot(t, used, buf.Length) && 0 <= count <= |src|
    modifies buf
    ensures 0 <= w <= count && used + w < buf.Length && h == Slot(t, used + w, buf.Length)
    ensures w == count || used + w == buf.Length - 1
    ensures buf[..] == Fill(old(buf[..]), h0, src[..w], buf.Length)
  {
    ghost var a0 := buf[..];
    var n := buf.Length;
    var limit := (t + (n - 1)) % n;
    LimitSlot(t, n);
    w, h := 0, h0;
    while w < count && h != limit
      invariant 0 <= w <= count && used + w < n
      invariant 0 <= h < n && h == Slot(t, used + w, n)
      invariant buf[..] == Fill(a0, h0, src[..w], n)
    {
      NextSlot(t, used + w, n);
      ghost var before := buf[..];
      buf[h] := src[w];
      FillUpdate(a0, h0, src, n, w, before, buf[..], h);
      h := Next(h, n);
      w := w + 1;
    }
    if w < count {
      SlotInjective(t, used + w, n - 1, n);
    }
  }

  /**
   * The copying loop of `cdbuf_read`: the stored bytes `c`, held in `buf`
   * from slot `t0` on, are copied oldest first into `dest` until `count`
   * are copied or the ring is empty (`t` reaches `h`).
   */
  method ReadLoop(buf: array<u8>, t0: int, h: int, ghost c: seq<u8>, dest: array<u8>, count: int)
    returns (r: int, t: int)
    requires 0 <= t0 < buf.Length && |c| < buf.Length && Ring(c, buf[..], t0, buf.Length)
    requires h == Slot(t0, |c|, buf.Length) && 0 <= count <= dest.Length && dest != buf
    modifies dest
    ensures r == if count < |c| then count else |c|
    ensures t == Slot(t0, r, buf.Length)
    ensures dest[..r] == c[..r] && dest[r..] == old(dest[r..])
  {
    ghost var d0 := dest[..];
    var n := buf.Length;
    r, t := 0, t0;
    while r < count && t != h
      invariant 0 <= r <= count && r <= |c|
      invariant 0 <= t < n && t == Slot(t0, r, n)
      invariant dest[..r] == c[..r] && dest[r..] == d0[r..]
    {
      if r == |c| {
        assert false;
      }
      NextSlot(t0, r, n);
      ghost var before := dest[..];
      dest[r] := buf[t];
      CopyStep(c, d0, r, before, dest[..]);
      t := Next(t, n);
      r := r + 1;
    }
    SlotInjective(t0, r, |c|, n);
  }

  class CdBuf {
    var addr: array<u8>
    var size: int
    var free: int
    var head: int
    var tail: int
    /** The bytes stored, oldest first. */
    ghost var Contents: seq<u8>

    ghost predicate Valid()
      reads this, addr
    {
      && 0 < size < U32_LIMIT && addr.Length == size
      && 0 <= head < size && 0 <= tail < size
      && Ring(Contents, addr[..], tail, size)
      && |Contents| == Distance(tail, head, size)
      && free == size - |Contents|
    }

    /** `cdbuf_create`: an empty buffer over `mem`; a size of 0 would make writes divide by zero. */
    constructor (mem: array<u8>, size: int)
      requires 0 < size < U32_LIMIT && mem.Length == size
      ensures Valid() && Contents == []
      ensures this.addr == mem && this.size == size && free == size && head == 0 && tail == 0
    {
      this.addr := mem;
      this.size := size;
      this.free := size;
      this.head := 0;
      this.tail := 0;
      this.Contents := [];
    }

    /** `cdbuf_read`: moves up to `count` of the oldest bytes into `dest`. */
    method Read(dest: array<u8>, count: int) returns (readCount: int)
      requires Valid() && 0 <= count <= dest.Length && dest != addr
      modifies this`tail, this`free, this`Contents, dest
      ensures Valid() && head == old(head)
      ensures readCount == if count < |old(Contents)| then count else |old(Contents)|
      ensures dest[..readCount] == old(Contents)[..readCount]
      ensures dest[readCount..] == old(dest[readCount..])
      ensures Contents == old(Contents)[readCount..]
      ensures free == old(free) + readCount
    {
      ghost var c0, t0 := Contents, tail;
      readCount, tail := ReadLoop(addr, tail, head, Contents, dest, count);
      free := free + readCount;
      SlotDistance(t0, |c0| - readCount, size);
      RingDrop(c0, addr[..], t0, size, readCount);
      Contents := c0[readCount..];
    }

    /** `cdbuf_write`: appends up to `count` bytes of `src`, stopping one slot before `tail`. */
    method Write(src: seq<u8>, count: int) returns (writeCount: int)
      requires Valid() && 0 <= count <= |src|
      modifies this`head, this`free, this`Contents, addr
      ensures Valid() && tail == old(tail)
      ensures writeCount == if count < size - 1 - |old(Contents)| then count else size - 1 - |old(Contents)|
      ensures Contents == old(Contents) + src[..writeCount]
      ensures free == old(free) - writeCount
    {
      ghost var c0, a0 := Contents, addr[..];
      SlotDistance(tail, |c0|, size);
      writeCount, head := WriteLoop(addr, tail, head, |c0|, src, count);
      free := free - writeCount;
      SlotDistance(tail, |c0| + writeCount, size);
      FillRing(c0, a0, tail, size, src[..writeCount]);
      Contents := c0 + src[..writeCount];
    }
  }
}
