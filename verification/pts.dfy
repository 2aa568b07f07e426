/**
 * Pseudo-terminals (sys/dev/pts/pts.c).  Minor numbers come in pairs 0&1,
 * 2&3, ...: what one side of a pair writes lands in the receive buffer of
 * the other side, where that side reads it.
 *
 * The device-table registration, the mutex around pts_get, the wake-ups of
 * sleeping readers and the per-terminal line-discipline state are not part
 * of this model.
 */
module Pts {
  import opened CTypes
  import opened CharDev

  /** Number of pseudo-terminal minors. */
  const PTS_NUM := 32
  /** Size of each receive buffer. */
  const PTS_BUFSIZE := 128

  /** The other minor of a pair: an odd minor's partner is one below, an even minor's one above. */
  function Pair(minor: int): int {
    if minor % 2 == 1 then minor - 1 else minor + 1
  }

  /**
   * Pairing is an involution without fixed points, stays among the valid
   * minors, and keeps both sides in the same pair of slots.
   */
  lemma PairInvolution(minor: int)
    ensures Pair(Pair(minor)) == minor && Pair(minor) != minor
    ensures 0 <= minor < PTS_NUM <==> 0 <= Pair(minor) < PTS_NUM
    ensures Pair(minor) / 2 == minor / 2
  {
  }

  /** pts_check_minor: 0 for a valid minor, -1 otherwise. */
  function CheckMinor(minor: int): (r: int)
    ensures r == 0 || r == -1
    ensures r == 0 <==> 0 <= minor < PTS_NUM
  {
    if minor < 0 || minor >= PTS_NUM then -1 else 0
  }

  /** For each pair k (minors 2k and 2k+1): is its even minor unused? */
  function FreePairs(used: seq<bool>): (hits: seq<bool>)
    requires |used| == PTS_NUM
    ensures |hits| == PTS_NUM / 2
    ensures forall k :: 0 <= k < PTS_NUM / 2 ==> hits[k] == !used[2 * k]
  {
    seq(PTS_NUM / 2, k requires 0 <= k < PTS_NUM / 2 => !used[2 * k])
  }

  /** What pts_get returns: the first unused even minor, or -1. */
  function FirstFreePair(used: seq<bool>): int
    requires |used| == PTS_NUM
  {
    match FirstTrue(FreePairs(used), 0)
    case None => -1
    case Some(k) => 2 * k
  }

  /**
   * FirstFreePair is the smallest even minor not in use; -1 means every
   * even minor is in use.
   */
  lemma FirstFreePairIsFirst(used: seq<bool>)
    requires |used| == PTS_NUM
    ensures var r := FirstFreePair(used);
      (r == -1 <==> forall i :: 0 <= i < PTS_NUM && i % 2 == 0 ==> used[i])
      && (r != -1 ==> (0 <= r < PTS_NUM && r % 2 == 0 && !used[r]
                       && forall i :: 0 <= i < r && i % 2 == 0 ==> used[i]))
  {
    var hits := FreePairs(used);
    FirstTrueIsFirst(hits, 0);
    var r := FirstFreePair(used);
    if r == -1 {
      forall i | 0 <= i < PTS_NUM && i % 2 == 0
        ensures used[i]
      {
        assert !hits[i / 2];
      }
    } else {
      forall i | 0 <= i < r && i % 2 == 0
        ensures used[i]
      {
        assert !hits[i / 2];
      }
      assert hits[r / 2];
    }
  }

  class PtsTable {
    /** is_used of each minor. */
    const isUsed: array<bool>
    /** rxbuf of each minor; null until the pair is first opened. */
    const rxbuf: array<CdBuf?>

    /**
     * The tables have a slot per minor; every receive buffer is a valid
     * buffer of PTS_BUFSIZE bytes, and no two slots share a buffer or its
     * memory.
     */
    ghost predicate Valid()
      reads this, isUsed, rxbuf, Bufs(), Mems()
    {
      && isUsed.Length == PTS_NUM && rxbuf.Length == PTS_NUM
      && (forall i :: 0 <= i < PTS_NUM && rxbuf[i] != null ==> rxbuf[i].Valid() && rxbuf[i].size == PTS_BUFSIZE)
      && (forall i, j :: 0 <= i < j < PTS_NUM && rxbuf[i] != null && rxbuf[j] != null ==>
            rxbuf[i] != rxbuf[j] && rxbuf[i].addr != rxbuf[j].addr)
    }

    /** The receive buffers that exist. */
    ghost function Bufs(): set<object>
      reads this, rxbuf
    {
      set i | 0 <= i < rxbuf.Length && rxbuf[i] != null :: rxbuf[i]
    }

    /** The memory of the receive buffers that exist. */
    ghost function Mems(): set<object>
      reads this, rxbuf, Bufs()
    {
      set i | 0 <= i < rxbuf.Length && rxbuf[i] != null :: rxbuf[i].addr
    }

    /** pts_init: every minor unused and without a receive buffer. */
    constructor()
      ensures Valid() && fresh(isUsed) && fresh(rxbuf) && Bufs() == {} && Mems() == {}
      ensures forall i :: 0 <= i < PTS_NUM ==> !isUsed[i] && rxbuf[i] == null
    {
      isUsed := new bool[PTS_NUM];
      rxbuf := new CdBuf?[PTS_NUM];
      new;
      var i := 0;
      while i < PTS_NUM
        invariant 0 <= i <= PTS_NUM
        invariant forall j :: 0 <= j < i ==> !isUsed[j] && rxbuf[j] == null
      {
        isUsed[i] := false;
        rxbuf[i] := null;
        i := i + 1;
      }
    }

    /** Set is_used of a minor and of its partner. */
    method MarkPair(minor: int, v: bool)
      requires Valid() && 0 <= minor < PTS_NUM
      modifies isUsed
      ensures Valid() && isUsed[..] == old(isUsed[..])[minor := v][Pair(minor) := v]
    {
      PairInvolution(minor);
      isUsed[minor] := v;
      isUsed[Pair(minor)] := v;
    }

    /** The search loop of pts_get: the first unused even minor, or -1. */
    method FindFree() returns (r: int)
      requires Valid()
      ensures r == FirstFreePair(isUsed[..])
    {
      ghost var hits := FreePairs(isUsed[..]);
      var i := 0;
      while i < PTS_NUM
        invariant 0 <= i <= PTS_NUM && i % 2 == 0
        invariant FirstTrue(hits, 0) == FirstTrue(hits, i / 2)
      {
        if !isUsed[i] {
          assert hits[i / 2];
          return i;
        }
        i := i + 2;
      }
      return -1;
    }

    /**
     * pts_get as written: it finds the first free pair but does not mark
     * it used, so the table is left as it was.
     */
    method GetAsWritten() returns (r: int)
      requires Valid()
      ensures r == FirstFreePair(isUsed[..])
    {
      r := FindFree();
    }

    /**
     * pts_get, reserving the pair it returns: both minors of the first
     * free pair become used; with no free pair nothing changes and the
     * result is -1.
     */
    method Get() returns (r: int)
      requires Valid()
      modifies isUsed
      ensures Valid()
      ensures r == FirstFreePair(old(isUsed[..]))
      ensures r == -1 ==> isUsed[..] == old(isUsed[..])
      ensures r != -1 ==> isUsed[..] == old(isUsed[..])[r := true][Pair(r) := true]
    {
      r := FindFree();
      if r != -1 {
        FirstFreePairIsFirst(isUsed[..]);
        MarkPair(r, true);
      }
    }

    /**
     * pts_close: a valid minor and its partner both become unused (the
     * receive buffers stay); an invalid minor gives -1 and changes
     * nothing.
     */
    method Close(minor: int) returns (r: int)
      requires Valid()
      modifies isUsed
      ensures Valid() && r == CheckMinor(minor)
      ensures r == -1 ==> isUsed[..] == old(isUsed[..])
      ensures r == 0 ==> isUsed[..] == old(isUsed[..])[minor := false][Pair(minor) := false]
    {
      r := CheckMinor(minor);
      if r != 0 {
        return;
      }
      MarkPair(minor, false);
    }

    /** The minor is valid and in use: open, read and write go ahead only then. */
    predicate Usable(minor: int)
      reads this, isUsed
    {
      0 <= minor < isUsed.Length && isUsed[minor]
    }

    /** cdbuf_create over a fresh PTS_BUFSIZE-byte block. */
    static method NewBuf() returns (b: CdBuf)
      ensures fresh(b) && fresh(b.addr) && b.Valid() && b.Contents == [] && b.size == PTS_BUFSIZE
    {
      var mem := new u8[PTS_BUFSIZE];
      b := new CdBuf(mem, PTS_BUFSIZE);
    }

    /**
     * After pts_open, minor i has a receive buffer: the one it had before
     * (prev), or a fresh empty one when it had none.
     */
    ghost predicate Opened(i: int, prev: CdBuf?)
      requires 0 <= i < rxbuf.Length
      reads this, rxbuf, rxbuf[i]
    {
      rxbuf[i] != null && (prev != null ==> rxbuf[i] == prev)
      && (prev == null ==> rxbuf[i].Contents == [])
    }

    /** Give minor i a fresh empty receive buffer unless it has one. */
    method EnsureBuf(i: int)
      requires Valid() && 0 <= i < PTS_NUM
      modifies rxbuf
      ensures Valid() && rxbuf[i] != null
      ensures old(rxbuf[i]) != null ==> rxbuf[..] == old(rxbuf[..])
      ensures old(rxbuf[i]) == null ==>
        fresh(rxbuf[i]) && fresh(rxbuf[i].addr) && rxbuf[i].Contents == []
        && rxbuf[..] == old(rxbuf[..])[i := rxbuf[i]]
    {
      if rxbuf[i] == null {
        var b := NewBuf();
        rxbuf[i] := b;
      }
    }

    /**
     * pts_open: only a valid minor already marked used can be opened.  Its
     * receive buffer and its partner's are created if missing (existing
     * buffers and their contents are kept), and both minors are marked
     * used.  Otherwise the result is -1 and nothing changes.
     */
    method Open(minor: int) returns (r: int)
      requires Valid()
      modifies isUsed, rxbuf
      ensures Valid()
      ensures !old(Usable(minor)) ==> r == -1 && isUsed[..] == old(isUsed[..]) && rxbuf[..] == old(rxbuf[..])
      ensures old(Usable(minor)) ==> r == 0 && isUsed[..] == old(isUsed[..])[minor := true][Pair(minor) := true]
      ensures old(Usable(minor)) ==>
        rxbuf[..] == old(rxbuf[..])[minor := rxbuf[minor]][Pair(minor) := rxbuf[Pair(minor)]]
      ensures old(Usable(minor)) ==> Opened(minor, old(rxbuf[minor])) && Opened(Pair(minor), old(rxbuf[Pair(minor)]))
      ensures forall i :: 0 <= i < PTS_NUM && old(rxbuf[i]) == null && rxbuf[i] != null ==>
        fresh(rxbuf[i]) && fresh(rxbuf[i].addr)
    {
      if CheckMinor(minor) != 0 || !isUsed[minor] {
        return -1;
      }
      PairInvolution(minor);
      var p := Pair(minor);
      EnsureBuf(minor);
      EnsureBuf(p);
      MarkPair(minor, true);
      return 0;
    }

    /** The tables, the buffers and their memory are the same as before the call. */
    twostate predicate Unmoved()
      reads this, isUsed, rxbuf, Bufs()
    {
      isUsed[..] == old(isUsed[..]) && rxbuf[..] == old(rxbuf[..]) && Bufs() == old(Bufs()) && Mems() == old(Mems())
    }

    /**
     * pts_write: from a usable minor, up to count bytes of src are appended
     * to the receive buffer of its partner, as far as that buffer has
     * room; every other buffer is left alone.  An invalid or unused minor
     * gives -1 and nothing changes.
     */
    method Write(minor: int, src: seq<u8>, count: int) returns (r: int)
      requires Valid() && 0 <= count <= |src|
      requires Usable(minor) ==> rxbuf[Pair(minor)] != null
      modifies Bufs(), Mems()
      ensures Valid() && Unmoved()
      ensures !Usable(minor) ==> r == -1
      ensures Usable(minor) ==>
        var b := rxbuf[Pair(minor)];
        && r == (if count < PTS_BUFSIZE - 1 - |old(b.Contents)| then count else PTS_BUFSIZE - 1 - |old(b.Contents)|)
        && b.Contents == old(b.Contents) + src[..r]
      ensures forall i :: 0 <= i < PTS_NUM && rxbuf[i] != null && (!Usable(minor) || i != Pair(minor)) ==>
        rxbuf[i].Contents == old(rxbuf[i].Contents)
    {
      if CheckMinor(minor) != 0 || !isUsed[minor] {
        return -1;
      }
      PairInvolution(minor);
      var b := rxbuf[Pair(minor)];
      r := b.Write(src, count);
    }

    /**
     * pts_read: from a usable minor, up to count of the oldest bytes of
     * its own receive buffer are moved into dest; every other buffer is
     * left alone.  An invalid or unused minor gives -1 and nothing
     * changes.
     */
    method Read(minor: int, dest: array<u8>, count: int) returns (r: int)
      requires Valid() && 0 <= count <= dest.Length && dest !in Mems()
      requires Usable(minor) ==> rxbuf[minor] != null
      modifies Bufs(), dest
      ensures Valid() && Unmoved()
      ensures !Usable(minor) ==> r == -1 && dest[..] == old(dest[..])
      ensures Usable(minor) ==>
        var b := rxbuf[minor];
        && r == (if count < |old(b.Contents)| then count else |old(b.Contents)|)
        && dest[..r] == old(b.Contents)[..r] && dest[r..] == old(dest[r..])
        && b.Contents == old(b.Contents)[r..]
      ensures forall i :: 0 <= i < PTS_NUM && rxbuf[i] != null && (!Usable(minor) || i != minor) ==>
        rxbuf[i].Contents == old(rxbuf[i].Contents)
    {
      if CheckMinor(minor) != 0 || !isUsed[minor] {
        return -1;
      }
      var b := rxbuf[minor];
      r := b.Read(dest, count);
    }
  }

  /** On a fresh table the first free pair is minors 0 and 1. */
  lemma FirstFreePairEmpty(used: seq<bool>)
    requires |used| == PTS_NUM && forall i :: 0 <= i < PTS_NUM ==> !used[i]
    ensures FirstFreePair(used) == 0
  {
    FirstFreePairIsFirst(used);
  }

  /**
   * With pts_get as written, the minor it hands out cannot be opened: on a
   * fresh table it returns 0, which is not marked used, so pts_open(0)
   * fails.  Nothing else marks a minor used, so no pseudo-terminal can
   * ever be opened.
   */
  method OpenAfterGetAsWritten() returns (minor: int, r: int)
    ensures minor == 0 && r == -1
  {
    var t := new PtsTable();
    minor := t.GetAsWritten();
    FirstFreePairEmpty(t.isUsed[..]);
    r := t.Open(minor);
  }

  /** A fresh table, pts_get and pts_open of the minor it returns. */
  method GetAndOpen() returns (minor: int, t: PtsTable)
    ensures minor == 0 && t.Valid() && fresh(t.isUsed) && fresh(t.rxbuf) && fresh(t.Bufs()) && fresh(t.Mems())
    ensures t.Usable(0) && t.Usable(1) && t.rxbuf[0] != null && t.rxbuf[1] != null && t.rxbuf[1].Contents == []
  {
    t := new PtsTable();
    FirstFreePairEmpty(t.isUsed[..]);
    minor := t.Get();
    assert t.isUsed[0] && t.isUsed[1];
    var ok := t.Open(minor);
  }

  /**
   * With pts_get reserving its pair, a fresh table hands out minor 0, it
   * opens, and whatever (up to a buffer's capacity) is written on minor 0
   * is read back, unchanged, on its partner.
   */
  method PairLoopback(src: seq<u8>) returns (minor: int, got: seq<u8>)
    requires |src| < PTS_BUFSIZE
    ensures minor == 0 && got == src
  {
    var t;
    minor, t := GetAndOpen();
    WriteAll(t, minor, src);
    got := ReadAll(t, Pair(minor), |src|);
  }

  /** Writing fewer bytes than a buffer holds on a minor whose partner's buffer is empty puts them all there. */
  method WriteAll(t: PtsTable, minor: int, src: seq<u8>)
    requires t.Valid() && t.Usable(minor) && |src| < PTS_BUFSIZE
    requires t.rxbuf[Pair(minor)] != null && t.rxbuf[Pair(minor)].Contents == []
    modifies t.Bufs(), t.Mems()
    ensures t.Valid() && t.Unmoved() && t.rxbuf[Pair(minor)].Contents == src
  {
    var n := t.Write(minor, src, |src|);
  }

  /** Reading as many bytes as a buffer holds empties it into the result. */
  method ReadAll(t: PtsTable, minor: int, count: int) returns (got: seq<u8>)
    requires t.Valid() && t.Usable(minor) && t.rxbuf[minor] != null && |t.rxbuf[minor].Contents| == count
    modifies t.Bufs()
    ensures got == old(t.rxbuf[minor].Contents)
  {
    var dest := new u8[count];
    var k := t.Read(minor, dest, count);
    got := dest[..k];
  }
}
