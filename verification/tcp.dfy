/**
 * TCP connection bookkeeping (sys/net/inet/tcp.c): the modulo-2^32
 * sequence-number window tests, the connection block with its
 * initialisation, listen and close rules, the list of out-of-order ranges
 * that arrived and their handover to the receive list, and the scan of the
 * header options for the peer's maximum segment size.
 *
 * Sequence numbers are 32-bit unsigned values compared around the circle,
 * as section 3.3 of RFC 793 describes: a range is measured by its distance
 * from a base point (the next sequence number the receiver expects).
 */
module Tcp {
  import opened CTypes

  // Connection states.
  const CLOSED: int := 0
  const LISTEN: int := 1
  const SYN_RCVD: int := 2
  const SYN_SENT: int := 3
  const ESTABLISHED: int := 4
  const FIN_WAIT_1: int := 5
  const FIN_WAIT_2: int := 6
  const CLOSING: int := 7
  const TIME_WAIT: int := 8
  const CLOSE_WAIT: int := 9
  const LAST_ACK: int := 10

  // Progress of our own FIN.
  const FIN_NOTREQUESTED: int := 0
  const FIN_REQUESTED: int := 1

  // How the connection was opened.
  const ACTIVE: int := 0
  const PASSIVE: int := 1

  const TCP_RTT_INIT: int := 3
  const STREAM_SEND_BUF: int := 1024
  const STREAM_RECV_BUF: int := 1024

  const ECONNEXIST: int := -5
  const ECONNNOTEXIST: int := -6
  const ECONNCLOSING: int := -7

  // Option kinds and the default maximum segment size of RFC 879.
  const OPT_END_OF_LIST: int := 0
  const OPT_NOP: int := 1
  const OPT_MSS: int := 2
  const DEFAULT_MSS: int := 536
  /** Size of the option-less TCP header. */
  const TCP_HDR_SIZE: int := 20

  predicate IsU32(x: int) { 0 <= x < U32_LIMIT }

  /* ---------------- Sequence-number window tests ---------------- */

  /** `LE_LT(a, b, c)`: a <= b < c around the circle. */
  predicate LeLt(a: int, b: int, c: int) {
    if a < c then a <= b && b < c
    else if a > c then a <= b || b < c
    else false
  }

  /** `LT_LE(a, b, c)`: a < b <= c around the circle. */
  predicate LtLe(a: int, b: int, c: int) {
    if a < c then a < b && b <= c
    else if a > c then a < b || b <= c
    else false
  }

  /** `LE_LE(a, b, c)`: a <= b <= c around the circle. */
  predicate LeLe(a: int, b: int, c: int) {
    if a < c then a <= b && b <= c
    else if a > c then a <= b || b <= c
    else a == b
  }

  /** `LT_LT(a, b, c)`: a < b < c around the circle. */
  predicate LtLt(a: int, b: int, c: int) {
    if a < c then a < b && b < c
    else if a > c then a < b || b < c
    else false
  }

  /** How far b lies past a going forward around the 2^32 circle. */
  function Dist(a: int, b: int): (d: int)
    ensures IsU32(a) && IsU32(b) ==> IsU32(d) && d == Wrap32(b - a)
  {
    if a <= b then b - a else b - a + U32_LIMIT
  }

  /** The four tests are comparisons of distances from a: [a, c), (a, c], [a, c] and (a, c) as arcs of the circle. */
  lemma WindowTestsAreArcs(a: int, b: int, c: int)
    requires IsU32(a) && IsU32(b) && IsU32(c)
    ensures LeLt(a, b, c) <==> Dist(a, b) < Dist(a, c)
    ensures LtLe(a, b, c) <==> 0 < Dist(a, b) <= Dist(a, c)
    ensures LeLe(a, b, c) <==> Dist(a, b) <= Dist(a, c)
    ensures LtLt(a, b, c) <==> 0 < Dist(a, b) < Dist(a, c)
  {
  }

  /** With a == c the arc is empty: only LE_LE can hold, and only for b == a. */
  lemma EmptyWindow(a: int, b: int)
    requires IsU32(a) && IsU32(b)
    ensures !LeLt(a, b, a) && !LtLe(a, b, a) && !LtLt(a, b, a)
    ensures LeLe(a, b, a) <==> b == a
  {
    WindowTestsAreArcs(a, b, a);
  }

  /* ---------------- Arrived ranges ---------------- */

  /** A `tcp_arrival`: the sequence numbers start..end (inclusive) of data that has come in. */
  datatype Arrival = Arrival(startSeq: int, endSeq: int)

  predicate ArrivalOk(a: Arrival) { IsU32(a.startSeq) && IsU32(a.endSeq) }

  predicate AllOk(rs: seq<Arrival>) { forall k :: 0 <= k < |rs| ==> ArrivalOk(rs[k]) }

  /** `arrival_len`: the number of sequence numbers the range holds, in 32-bit arithmetic. */
  function Len(a: Arrival): (n: int)
    ensures IsU32(n)
    ensures ArrivalOk(a) ==> n == Wrap32(Dist(a.startSeq, a.endSeq) + 1)
  {
    Wrap32(a.endSeq - a.startSeq + 1)
  }

  /** Seen from base, the range starts no later than it ends. */
  predicate NonEmpty(base: int, a: Arrival) {
    Dist(base, a.startSeq) <= Dist(base, a.endSeq)
  }

  /** Seen from base, the distance o falls in the range. */
  predicate InRange(base: int, a: Arrival, o: int) {
    Dist(base, a.startSeq) <= o <= Dist(base, a.endSeq)
  }

  /** Some range of rs holds the distance o. */
  ghost predicate Covered(base: int, rs: seq<Arrival>, o: int) {
    exists k :: 0 <= k < |rs| && InRange(base, rs[k], o)
  }

  /** The two ranges overlap or are adjacent, seen from base. */
  predicate Touches(base: int, a: Arrival, b: Arrival) {
    Dist(base, a.startSeq) <= Dist(base, b.endSeq) + 1 && Dist(base, b.startSeq) <= Dist(base, a.endSeq) + 1
  }

  /** No two ranges of the list overlap or are adjacent. */
  ghost predicate Apart(base: int, rs: seq<Arrival>) {
    forall i, j :: 0 <= i < |rs| && 0 <= j < |rs| && i != j ==> !Touches(base, rs[i], rs[j])
  }

  /** The smallest range holding both: earlier start and later end, seen from base. */
  function Hull(base: int, a: Arrival, b: Arrival): (h: Arrival)
    ensures Dist(base, h.startSeq) <= Dist(base, a.startSeq) && Dist(base, h.startSeq) <= Dist(base, b.startSeq)
    ensures Dist(base, h.endSeq) >= Dist(base, a.endSeq) && Dist(base, h.endSeq) >= Dist(base, b.endSeq)
    ensures h.startSeq in {a.startSeq, b.startSeq} && h.endSeq in {a.endSeq, b.endSeq}
  {
    Arrival(if Dist(base, a.startSeq) < Dist(base, b.startSeq) then a.startSeq else b.startSeq,
            if Dist(base, a.endSeq) > Dist(base, b.endSeq) then a.endSeq else b.endSeq)
  }

  /** Ranges that touch cover, together, exactly their hull. */
  lemma HullIsUnion(base: int, a: Arrival, b: Arrival, o: int)
    requires Touches(base, a, b)
    ensures InRange(base, Hull(base, a, b), o) <==> InRange(base, a, o) || InRange(base, b, o)
  {
  }

  /** A non-empty range apart from two touching ranges is apart from their hull. */
  lemma HullAvoids(base: int, x: Arrival, a: Arrival, b: Arrival)
    requires NonEmpty(base, x) && Touches(base, a, b)
    requires !Touches(base, x, a) && !Touches(base, x, b)
    ensures !Touches(base, x, Hull(base, a, b))
  {
  }

  /** The outcome of merging a new range into the stored ones: the ranges kept apart and the merged range. */
  datatype Merged = Merged(kept: seq<Arrival>, range: Arrival)

  /**
   * The merge `tcp_arrival_add` needs: walking the stored ranges in list
   * order, every range that touches the growing new range is absorbed
   * into it; the others are kept in their order.
   */
  function Merge(base: int, rs: seq<Arrival>, cur: Arrival): (m: Merged)
    ensures |m.kept| <= |rs| && forall a :: a in m.kept ==> a in rs
    ensures ArrivalOk(cur) && AllOk(rs) ==> ArrivalOk(m.range) && AllOk(m.kept)
    ensures IsU32(base) && ArrivalOk(cur) && AllOk(rs) && Dist(base, cur.startSeq) == 0 ==> m.range.startSeq == cur.startSeq
    decreases |rs|
  {
    if rs == [] then Merged([], cur)
    else if Touches(base, rs[0], cur) then Merge(base, rs[1..], Hull(base, rs[0], cur))
    else
      var m := Merge(base, rs[1..], cur);
      Merged([rs[0]] + m.kept, m.range)
  }

  /** Merging loses nothing and invents nothing: the same distances are covered before and after. */
  lemma {:induction false} MergeCovers(base: int, rs: seq<Arrival>, cur: Arrival, o: int)
    ensures var m := Merge(base, rs, cur);
            InRange(base, cur, o) || Covered(base, rs, o) <==> InRange(base, m.range, o) || Covered(base, m.kept, o)
    decreases |rs|
  {
    if rs != [] {
      var m := Merge(base, rs, cur);
      assert Covered(base, rs, o) <==> InRange(base, rs[0], o) || Covered(base, rs[1..], o) by {
        if Covered(base, rs, o) {
          var k :| 0 <= k < |rs| && InRange(base, rs[k], o);
          if k > 0 { assert rs[1..][k - 1] == rs[k]; }
        }
        if Covered(base, rs[1..], o) {
          var k :| 0 <= k < |rs[1..]| && InRange(base, rs[1..][k], o);
          assert rs[k + 1] == rs[1..][k];
        }
      }
      if Touches(base, rs[0], cur) {
        HullIsUnion(base, rs[0], cur, o);
        MergeCovers(base, rs[1..], Hull(base, rs[0], cur), o);
      } else {
        var m1 := Merge(base, rs[1..], cur);
        MergeCovers(base, rs[1..], cur, o);
        assert Covered(base, m.kept, o) <==> InRange(base, rs[0], o) || Covered(base, m1.kept, o) by {
          if Covered(base, m.kept, o) {
            var k :| 0 <= k < |m.kept| && InRange(base, m.kept[k], o);
            if k > 0 { assert m1.kept[k - 1] == m.kept[k]; }
          }
          if Covered(base, m1.kept, o) {
            var k :| 0 <= k < |m1.kept| && InRange(base, m1.kept[k], o);
            assert m.kept[k + 1] == m1.kept[k];
          }
          if InRange(base, rs[0], o) { assert m.kept[0] == rs[0]; }
        }
      }
    }
  }

  /** A non-empty range apart from the new range and from every stored one stays apart from the merged range. */
  lemma {:induction false} MergeAvoids(base: int, rs: seq<Arrival>, cur: Arrival, x: Arrival)
    requires NonEmpty(base, x) && !Touches(base, x, cur)
    requires forall k :: 0 <= k < |rs| ==> !Touches(base, x, rs[k])
    ensures !Touches(base, x, Merge(base, rs, cur).range)
    decreases |rs|
  {
    if rs != [] {
      if Touches(base, rs[0], cur) {
        HullAvoids(base, x, rs[0], cur);
        MergeAvoids(base, rs[1..], Hull(base, rs[0], cur), x);
      } else {
        MergeAvoids(base, rs[1..], cur, x);
      }
    }
  }

  /** Stored ranges that are non-empty and apart stay apart, with the merged range in front, after a merge. */
  lemma {:induction false} MergeKeepsApart(base: int, rs: seq<Arrival>, cur: Arrival)
    requires Apart(base, rs) && forall k :: 0 <= k < |rs| ==> NonEmpty(base, rs[k])
    ensures var m := Merge(base, rs, cur); Apart(base, [m.range] + m.kept)
    decreases |rs|
  {
    if rs != [] {
      var rest := rs[1..];
      assert Apart(base, rest) by {
        forall i, j | 0 <= i < |rest| && 0 <= j < |rest| && i != j ensures !Touches(base, rest[i], rest[j]) {
          assert rest[i] == rs[i + 1] && rest[j] == rs[j + 1];
        }
      }
      if Touches(base, rs[0], cur) {
        MergeKeepsApart(base, rest, Hull(base, rs[0], cur));
      } else {
        var m1 := Merge(base, rest, cur);
        MergeKeepsApart(base, rest, cur);
        forall k | 0 <= k < |rest| ensures !Touches(base, rs[0], rest[k]) {
          assert rest[k] == rs[k + 1];
        }
        MergeAvoids(base, rest, cur, rs[0]);
        var s0 := [m1.range] + m1.kept;
        var s := [m1.range] + ([rs[0]] + m1.kept);
        forall i, j | 0 <= i < |s| && 0 <= j < |s| && i != j ensures !Touches(base, s[i], s[j]) {
          if i == 1 || j == 1 {
            var o := if i == 1 then j else i;
            if o > 1 {
              assert s[o] == m1.kept[o - 2] && s[o] in rest;
            }
          } else {
            var i0 := if i == 0 then 0 else i - 1;
            var j0 := if j == 0 then 0 else j - 1;
            assert s[i] == s0[i0] && s[j] == s0[j0];
          }
        }
      }
    }
  }

  /**
   * `tcp_arrival_add` as written: a stored range a is absorbed when
   * LE_LE(next, a.start-1, new.end), which moves the new end to a's end, or
   * when LE_LE(next, new.start, a.end+1), which moves the new start to a's
   * start.  The tests compare against the base, not against each other.
   */
  function MergeAsWritten(base: int, rs: seq<Arrival>, cur: Arrival): (m: Merged)
    ensures |m.kept| <= |rs| && forall a :: a in m.kept ==> a in rs
    decreases |rs|
  {
    if rs == [] then Merged([], cur)
    else
      var a := rs[0];
      var endHit := LeLe(base, Wrap32(a.startSeq - 1), cur.endSeq);
      var startHit := LeLe(base, cur.startSeq, Wrap32(a.endSeq + 1));
      var next := Arrival(if startHit then a.startSeq else cur.startSeq, if endHit then a.endSeq else cur.endSeq);
      if endHit || startHit then MergeAsWritten(base, rs[1..], next)
      else
        var m := MergeAsWritten(base, rs[1..], cur);
        Merged([a] + m.kept, m.range)
  }

  /**
   * Data 10..19 stored, 30..39 arriving, next expected 0: the written merge
   * absorbs the older range and leaves the single range 30..19, so
   * sequence number 15 is no longer held although it arrived.
   */
  lemma MergeAsWrittenDropsData()
    ensures var m := MergeAsWritten(0, [Arrival(10, 19)], Arrival(30, 39));
            m == Merged([], Arrival(30, 19)) && !NonEmpty(0, m.range)
            && Covered(0, [Arrival(10, 19)], 15) && !InRange(0, m.range, 15) && !Covered(0, m.kept, 15)
    ensures var m := Merge(0, [Arrival(10, 19)], Arrival(30, 39));
            m == Merged([Arrival(10, 19)], Arrival(30, 39)) && Covered(0, m.kept, 15)
  {
    var m := Merge(0, [Arrival(10, 19)], Arrival(30, 39));
    assert InRange(0, m.kept[0], 15);
    assert InRange(0, Arrival(10, 19), 15);
  }

  /** Index of the first range starting at x, or |rs| when there is none. */
  function FirstStartingAt(rs: seq<Arrival>, x: int): (k: int)
    ensures 0 <= k <= |rs|
    ensures forall j :: 0 <= j < k ==> rs[j].startSeq != x
    ensures k < |rs| ==> rs[k].startSeq == x
    decreases |rs|
  {
    if rs == [] then 0
    else if rs[0].startSeq == x then 0
    else 1 + FirstStartingAt(rs[1..], x)
  }

  /** Adding to a sequence number modulo 2^32 twice is adding once. */
  lemma Wrap32Add(x: int, y: int)
    ensures Wrap32(x + Wrap32(y)) == Wrap32(x + y)
  {
    var q := y / U32_LIMIT;
    assert Wrap32(y) == y - U32_LIMIT * q;
    assert x + Wrap32(y) == (x + y) + U32_LIMIT * (-q);
  }

  /** The receive side of a connection block: stored ranges, receive list, next expected number and window. */
  datatype RecvSide = RecvSide(arrivals: seq<Arrival>, recvList: seq<Arrival>, nextSeq: int, window: int)

  /**
   * What `tcp_arrival_handover` returns and leaves: the first stored range
   * starting at the next expected number moves to the back of the receive
   * list, the next expected number moves just past its end, and the window
   * shrinks by its length; with no such range, 0 and no change.
   */
  function HandedOver(r: RecvSide): (h: (int, RecvSide))
    requires IsU32(r.nextSeq) && AllOk(r.arrivals)
    ensures var k := FirstStartingAt(r.arrivals, r.nextSeq);
            && (k == |r.arrivals| ==> h == (0, r))
            && (k < |r.arrivals| ==>
                  var a := r.arrivals[k];
                  && h.0 == Len(a) && h.1.nextSeq == Wrap32(a.endSeq + 1)
                  && h.1.arrivals == r.arrivals[..k] + r.arrivals[k + 1..] && h.1.recvList == r.recvList + [a]
                  && h.1.window == Wrap16(r.window - h.0))
  {
    var k := FirstStartingAt(r.arrivals, r.nextSeq);
    if k == |r.arrivals| then (0, r)
    else
      var a := r.arrivals[k];
      Wrap32Add(r.nextSeq, a.endSeq - a.startSeq + 1);
      (Len(a), RecvSide(r.arrivals[..k] + r.arrivals[k + 1..], r.recvList + [a], Wrap32(r.nextSeq + Len(a)), Wrap16(r.window - Len(a))))
  }

  /** A range at the front that starts at the next expected number is the one handed over. */
  lemma HandOverFront(x: Arrival, ks: seq<Arrival>, l: seq<Arrival>, w: int)
    requires ArrivalOk(x) && AllOk(ks)
    ensures HandedOver(RecvSide([x] + ks, l, x.startSeq, w))
            == (Len(x), RecvSide(ks, l + [x], Wrap32(x.endSeq + 1), Wrap16(w - Len(x))))
  {
    var rs := [x] + ks;
    assert FirstStartingAt(rs, x.startSeq) == 0;
    assert rs[..0] + rs[1..] == ks;
  }

  /* ---------------- The connection block ---------------- */

  /** The fields of a connection block other than state, myfin_state and the user-closed flag. */
  datatype CbRest = CbRest(
    rtt: int, mss: int, opentype: int, errno: int, sendPersistTimEnabled: bool,
    sendNextSeq: int, sendBufSize: int, recvNextSeq: int, recvWindow: int, recvBufSize: int,
    arrivals: seq<Arrival>, recvList: seq<Arrival>, queueFree: int, queueLen: int, released: bool)

  class TcpCb {
    var state: int
    var myfinState: int
    var rtt: int
    var mss: int
    var opentype: int
    var errno: int
    var isUserClosed: bool
    var sendPersistTimEnabled: bool
    var sendNextSeq: int
    var sendBufSize: int
    var recvNextSeq: int
    var recvWindow: int
    var recvBufSize: int
    /** `arrival_list`: ranges received ahead of `recv_next_seq`, most recent merge first. */
    var arrivals: seq<Arrival>
    /** `recv_list`: ranges ready for the application, in order. */
    var recvList: seq<Arrival>
    /** `cbqueue`: free slots and queued connections waiting for accept. */
    var queueFree: int
    var queueLen: int
    /** The block has been given back to `free` by a reset after close. */
    var released: bool

    /** The receive side of the block. */
    function Side(): RecvSide
      reads this
    {
      RecvSide(arrivals, recvList, recvNextSeq, recvWindow)
    }

    /** Every field but state, myfin_state and the user-closed flag. */
    function Rest(): CbRest
      reads this
    {
      CbRest(rtt, mss, opentype, errno, sendPersistTimEnabled, sendNextSeq, sendBufSize,
             recvNextSeq, recvWindow, recvBufSize, arrivals, recvList, queueFree, queueLen, released)
    }

    /** The block as `tcpcb_init` leaves it: zeroed, with the listed fields set. */
    ghost predicate Initial()
      reads this
    {
      && state == CLOSED && myfinState == FIN_NOTREQUESTED && rtt == TCP_RTT_INIT
      && recvBufSize == STREAM_RECV_BUF && sendBufSize == STREAM_SEND_BUF
      && !isUserClosed && !sendPersistTimEnabled
      && mss == 0 && opentype == ACTIVE && sendNextSeq == 0 && recvNextSeq == 0 && recvWindow == 0
      && arrivals == [] && recvList == [] && queueFree == 0 && queueLen == 0
    }

    /** The part of the zeroing in `tcpcb_init` that covers sequence numbers, lists and the accept queue. */
    method ZeroData()
      modifies this`mss, this`sendNextSeq, this`recvNextSeq, this`recvWindow
      modifies this`arrivals, this`recvList, this`queueFree, this`queueLen
      ensures mss == 0 && sendNextSeq == 0 && recvNextSeq == 0 && recvWindow == 0
      ensures arrivals == [] && recvList == [] && queueFree == 0 && queueLen == 0
    {
      mss, sendNextSeq, recvNextSeq, recvWindow := 0, 0, 0, 0;
      arrivals, recvList, queueFree, queueLen := [], [], 0, 0;
    }

    /** `tcpcb_init`: every field reset, except that errno survives. */
    method Init()
      modifies this
      ensures state == CLOSED && myfinState == FIN_NOTREQUESTED && rtt == TCP_RTT_INIT
      ensures recvBufSize == STREAM_RECV_BUF && sendBufSize == STREAM_SEND_BUF
      ensures !isUserClosed && !sendPersistTimEnabled
      ensures mss == 0 && opentype == ACTIVE && sendNextSeq == 0 && recvNextSeq == 0 && recvWindow == 0
      ensures arrivals == [] && recvList == [] && queueFree == 0 && queueLen == 0
      ensures errno == old(errno) && released == old(released)
    {
      // The block is zeroed; errno is put back.
      ZeroData();
      state, myfinState, rtt, opentype := CLOSED, FIN_NOTREQUESTED, TCP_RTT_INIT, ACTIVE;
      isUserClosed, sendPersistTimEnabled := false, false;
      sendBufSize, recvBufSize := STREAM_SEND_BUF, STREAM_RECV_BUF;
    }

    /**
     * `tcpcb_reset`: queued connections and both range lists are dropped;
     * a block the user closed is released, any other starts afresh.
     */
    method Reset()
      modifies this
      ensures arrivals == [] && recvList == [] && queueLen == 0 && errno == old(errno)
      ensures old(isUserClosed) ==> released && isUserClosed && state == old(state) && myfinState == old(myfinState)
      ensures !old(isUserClosed) ==> Initial() && released == old(released)
    {
      queueLen := 0;
      arrivals := [];
      recvList := [];
      if isUserClosed {
        released := true;
      } else {
        Init();
      }
    }

    /**
     * `tcp_sock_listen`: ECONNEXIST unless the block is CLOSED or LISTEN;
     * otherwise the accept queue is emptied and sized to the backlog (none
     * for a backlog <= 0), and the block listens passively.
     */
    method Listen(backlog: int) returns (r: int)
      modifies this`state, this`opentype, this`queueFree, this`queueLen
      ensures old(state) !in {CLOSED, LISTEN} ==>
                && r == ECONNEXIST && state == old(state) && opentype == old(opentype)
                && queueFree == old(queueFree) && queueLen == old(queueLen)
      ensures old(state) in {CLOSED, LISTEN} ==>
                r == 0 && state == LISTEN && opentype == PASSIVE
                && queueLen == 0 && queueFree == (if backlog <= 0 then 0 else backlog)
      ensures arrivals == old(arrivals) && recvList == old(recvList) && recvNextSeq == old(recvNextSeq)
    {
      if state != CLOSED && state != LISTEN {
        return ECONNEXIST;
      }
      queueLen := 0;
      queueFree := if backlog <= 0 then 0 else backlog;
      state := LISTEN;
      opentype := PASSIVE;
      return 0;
    }

    /**
     * `tcp_sock_close`: the block is marked closed by the user, then by
     * state: CLOSED is reset with ECONNNOTEXIST; LISTEN and SYN_SENT are
     * reset; SYN_RCVD and ESTABLISHED request a FIN and go to FIN_WAIT_1;
     * CLOSE_WAIT requests a FIN; states already closing give ECONNCLOSING.
     */
    method Close() returns (r: int)
      modifies this
      ensures isUserClosed
      ensures old(state) == CLOSED ==> r == ECONNNOTEXIST && released && arrivals == [] && recvList == []
      ensures old(state) in {LISTEN, SYN_SENT} ==> r == 0 && released && arrivals == [] && recvList == []
      ensures old(state) in {SYN_RCVD, ESTABLISHED} ==> r == 0 && state == FIN_WAIT_1 && myfinState == FIN_REQUESTED
      ensures old(state) == CLOSE_WAIT ==> r == 0 && state == CLOSE_WAIT && myfinState == FIN_REQUESTED
      ensures old(state) in {FIN_WAIT_1, FIN_WAIT_2, CLOSING, LAST_ACK, TIME_WAIT} ==>
                r == ECONNCLOSING && state == old(state) && myfinState == old(myfinState) && released == old(released)
      ensures old(state) !in {CLOSED, LISTEN, SYN_SENT} ==> Rest() == old(Rest())
      ensures !(CLOSED <= old(state) <= LAST_ACK) ==> r == 0 && state == old(state) && myfinState == old(myfinState)
    {
      r := 0;
      isUserClosed := true;
      if state == CLOSED {
        Reset();
        r := ECONNNOTEXIST;
      } else if state == LISTEN || state == SYN_SENT {
        Reset();
      } else if state == SYN_RCVD || state == ESTABLISHED {
        myfinState := FIN_REQUESTED;
        state := FIN_WAIT_1;
      } else if state == FIN_WAIT_1 || state == FIN_WAIT_2 {
        r := ECONNCLOSING;
      } else if state == CLOSE_WAIT {
        myfinState := FIN_REQUESTED;
      } else if state == CLOSING || state == LAST_ACK || state == TIME_WAIT {
        r := ECONNCLOSING;
      }
    }

    /**
     * `tcp_arrival_handover`: the first stored range that starts at
     * `recv_next_seq` moves to the back of the receive list; the next
     * expected number moves just past its end and the window shrinks by its
     * length, which is returned.  With no such range, 0 and no change.
     */
    method Handover() returns (n: int)
      requires IsU32(recvNextSeq) && AllOk(arrivals)
      modifies this`arrivals, this`recvList, this`recvNextSeq, this`recvWindow
      ensures (n, Side()) == HandedOver(old(Side()))
    {
      var i := 0;
      while i < |arrivals|
        invariant 0 <= i <= |arrivals|
        invariant forall j :: 0 <= j < i ==> arrivals[j].startSeq != recvNextSeq
      {
        var a := arrivals[i];
        if recvNextSeq == a.startSeq {
          assert FirstStartingAt(arrivals, recvNextSeq) == i;
          n := Len(a);
          Wrap32Add(recvNextSeq, a.endSeq - a.startSeq + 1);
          recvNextSeq := Wrap32(recvNextSeq + n);
          recvWindow := Wrap16(recvWindow - n);
          arrivals := arrivals[..i] + arrivals[i + 1..];
          recvList := recvList + [a];
          return;
        }
        i := i + 1;
      }
      n := 0;
    }

    /**
     * `tcp_arrival_add`, with the merge absorbing exactly the ranges that
     * touch the new one; the merged range goes to the front.  When the new
     * range starts at `recv_next_seq`, the merged range starts there too
     * and is handed over at once.
     */
    method ArrivalAdd(start: int, end: int)
      requires IsU32(recvNextSeq) && IsU32(start) && IsU32(end) && AllOk(arrivals)
      modifies this`arrivals, this`recvList, this`recvNextSeq, this`recvWindow
      ensures AllOk(arrivals)
      ensures var m := Merge(old(recvNextSeq), old(arrivals), Arrival(start, end));
              old(recvNextSeq) != start ==>
                && arrivals == [m.range] + m.kept && recvList == old(recvList)
                && recvNextSeq == old(recvNextSeq) && recvWindow == old(recvWindow)
      ensures var m := Merge(old(recvNextSeq), old(arrivals), Arrival(start, end));
              old(recvNextSeq) == start ==>
                && m.range.startSeq == start
                && (Len(m.range), Side()) == HandedOver(RecvSide([m.range] + m.kept, old(recvList), start, old(recvWindow)))
    {
      var m := MergeLoop(recvNextSeq, arrivals, Arrival(start, end));
      arrivals := [m.range] + m.kept;
      if recvNextSeq == start {
        assert m.range.startSeq == start;
        var n := Handover();
      }
    }
  }

  /** One stored range further into the merge walk: absorbed into the current range, or appended to the kept ones. */
  lemma MergeStep(base: int, rs: seq<Arrival>, i: int, cur: Arrival, kept: seq<Arrival>, whole: Merged)
    requires 0 <= i < |rs|
    requires var r := Merge(base, rs[i..], cur); whole == Merged(kept + r.kept, r.range)
    ensures Touches(base, rs[i], cur) ==>
              var r := Merge(base, rs[i + 1..], Hull(base, rs[i], cur)); whole == Merged(kept + r.kept, r.range)
    ensures !Touches(base, rs[i], cur) ==>
              var r := Merge(base, rs[i + 1..], cur); whole == Merged((kept + [rs[i]]) + r.kept, r.range)
  {
    assert rs[i..][0] == rs[i] && rs[i..][1..] == rs[i + 1..];
    if !Touches(base, rs[i], cur) {
      var r := Merge(base, rs[i + 1..], cur);
      assert kept + ([rs[i]] + r.kept) == (kept + [rs[i]]) + r.kept;
    }
  }

  /** The walk over the stored ranges that `tcp_arrival_add` makes. */
  method MergeLoop(base: int, rs: seq<Arrival>, incoming: Arrival) returns (m: Merged)
    requires AllOk(rs) && ArrivalOk(incoming)
    ensures m == Merge(base, rs, incoming) && ArrivalOk(m.range) && AllOk(m.kept)
  {
    var cur := incoming;
    var kept: seq<Arrival> := [];
    var i := 0;
    while i < |rs|
      invariant 0 <= i <= |rs|
      invariant var r := Merge(base, rs[i..], cur); Merge(base, rs, incoming) == Merged(kept + r.kept, r.range)
      invariant ArrivalOk(cur) && AllOk(kept)
    {
      var a := rs[i];
      MergeStep(base, rs, i, cur, kept, Merge(base, rs, incoming));
      if Touches(base, a, cur) {
        cur := Hull(base, a, cur);
      } else {
        kept := kept + [a];
      }
      i := i + 1;
    }
    m := Merged(kept, cur);
  }

  /* ---------------- Maximum segment size option ---------------- */

  /** Where the payload starts: `th_off * 4`, the data offset in the high nibble of byte 12. */
  function DataStart(seg: seq<u8>): (d: int)
    ensures 0 <= d <= 60 && d % 4 == 0
  {
    (ByteAt(seg, 12) / 16) * 4
  }

  /** A 16-bit value stored big-endian at offset k. */
  function Be16At(seg: seq<u8>, k: int): (v: int)
    ensures 0 <= v < U16_LIMIT
  {
    ByteAt(seg, k) * 256 + ByteAt(seg, k + 1)
  }

  /** One turn of the option loop: a result, or the offset the scan moves to. */
  datatype OptScan = Found(value: int) | Next(pos: int)

  /** One turn of the option loop of `get_tcpopt_mss` as written: an unknown option moves the scan by its length minus 2. */
  function OptStepAsWritten(seg: seq<u8>, i: int): (s: OptScan)
    ensures s.Found? ==> 0 <= s.value < U16_LIMIT
  {
    var kind := ByteAt(seg, i);
    if kind == OPT_END_OF_LIST then Found(U16_LIMIT - 1)
    else if kind == OPT_NOP then Next(i + 1)
    else if kind == OPT_MSS then Found(Be16At(seg, i + 2))
    else Next(i + ByteAt(seg, i + 1) - 2)
  }

  /**
   * One turn of the option loop with an unknown option skipped whole, by
   * its length byte; a length below 2 cannot be skipped and ends the scan
   * with the default.
   */
  function OptStep(seg: seq<u8>, i: int): (s: OptScan)
    ensures s.Found? ==> 0 <= s.value < U16_LIMIT
    ensures s.Next? ==> s.pos > i
  {
    var kind := ByteAt(seg, i);
    if kind == OPT_END_OF_LIST then Found(U16_LIMIT - 1)
    else if kind == OPT_NOP then Next(i + 1)
    else if kind == OPT_MSS then Found(Be16At(seg, i + 2))
    else if ByteAt(seg, i + 1) < 2 then Found(DEFAULT_MSS)
    else Next(i + ByteAt(seg, i + 1))
  }

  /**
   * The value the scan from offset i yields: the default 536 when it
   * reaches the payload, 0xffff (the -1 of a u16) at an end-of-list
   * option, or the 16-bit value following an MSS kind byte it meets.
   */
  function MssFrom(seg: seq<u8>, i: int, ds: int): (r: int)
    ensures 0 <= r < U16_LIMIT
    ensures r == DEFAULT_MSS || r == U16_LIMIT - 1
            || exists k :: i <= k < ds && ByteAt(seg, k) == OPT_MSS && r == Be16At(seg, k + 2)
    decreases ds - i
  {
    if i >= ds then DEFAULT_MSS
    else match OptStep(seg, i)
      case Found(v) => v
      case Next(p) => MssFrom(seg, p, ds)
  }

  /** `get_tcpopt_mss` with the corrected skip: the scan starts after the fixed header and stops at the data offset. */
  method GetTcpoptMss(seg: seq<u8>) returns (r: int)
    ensures r == MssFrom(seg, TCP_HDR_SIZE, DataStart(seg))
  {
    var ds := DataStart(seg);
    var i := TCP_HDR_SIZE;
    while i < ds
      invariant MssFrom(seg, i, ds) == MssFrom(seg, TCP_HDR_SIZE, ds)
      decreases ds - i
    {
      match OptStep(seg, i)
      case Found(v) =>
        return v;
      case Next(p) =>
        i := p;
    }
    return DEFAULT_MSS;
  }

  /** Where the option starting at p ends: a NOP is one byte, any other option as long as its length byte says. */
  function OptEnd(seg: seq<u8>, p: int): int {
    if ByteAt(seg, p) == OPT_NOP then p + 1 else p + ByteAt(seg, p + 1)
  }

  /**
   * `starts` are the start offsets of a well-formed option list running
   * from i to the data offset ds: the first starts at i, each next one
   * where the previous ends, every option other than a NOP has a length of
   * at least 2, and the last one reaches ds.
   */
  predicate OptionLayout(seg: seq<u8>, starts: seq<int>, i: int, ds: int) {
    && (|starts| == 0 <==> i >= ds)
    && (|starts| > 0 ==> starts[0] == i && OptEnd(seg, starts[|starts| - 1]) >= ds)
    && (forall j :: 0 <= j < |starts| ==>
          starts[j] < ds && (ByteAt(seg, starts[j]) == OPT_NOP || ByteAt(seg, starts[j] + 1) >= 2))
    && (forall j :: 0 <= j < |starts| - 1 ==> starts[j + 1] == OptEnd(seg, starts[j]))
  }

  /** The options after the first form a well-formed list from where the first one ends. */
  lemma LayoutTail(seg: seq<u8>, starts: seq<int>, i: int, ds: int)
    requires OptionLayout(seg, starts, i, ds) && |starts| > 0
    ensures OptionLayout(seg, starts[1..], OptEnd(seg, i), ds)
  {
    var t := starts[1..];
    if |t| > 0 {
      assert t[0] == starts[1] && starts[1] < ds;
      assert t[|t| - 1] == starts[|starts| - 1];
    }
    forall j | 0 <= j < |t| - 1 ensures t[j + 1] == OptEnd(seg, t[j]) {
      assert t[j] == starts[j + 1] && t[j + 1] == starts[j + 2];
    }
    forall j | 0 <= j < |t|
      ensures t[j] < ds && (ByteAt(seg, t[j]) == OPT_NOP || ByteAt(seg, t[j] + 1) >= 2)
    {
      assert t[j] == starts[j + 1];
    }
  }

  /**
   * Over a well-formed option list in which no option is an end-of-list
   * or an MSS option, whatever the bytes inside the options, the scan
   * yields the default 536.
   */
  lemma {:induction false} NoMssGivesDefault(seg: seq<u8>, starts: seq<int>, i: int, ds: int)
    requires OptionLayout(seg, starts, i, ds)
    requires forall j :: 0 <= j < |starts| ==>
      ByteAt(seg, starts[j]) != OPT_END_OF_LIST && ByteAt(seg, starts[j]) != OPT_MSS
    ensures MssFrom(seg, i, ds) == DEFAULT_MSS
    decreases |starts|
  {
    if i < ds {
      assert starts[0] == i;
      assert OptStep(seg, i) == Next(OptEnd(seg, i));
      LayoutTail(seg, starts, i, ds);
      forall j | 0 <= j < |starts| - 1
        ensures ByteAt(seg, starts[1..][j]) != OPT_END_OF_LIST && ByteAt(seg, starts[1..][j]) != OPT_MSS
      {
        assert starts[1..][j] == starts[j + 1];
      }
      NoMssGivesDefault(seg, starts[1..], OptEnd(seg, i), ds);
    }
  }

  /**
   * Over a well-formed option list, an MSS option preceded by no
   * end-of-list or MSS option is the one whose value the scan yields.
   */
  lemma {:induction false} FirstMssFound(seg: seq<u8>, starts: seq<int>, i: int, ds: int, m: nat)
    requires OptionLayout(seg, starts, i, ds) && m < |starts| && ByteAt(seg, starts[m]) == OPT_MSS
    requires forall j :: 0 <= j < m ==>
      ByteAt(seg, starts[j]) != OPT_END_OF_LIST && ByteAt(seg, starts[j]) != OPT_MSS
    ensures MssFrom(seg, i, ds) == Be16At(seg, starts[m] + 2)
    decreases m
  {
    assert starts[0] == i;
    if m > 0 {
      assert OptStep(seg, i) == Next(OptEnd(seg, i));
      LayoutTail(seg, starts, i, ds);
      forall j | 0 <= j < m - 1
        ensures ByteAt(seg, starts[1..][j]) != OPT_END_OF_LIST && ByteAt(seg, starts[1..][j]) != OPT_MSS
      {
        assert starts[1..][j] == starts[j + 1];
      }
      assert starts[1..][m - 1] == starts[m];
      FirstMssFound(seg, starts[1..], OptEnd(seg, i), ds, m - 1);
    }
  }

  /** NOPs are skipped one byte at a time: an MSS option after n of them is found. */
  lemma {:induction false} NopsThenMss(seg: seq<u8>, i: int, n: nat, ds: int)
    requires forall k :: i <= k < i + n ==> ByteAt(seg, k) == OPT_NOP
    requires i + n < ds && ByteAt(seg, i + n) == OPT_MSS
    ensures MssFrom(seg, i, ds) == Be16At(seg, i + n + 2)
    decreases n
  {
    if n > 0 {
      NopsThenMss(seg, i + 1, n - 1, ds);
    }
  }

  /**
   * A 24-byte header whose options are SACK-permitted (kind 4, length 2)
   * and two NOPs: as written, the first turn of the loop leaves the scan
   * where it was, so the loop never ends; the corrected scan yields 536.
   */
  lemma OptAsWrittenStalls()
    ensures var seg: seq<u8> := seq(20, k => if k == 12 then 0x60 else 0) + [4, 2, 1, 1];
            DataStart(seg) == 24 && OptStepAsWritten(seg, 20) == Next(20)
            && MssFrom(seg, 20, 24) == DEFAULT_MSS
  {
    var seg: seq<u8> := seq(20, k => if k == 12 then 0x60 else 0) + [4, 2, 1, 1];
    assert ByteAt(seg, 12) == 0x60;
    assert ByteAt(seg, 20) == 4 && ByteAt(seg, 21) == 2 && ByteAt(seg, 22) == 1 && ByteAt(seg, 23) == 1;
    assert OptStep(seg, 20) == Next(22);
    assert OptStep(seg, 22) == Next(23);
    assert OptStep(seg, 23) == Next(24);
  }
}
