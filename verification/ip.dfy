/**
 * IPv4 (sys/net/inet/ip.c): fragment reassembly with a hole list in the
 * manner of RFC 815, fragmentation of outgoing datagrams (RFC 791 section
 * 3.2), next-hop selection and header preparation.
 *
 * A hole is a range [first, last] of datagram byte positions not yet
 * received; the hole whose last position is INF (0xffff) stands for "up to
 * the unknown end of the datagram".  The kernel's singly linked hole and
 * fragment lists are sequences here, in list order.
 */
module Ip {
  import opened CTypes
  import InetUtil

  const INF: int := 0xffff
  const IP_MF: int := 0x2000
  const IP_OFFMASK: int := 0x1fff
  const IPFRAG_TIMEOUT_CLC: int := 6
  const MTU: int := 1500
  const IP_TTL: int := 64
  const IP_HDR_SIZE: int := 20
  const ETHER_HDR_SIZE: int := 14
  /** Payload bytes a full fragment carries. */
  const MAXDATA: int := MTU - IP_HDR_SIZE

  /* ---------------- holes ---------------- */

  datatype Hole = Hole(first: int, last: int)

  predicate HoleHas(h: Hole, x: int) {
    h.first <= x <= h.last
  }

  /** Position x is still missing according to the hole list. */
  ghost predicate InHoles(hs: seq<Hole>, x: int) {
    exists k :: 0 <= k < |hs| && HoleHas(hs[k], x)
  }

  /** The overlap test of the reassembly loop: the hole and [ffirst, flast] share a position. */
  predicate Overlaps(h: Hole, ffirst: int, flast: int) {
    !(ffirst > h.last || flast < h.first)
  }

  lemma InHolesConcat(a: seq<Hole>, b: seq<Hole>, x: int)
    ensures InHoles(a + b, x) <==> InHoles(a, x) || InHoles(b, x)
  {
    if InHoles(a + b, x) {
      var k :| 0 <= k < |a + b| && HoleHas((a + b)[k], x);
      if k < |a| {
        assert HoleHas(a[k], x);
      } else {
        assert HoleHas(b[k - |a|], x);
      }
    }
    if InHoles(a, x) {
      var k :| 0 <= k < |a| && HoleHas(a[k], x);
      assert (a + b)[k] == a[k];
    }
    if InHoles(b, x) {
      var k :| 0 <= k < |b| && HoleHas(b[k], x);
      assert (a + b)[|a| + k] == b[k];
    }
  }

  /** The positions of a list with hole i replaced by mid, split around position i. */
  lemma Splice(hs: seq<Hole>, i: int, mid: seq<Hole>, x: int)
    requires 0 <= i < |hs|
    ensures InHoles(hs, x) <==> InHoles(hs[..i], x) || HoleHas(hs[i], x) || InHoles(hs[i + 1..], x)
    ensures InHoles(hs[..i] + mid + hs[i + 1..], x) <==> InHoles(hs[..i], x) || InHoles(mid, x) || InHoles(hs[i + 1..], x)
  {
    assert hs == hs[..i] + [hs[i]] + hs[i + 1..];
    InHolesConcat(hs[..i] + [hs[i]], hs[i + 1..], x);
    InHolesConcat(hs[..i], [hs[i]], x);
    InHolesConcat(hs[..i] + mid, hs[i + 1..], x);
    InHolesConcat(hs[..i], mid, x);
    assert InHoles([hs[i]], x) <==> HoleHas(hs[i], x) by {
      if HoleHas(hs[i], x) {
        assert [hs[i]][0] == hs[i];
      }
    }
  }

  /**
   * The holes an overlapped hole leaves behind: the part before the
   * fragment and the part after it, each only when non-empty.
   */
  function Pieces(h: Hole, ffirst: int, flast: int): (p: seq<Hole>)
    requires Overlaps(h, ffirst, flast)
    ensures forall x :: InHoles(p, x) <==> HoleHas(h, x) && !(ffirst <= x <= flast)
    ensures forall k :: 0 <= k < |p| ==> !Overlaps(p[k], ffirst, flast)
    ensures |p| <= 2
  {
    var before := if ffirst > h.first then [Hole(h.first, ffirst - 1)] else [];
    var after := if flast < h.last then [Hole(flast + 1, h.last)] else [];
    forall x ensures InHoles(before + after, x) <==> HoleHas(h, x) && !(ffirst <= x <= flast) {
      InHolesConcat(before, after, x);
      if InHoles(before, x) {
        var j :| 0 <= j < |before| && HoleHas(before[j], x);
      }
      if InHoles(after, x) {
        var j :| 0 <= j < |after| && HoleHas(after[j], x);
      }
      if HoleHas(h, x) && x < ffirst {
        assert HoleHas(before[0], x);
      }
      if HoleHas(h, x) && x > flast {
        assert HoleHas(after[0], x);
      }
    }
    before + after
  }

  /**
   * One overlap step of the reassembly loop: hole i is replaced by its
   * pieces.  Holes before it are untouched, the pieces miss the fragment,
   * and the missing positions are those of the old list except the
   * fragment's positions within hole i.
   */
  lemma ReplaceStep(hs: seq<Hole>, i: int, ffirst: int, flast: int)
    requires 0 <= i < |hs| && Overlaps(hs[i], ffirst, flast)
    ensures var p := Pieces(hs[i], ffirst, flast);
            var next := hs[..i] + p + hs[i + 1..];
            && |next| == |hs| - 1 + |p|
            && (forall k :: 0 <= k < i ==> next[k] == hs[k])
            && (forall k :: i <= k < i + |p| ==> !Overlaps(next[k], ffirst, flast))
            && (forall x :: InHoles(next, x) ==> InHoles(hs, x))
            && (forall x :: InHoles(hs, x) && !(ffirst <= x <= flast) ==> InHoles(next, x))
  {
    var p := Pieces(hs[i], ffirst, flast);
    var next := hs[..i] + p + hs[i + 1..];
    forall k | i <= k < i + |p| ensures !Overlaps(next[k], ffirst, flast) {
      assert next[k] == p[k - i];
    }
    forall x ensures (InHoles(next, x) ==> InHoles(hs, x)) && (InHoles(hs, x) && !(ffirst <= x <= flast) ==> InHoles(next, x)) {
      Splice(hs, i, p, x);
    }
  }

  /* ---------------- modify_inf_holelist ---------------- */

  /** The index of the first hole that runs to INF, or the length of the list when none does. */
  function FirstInf(hs: seq<Hole>): (k: int)
    ensures 0 <= k <= |hs|
    ensures k < |hs| ==> hs[k].last == INF
    ensures forall j :: 0 <= j < k ==> hs[j].last != INF
  {
    if |hs| == 0 then 0
    else if hs[0].last == INF then 0
    else 1 + FirstInf(hs[1..])
  }

  /**
   * The hole list once the end of the datagram is known to be position
   * lastByte: the first infinite hole is cut at lastByte, and dropped when
   * that leaves it empty.  Positions up to lastByte are all kept, and a
   * position beyond it survives only in some other hole.
   */
  function CapInf(hs: seq<Hole>, lastByte: int): (r: seq<Hole>)
    requires lastByte <= INF
    ensures forall x :: InHoles(r, x) ==> InHoles(hs, x)
    ensures forall x :: InHoles(hs, x) && x <= lastByte ==> InHoles(r, x)
    ensures var k := FirstInf(hs);
            k < |hs| ==> forall x :: x > lastByte && InHoles(r, x) ==> InHoles(hs[..k] + hs[k + 1..], x)
    ensures FirstInf(hs) == |hs| ==> r == hs
    ensures |r| == if RemovedAt(hs, lastByte) >= 0 then |hs| - 1 else |hs|
  {
    var k := FirstInf(hs);
    if k == |hs| then hs
    else
      var mid := if hs[k].first > lastByte then [] else [Hole(hs[k].first, lastByte)];
      forall x ensures && (InHoles(hs[..k] + mid + hs[k + 1..], x) <==> InHoles(hs[..k], x) || InHoles(mid, x) || InHoles(hs[k + 1..], x))
                       && (InHoles(hs, x) <==> InHoles(hs[..k], x) || HoleHas(hs[k], x) || InHoles(hs[k + 1..], x))
                       && (InHoles(hs[..k] + hs[k + 1..], x) <==> InHoles(hs[..k], x) || InHoles(hs[k + 1..], x))
                       && (InHoles(mid, x) <==> HoleHas(hs[k], x) && x <= lastByte) {
        Splice(hs, k, mid, x);
        InHolesConcat(hs[..k], hs[k + 1..], x);
        if HoleHas(hs[k], x) && x <= lastByte {
          assert HoleHas(mid[0], x);
        }
        if InHoles(mid, x) {
          var j :| 0 <= j < |mid| && HoleHas(mid[j], x);
        }
      }
      hs[..k] + mid + hs[k + 1..]
  }

  /** Where CapInf removes a hole, or -1 when it removes none. */
  function RemovedAt(hs: seq<Hole>, lastByte: int): (at: int)
    ensures -1 <= at < |hs|
  {
    var k := FirstInf(hs);
    if k < |hs| && hs[k].first > lastByte then k else -1
  }

  /**
   * `modify_inf_holelist` with the cut at the last byte of the datagram
   * (newsize - 1) and the empty test `first > last`.  Also returns the
   * index of the hole it removed, or -1, so that a caller walking the list
   * can keep its place.
   */
  method ModifyInfHolelist(hs: seq<Hole>, lastByte: int) returns (r: seq<Hole>, removedAt: int)
    requires lastByte <= INF
    ensures r == CapInf(hs, lastByte)
    ensures removedAt == RemovedAt(hs, lastByte)
  {
    var i := 0;
    while i < |hs|
      invariant 0 <= i <= |hs|
      invariant forall j :: 0 <= j < i ==> hs[j].last != INF
    {
      if hs[i].last == INF {
        assert FirstInf(hs) == i;
        if hs[i].first > lastByte {
          r, removedAt := hs[..i] + hs[i + 1..], i;
        } else {
          r, removedAt := hs[..i] + [Hole(hs[i].first, lastByte)] + hs[i + 1..], -1;
        }
        return;
      }
      i := i + 1;
    }
    r, removedAt := hs, -1;
  }

  /**
   * `modify_inf_holelist` as written: the infinite hole's last position
   * becomes newsize itself (datalen, one past the last byte), and the hole
   * is dropped only when that makes first equal to last.
   */
  function CapInfAsWritten(hs: seq<Hole>, newsize: int): (r: seq<Hole>)
    ensures |r| == if RemovedAtAsWritten(hs, newsize) >= 0 then |hs| - 1 else |hs|
  {
    var k := FirstInf(hs);
    if k == |hs| then hs
    else if hs[k].first == newsize then hs[..k] + hs[k + 1..]
    else hs[..k] + [Hole(hs[k].first, newsize)] + hs[k + 1..]
  }

  /** Where CapInfAsWritten removes a hole, or -1 when it removes none. */
  function RemovedAtAsWritten(hs: seq<Hole>, newsize: int): (at: int)
    ensures -1 <= at < |hs|
  {
    var k := FirstInf(hs);
    if k < |hs| && hs[k].first == newsize then k else -1
  }

  /* ---------------- the reassembly loop of ip_rx ---------------- */

  /** A fragment's byte range, as ip_rx computes it in 16-bit arithmetic from ip_off, ip_len and ip_hl. */
  function FragFirst(off: int): (r: int)
    requires 0 <= off < U16_LIMIT
    ensures 0 <= r <= INF && r % 8 == 0
  {
    (off % (IP_OFFMASK + 1)) * 8
  }

  function FragLast(off: int, ipLen: int, hl: int): (r: int)
    requires 0 <= off < U16_LIMIT
    ensures 0 <= r <= INF
    ensures 0 <= FragFirst(off) + ipLen - hl * 4 - 1 <= INF ==> r == FragFirst(off) + ipLen - hl * 4 - 1
  {
    Wrap16(FragFirst(off) + (ipLen - hl * 4) - 1)
  }

  /** The More Fragments flag of ip_off. */
  predicate MfSet(off: int) {
    (off / IP_MF) % 2 == 1
  }

  /** A datagram is a fragment unless its offset is 0 and More Fragments is clear. */
  predicate IsFragment(off: int) {
    !(off % (IP_OFFMASK + 1) == 0 && !MfSet(off))
  }

  /**
   * The hole loop of ip_rx for fragment [ffirst, flast]: a hole it misses
   * is stepped over; a hole it overlaps is replaced by the pieces left
   * before and after it, and, when More Fragments is clear, the infinite
   * hole is cut at flast right away.  Returns the new list and how many
   * holes were overlapped (each adds a fragment entry).
   *
   * Afterwards no hole touches the fragment, no position becomes missing
   * that was not, and every missing position outside the fragment stays
   * missing (up to flast, when this was the last fragment).
   */
  method UpdateHoles(hs0: seq<Hole>, ffirst: int, flast: int, mf: bool) returns (hs: seq<Hole>, hits: nat)
    requires flast <= INF
    ensures forall k :: 0 <= k < |hs| ==> !Overlaps(hs[k], ffirst, flast)
    ensures forall x :: InHoles(hs, x) ==> InHoles(hs0, x)
    ensures forall x :: InHoles(hs0, x) && !(ffirst <= x <= flast) && (mf || x <= flast) ==> InHoles(hs, x)
    ensures hits == 0 <==> forall k :: 0 <= k < |hs0| ==> !Overlaps(hs0[k], ffirst, flast)
    ensures hits == 0 ==> hs == hs0
    ensures hs == HoleLoop(hs0, 0, ffirst, flast, mf)
  {
    hs, hits := hs0, 0;
    var i := 0;
    ghost var result := HoleLoop(hs0, 0, ffirst, flast, mf);
    while i < |hs|
      invariant 0 <= i <= |hs|
      invariant HoleLoop(hs, i, ffirst, flast, mf) == result
      invariant forall k :: 0 <= k < i ==> !Overlaps(hs[k], ffirst, flast)
      invariant forall x :: InHoles(hs, x) ==> InHoles(hs0, x)
      invariant forall x :: InHoles(hs0, x) && !(ffirst <= x <= flast) && (mf || x <= flast) ==> InHoles(hs, x)
      invariant hits == 0 ==> hs == hs0 && forall k :: 0 <= k < i ==> !Overlaps(hs0[k], ffirst, flast)
      invariant hits > 0 ==> exists k :: 0 <= k < |hs0| && Overlaps(hs0[k], ffirst, flast)
      decreases |hs| - i
    {
      if !Overlaps(hs[i], ffirst, flast) {
        HoleLoopSkips(hs, i, ffirst, flast, mf);
        i := i + 1;
        continue;
      }
      ReplaceStep(hs, i, ffirst, flast);
      ghost var hsPre, iPre := hs, i;
      var p := Pieces(hs[i], ffirst, flast);
      hs, i, hits := hs[..i] + p + hs[i + 1..], i + |p|, hits + 1;
      if !mf {
        var capped, at := ModifyInfHolelist(hs, flast);
        CapKeepsClear(hs, i, ffirst, flast, capped, at);
        hs := capped;
        if 0 <= at < i {
          i := i - 1;
        }
      }
      HoleLoopReplaces(hsPre, iPre, ffirst, flast, mf, hs, i);
    }
  }

  /**
   * Cutting the infinite hole leaves the holes the loop has passed clear of
   * the fragment; when the removed hole was among them, one fewer is passed.
   */
  lemma CapKeepsClear(hs: seq<Hole>, i: int, ffirst: int, flast: int, capped: seq<Hole>, at: int)
    requires 0 <= i <= |hs| && flast <= INF
    requires forall k :: 0 <= k < i ==> !Overlaps(hs[k], ffirst, flast)
    requires capped == CapInf(hs, flast) && at == RemovedAt(hs, flast)
    ensures var i' := if 0 <= at < i then i - 1 else i;
            0 <= i' <= |capped| && forall k :: 0 <= k < i' ==> !Overlaps(capped[k], ffirst, flast)
  {
    var k := FirstInf(hs);
    if k == |hs| {
      assert capped == hs;
    } else if hs[k].first > flast {
      assert capped == hs[..k] + hs[k + 1..];
      forall j | 0 <= j < (if k < i then i - 1 else i) ensures !Overlaps(capped[j], ffirst, flast) {
        if j < k {
          assert capped[j] == hs[..k][j] == hs[j];
        } else {
          assert capped[j] == hs[k + 1..][j - k] == hs[j + 1];
        }
      }
    } else {
      assert capped == hs[..k] + [Hole(hs[k].first, flast)] + hs[k + 1..];
      forall j | 0 <= j < i ensures !Overlaps(capped[j], ffirst, flast) {
        if j != k {
          assert capped[j] == hs[j];
        }
      }
    }
  }

  /**
   * The hole list the loop of ip_rx leaves for fragment [ffirst, flast]
   * when it starts at hole i of hs, with the infinite hole cut at the last
   * byte.  A hole the fragment misses is stepped over; an overlapped hole
   * gives way to its pieces, which the walk steps past; after a last
   * fragment the infinite hole is cut on the spot, the walk keeping its
   * place when a hole behind it is dropped.
   */
  function HoleLoop(hs: seq<Hole>, i: nat, ffirst: int, flast: int, mf: bool): seq<Hole>
    requires i <= |hs| && flast <= INF
    decreases |hs| - i
  {
    if i == |hs| then hs
    else if !Overlaps(hs[i], ffirst, flast) then HoleLoop(hs, i + 1, ffirst, flast, mf)
    else
      var p := Pieces(hs[i], ffirst, flast);
      var next := hs[..i] + p + hs[i + 1..];
      if mf then HoleLoop(next, i + |p|, ffirst, flast, mf)
      else
        var at := RemovedAt(next, flast);
        HoleLoop(CapInf(next, flast), if 0 <= at < i + |p| then i + |p| - 1 else i + |p|, ffirst, flast, mf)
  }

  /** A hole the fragment misses is stepped over. */
  lemma HoleLoopSkips(hs: seq<Hole>, i: nat, ffirst: int, flast: int, mf: bool)
    requires i < |hs| && flast <= INF && !Overlaps(hs[i], ffirst, flast)
    ensures HoleLoop(hs, i, ffirst, flast, mf) == HoleLoop(hs, i + 1, ffirst, flast, mf)
  {
  }

  /** An overlapped hole gives way to its pieces, followed by the cut after a last fragment. */
  lemma HoleLoopReplaces(hs: seq<Hole>, i: nat, ffirst: int, flast: int, mf: bool, hs': seq<Hole>, i': nat)
    requires i < |hs| && flast <= INF && Overlaps(hs[i], ffirst, flast)
    requires var p := Pieces(hs[i], ffirst, flast);
             var next := hs[..i] + p + hs[i + 1..];
             var at := RemovedAt(next, flast);
             if mf then hs' == next && i' == i + |p|
             else hs' == CapInf(next, flast) && i' == if 0 <= at < i + |p| then i + |p| - 1 else i + |p|
    ensures i' <= |hs'| && HoleLoop(hs', i', ffirst, flast, mf) == HoleLoop(hs, i, ffirst, flast, mf)
  {
  }

  /**
   * The same loop as written: a last fragment sets datalen to flast + 1 in
   * 16 bits, and modify_inf_holelist cuts the infinite hole there.
   */
  function HoleLoopAsWritten(hs: seq<Hole>, i: nat, ffirst: int, flast: int, mf: bool): (r: seq<Hole>)
    requires i <= |hs|
    ensures |r| <= |hs| + (|hs| - i)
    decreases |hs| - i
  {
    if i == |hs| then hs
    else if !Overlaps(hs[i], ffirst, flast) then HoleLoopAsWritten(hs, i + 1, ffirst, flast, mf)
    else
      var p := Pieces(hs[i], ffirst, flast);
      var next := hs[..i] + p + hs[i + 1..];
      if mf then HoleLoopAsWritten(next, i + |p|, ffirst, flast, mf)
      else
        var newsize := Wrap16(flast + 1);
        var at := RemovedAtAsWritten(next, newsize);
        HoleLoopAsWritten(CapInfAsWritten(next, newsize), if 0 <= at < i + |p| then i + |p| - 1 else i + |p|, ffirst, flast, mf)
  }

  /**
   * Holes [0,99] and [200,INF] and a last fragment of bytes 0..300: as
   * written, the first overlapped hole is consumed and the cut turns
   * [200,INF] into [200,301]; the walk then overlaps that hole and leaves
   * [301,301], a position past the datagram that no fragment fills, so the
   * datagram never completes.  Cut at the last byte, no hole is left.
   */
  lemma HoleLoopAsWrittenStrands()
    ensures HoleLoopAsWritten([Hole(0, 99), Hole(200, INF)], 0, 0, 300, false) == [Hole(301, 301)]
    ensures HoleLoop([Hole(0, 99), Hole(200, INF)], 0, 0, 300, false) == []
  {
    var hs := [Hole(0, 99), Hole(200, INF)];
    assert Pieces(hs[0], 0, 300) == [];
    assert hs[..0] + [] + hs[1..] == [Hole(200, INF)];
    assert FirstInf([Hole(200, INF)]) == 0;
    assert Wrap16(300 + 1) == 301;
    // as written
    assert CapInfAsWritten([Hole(200, INF)], 301) == [Hole(200, 301)];
    assert RemovedAtAsWritten([Hole(200, INF)], 301) == -1;
    assert HoleLoopAsWritten(hs, 0, 0, 300, false) == HoleLoopAsWritten([Hole(200, 301)], 0, 0, 300, false);
    assert Pieces(Hole(200, 301), 0, 300) == [Hole(301, 301)];
    assert [][..0] + [Hole(301, 301)] + [Hole(200, 301)][1..] == [Hole(301, 301)];
    assert FirstInf([Hole(301, 301)][1..]) == 0;
    assert FirstInf([Hole(301, 301)]) == 1;
    assert HoleLoopAsWritten([Hole(200, 301)], 0, 0, 300, false) == HoleLoopAsWritten([Hole(301, 301)], 1, 0, 300, false);
    // cut at the last byte
    assert CapInf([Hole(200, INF)], 300) == [Hole(200, 300)];
    assert RemovedAt([Hole(200, INF)], 300) == -1;
    assert HoleLoop(hs, 0, 0, 300, false) == HoleLoop([Hole(200, 300)], 0, 0, 300, false);
    assert Pieces(Hole(200, 300), 0, 300) == [];
    assert [Hole(200, 300)][..0] + [] + [Hole(200, 300)][1..] == [];
    assert CapInf([], 300) == [];
    assert HoleLoop([Hole(200, 300)], 0, 0, 300, false) == HoleLoop([], 0, 0, 300, false);
  }

  datatype Fragment = Fragment(first: int, last: int)

  /** Source, destination, protocol and identification: what ties the fragments of one datagram together. */
  datatype ReasmId = ReasmId(src: seq<u8>, dst: seq<u8>, pro: int, ident: int)

  /** `struct reasminfo`: one datagram being reassembled. */
  class ReasmInfo {
    const id: ReasmId
    var holes: seq<Hole>
    /** Received fragments, the latest first. */
    var fragments: seq<Fragment>
    var timeout: int
    var datalen: int
    var headerlen: int
    var hasBeginning: bool

    /** The new entry of `get_reasminfo`: one hole [0, INF], no fragments, a fresh timeout. */
    constructor (id: ReasmId)
      ensures this.id == id && holes == [Hole(0, INF)] && fragments == []
      ensures timeout == IPFRAG_TIMEOUT_CLC && !hasBeginning
    {
      this.id := id;
      holes := [Hole(0, INF)];
      fragments := [];
      timeout := IPFRAG_TIMEOUT_CLC;
      datalen := 0;
      headerlen := 0;
      hasBeginning := false;
    }

    /**
     * The fragment branch of ip_rx once the entry is found: the hole loop,
     * then the completeness test.  When the fragment overlaps a hole the
     * timeout is renewed, the fragment is recorded once per overlapped
     * hole, a last fragment fixes datalen at flast+1 and a fragment at
     * offset 0 supplies the header length; a fragment that overlaps no
     * hole changes nothing.  Reassembly is complete exactly when no hole
     * is left.
     */
    method AddFragment(ffirst: int, flast: int, mf: bool, hl: int) returns (complete: bool)
      requires flast <= INF
      modifies this`holes, this`fragments, this`timeout, this`datalen, this`headerlen, this`hasBeginning
      ensures complete <==> holes == []
      ensures holes == HoleLoop(old(holes), 0, ffirst, flast, mf)
      ensures forall x :: ffirst <= x <= flast ==> !InHoles(holes, x)
      ensures forall x :: InHoles(holes, x) ==> InHoles(old(holes), x)
      ensures forall x :: InHoles(old(holes), x) && !(ffirst <= x <= flast) && (mf || x <= flast) ==> InHoles(holes, x)
      ensures (forall k :: 0 <= k < |old(holes)| ==> !Overlaps(old(holes)[k], ffirst, flast)) ==>
                && holes == old(holes) && fragments == old(fragments) && timeout == old(timeout)
                && datalen == old(datalen) && headerlen == old(headerlen) && hasBeginning == old(hasBeginning)
      ensures (exists k :: 0 <= k < |old(holes)| && Overlaps(old(holes)[k], ffirst, flast)) ==>
                && timeout == IPFRAG_TIMEOUT_CLC
                && |fragments| > |old(fragments)|
                && fragments[|fragments| - |old(fragments)|..] == old(fragments)
                && (forall k :: 0 <= k < |fragments| - |old(fragments)| ==> fragments[k] == Fragment(ffirst, flast))
                && datalen == (if mf then old(datalen) else Wrap16(flast + 1))
                && (if ffirst == 0 then hasBeginning && headerlen == ETHER_HDR_SIZE + hl * 4
                    else hasBeginning == old(hasBeginning) && headerlen == old(headerlen))
    {
      var hs, hits := UpdateHoles(holes, ffirst, flast, mf);
      holes := hs;
      if hits > 0 {
        timeout := IPFRAG_TIMEOUT_CLC;
        fragments := Copies(Fragment(ffirst, flast), hits) + fragments;
        if !mf {
          datalen := Wrap16(flast + 1);
        }
        if ffirst == 0 {
          hasBeginning := true;
          headerlen := ETHER_HDR_SIZE + hl * 4;
        }
      }
      complete := holes == [];
    }
  }

  function Copies<T>(t: T, n: nat): (r: seq<T>)
    ensures |r| == n && forall k :: 0 <= k < n ==> r[k] == t
  {
    if n == 0 then [] else [t] + Copies(t, n - 1)
  }

  /** An entry `get_reasminfo` may return for id: same datagram, not yet timed out. */
  predicate Matches(info: ReasmInfo, id: ReasmId)
    reads info
  {
    info.id == id && info.timeout > 0
  }

  /** `reasm_ongoing`: the datagrams under reassembly, the newest first. */
  class ReasmTable {
    var ongoing: seq<ReasmInfo>

    constructor ()
      ensures ongoing == []
    {
      ongoing := [];
    }

    /**
     * `get_reasminfo`, with the search advancing along the list: the first
     * matching entry when there is one (nothing changes), otherwise a new
     * entry in front of the list.
     */
    method GetReasmInfo(id: ReasmId) returns (info: ReasmInfo)
      modifies this`ongoing
      ensures (exists k :: 0 <= k < |old(ongoing)| && Matches(old(ongoing)[k], id)) ==>
                && ongoing == old(ongoing)
                && exists k :: 0 <= k < |ongoing| && info == ongoing[k] && Matches(info, id)
                                && forall j :: 0 <= j < k ==> !Matches(ongoing[j], id)
      ensures (forall k :: 0 <= k < |old(ongoing)| ==> !Matches(old(ongoing)[k], id)) ==>
                && fresh(info) && ongoing == [info] + old(ongoing)
                && info.id == id && info.holes == [Hole(0, INF)] && info.fragments == []
                && info.timeout == IPFRAG_TIMEOUT_CLC && !info.hasBeginning
    {
      var i := 0;
      while i < |ongoing|
        invariant 0 <= i <= |ongoing|
        invariant forall j :: 0 <= j < i ==> !Matches(ongoing[j], id)
      {
        if Matches(ongoing[i], id) {
          return ongoing[i];
        }
        i := i + 1;
      }
      info := new ReasmInfo(id);
      ongoing := [info] + ongoing;
    }
  }

  /**
   * The fragment branch of ip_rx: find or start the entry for the
   * datagram, then run the hole loop on the fragment's byte range.  The
   * entry is on the reassembly list afterwards, none of the fragment's
   * positions is missing any more, and the datagram is complete exactly
   * when its hole list is empty.
   */
  method RxFragment(table: ReasmTable, id: ReasmId, off: int, ipLen: int, hl: int) returns (info: ReasmInfo, complete: bool)
    requires 0 <= off < U16_LIMIT && IsFragment(off)
    modifies table, table.ongoing
    ensures info in table.ongoing
    ensures complete <==> info.holes == []
    ensures forall x :: FragFirst(off) <= x <= FragLast(off, ipLen, hl) ==> !InHoles(info.holes, x)
  {
    var ffirst := FragFirst(off);
    var flast := FragLast(off, ipLen, hl);
    info := table.GetReasmInfo(id);
    assert info in table.ongoing;
    complete := info.AddFragment(ffirst, flast, MfSet(off), hl);
  }

  /** One step of the search loop of `get_reasminfo`, over (id, timeout) pairs. */
  datatype SearchStep = ReturnAt(k: int) | Continue(p: int) | NotFound

  /** The loop as written: the pointer is never moved to the next entry. */
  function SearchStepAsWritten(entries: seq<(ReasmId, int)>, p: int, id: ReasmId): (s: SearchStep)
    requires 0 <= p
    ensures s.Continue? ==> s.p == p
  {
    if p >= |entries| then NotFound
    else if entries[p].0 == id && entries[p].1 > 0 then ReturnAt(p)
    else Continue(p)
  }

  /** With one entry for another datagram, the search as written is back where it started: it never ends. */
  lemma SearchAsWrittenSpins(other: ReasmId, id: ReasmId)
    requires other != id
    ensures SearchStepAsWritten([(other, IPFRAG_TIMEOUT_CLC)], 0, id) == Continue(0)
  {
  }

  /* ---------------- prep_iphdr ---------------- */

  /** The ip_off value of prep_iphdr: offset in 8-byte units, with the More Fragments bit. */
  function PrepOff(offset: int, mf: bool): (r: int)
    requires 0 <= offset < U16_LIMIT
    ensures 0 <= r < U16_LIMIT
  {
    offset / 8 + (if mf then IP_MF else 0)
  }

  /** The receiver recovers the offset (when a multiple of 8) and the More Fragments flag from the ip_off it is sent. */
  lemma OffRoundTrip(offset: int, mf: bool)
    requires 0 <= offset < U16_LIMIT && offset % 8 == 0
    ensures FragFirst(PrepOff(offset, mf)) == offset
    ensures MfSet(PrepOff(offset, mf)) == mf
    ensures IsFragment(PrepOff(offset, mf)) <==> offset != 0 || mf
  {
  }

  /** A 16-bit value in network byte order. */
  function Be16(v: int): (b: seq<u8>)
    requires 0 <= v < U16_LIMIT
    ensures |b| == 2 && b[0] as int * 256 + b[1] as int == v
  {
    [(v / 256) as u8, (v % 256) as u8]
  }

  /** The header bytes prep_iphdr lays out (version 4, 5 words, type of service 0x80, TTL 64) with the given checksum field. */
  function HeaderBytes(len: int, id: int, off: int, proto: u8, src: seq<u8>, dst: seq<u8>, sum: seq<u8>): (b: seq<u8>)
    requires 0 <= len < U16_LIMIT && 0 <= id < U16_LIMIT && 0 <= off < U16_LIMIT
    requires |src| == 4 && |dst| == 4 && |sum| == 2
    ensures |b| == IP_HDR_SIZE && b[0] == 0x45 && b[1] == 0x80 && b[8] as int == IP_TTL && b[9] == proto
    ensures b[2..4] == Be16(len) && b[4..6] == Be16(id) && b[6..8] == Be16(off) && b[10..12] == sum
    ensures b[12..16] == src && b[16..20] == dst
  {
    [0x45, 0x80] + Be16(len) + Be16(id) + Be16(off) + [IP_TTL as u8, proto] + sum + src + dst
  }

  /**
   * `prep_iphdr`: the header of a datagram or fragment whose checksum field
   * holds the checksum of the header with that field zeroed; the header
   * then passes the receiver's checksum test.
   */
  function PrepIpHdr(len: int, id: int, mf: bool, offset: int, proto: u8, src: seq<u8>, dst: seq<u8>): (b: seq<u8>)
    requires 0 <= len < U16_LIMIT && 0 <= id < U16_LIMIT && 0 <= offset < U16_LIMIT
    requires |src| == 4 && |dst| == 4
    ensures |b| == IP_HDR_SIZE && b[0] == 0x45 && b[1] == 0x80 && b[8] as int == IP_TTL && b[9] == proto
    ensures b[12..16] == src && b[16..20] == dst
    ensures b[2..4] == Be16(len) && b[4..6] == Be16(id) && b[6..8] == Be16(PrepOff(offset, mf))
    ensures b == HeaderBytes(len, id, PrepOff(offset, mf), proto, src, dst, b[10..12])
    ensures var c := InetUtil.ChecksumOf(HeaderBytes(len, id, PrepOff(offset, mf), proto, src, dst, [0, 0]));
      b[10..12] == [(c % 256) as u8, (c / 256) as u8]
    ensures InetUtil.ChecksumOf(b) == 0
  {
    var off := PrepOff(offset, mf);
    var c := InetUtil.ChecksumOf(HeaderBytes(len, id, off, proto, src, dst, [0, 0]));
    var a := [0x45, 0x80] + Be16(len) + Be16(id) + Be16(off) + [IP_TTL as u8, proto];
    var rest := src + dst;
    assert HeaderBytes(len, id, off, proto, src, dst, [0, 0]) == a + [0, 0] + rest;
    assert HeaderBytes(len, id, off, proto, src, dst, [(c % 256) as u8, (c / 256) as u8]) == a + [(c % 256) as u8, (c / 256) as u8] + rest;
    InetUtil.ChecksumFieldVerifies(a, rest);
    HeaderBytes(len, id, off, proto, src, dst, [(c % 256) as u8, (c / 256) as u8])
  }

  /* ---------------- ip_routing and ip_tx ---------------- */

  /** The interface's configuration: IPADDR, NETMASK, DEFAULT_GATEWAY and IPBROADCAST. */
  datatype NetConfig = NetConfig(myaddr: bv32, netmask: bv32, gateway: bv32, broadcast: bv32)

  /**
   * `ip_routing`: a destination goes to the default gateway exactly when it
   * is non-zero, outside the local network and not the broadcast address.
   */
  function Routing(dst: bv32, cfg: NetConfig): (r: bv32)
    ensures r == dst || r == cfg.gateway
    ensures r != dst <==> dst != 0 && cfg.myaddr & cfg.netmask != dst & cfg.netmask && dst != cfg.broadcast && cfg.gateway != dst
  {
    if dst != 0 && cfg.myaddr & cfg.netmask != dst & cfg.netmask && dst != cfg.broadcast then cfg.gateway else dst
  }

  /** With a gateway on the local network, routing the result again changes nothing. */
  lemma RoutingIdempotent(dst: bv32, cfg: NetConfig)
    requires cfg.gateway & cfg.netmask == cfg.myaddr & cfg.netmask
    ensures Routing(Routing(dst, cfg), cfg) == Routing(dst, cfg)
  {
  }

  /** The next hop ip_tx hands to ARP as written: ip_routing is called on a copy and its result dropped. */
  function TxNextHopAsWritten(dst: bv32, cfg: NetConfig): (r: bv32)
    ensures r == dst
  {
    var dstR := dst;
    var _ := Routing(dstR, cfg);
    dstR
  }

  /** An address outside the local network is sent straight to ARP instead of to the gateway. */
  lemma TxNextHopAsWrittenSkipsGateway()
    ensures var cfg := NetConfig(0x0f02_000a, 0x00ff_ffff, 0x0202_000a, 0xffff_ffff);
            && TxNextHopAsWritten(0x0808_0808, cfg) == 0x0808_0808
            && Routing(0x0808_0808, cfg) == 0x0202_000a
  {
  }

  /** One datagram ip_tx sends: total length, byte offset of its payload, More Fragments. */
  datatype TxFragment = TxFragment(totalLen: int, offset: int, mf: bool)

  function Min(a: int, b: int): int {
    if a < b then a else b
  }

  /**
   * `ip_tx` for a payload of datalen bytes: the next hop is the routed
   * destination; a payload that fits in one MTU goes out whole, otherwise
   * fragment k carries the payload from byte k*MAXDATA on (the offset is
   * datalen - remainlen in 16 bits), at most MAXDATA bytes of it, and has
   * More Fragments set exactly when payload remains after it.  The last
   * fragment ends at the end of the payload.
   */
  method IpTx(datalen: int, dst: bv32, cfg: NetConfig) returns (nextHop: bv32, fs: seq<TxFragment>)
    requires 0 <= datalen && datalen + IP_HDR_SIZE < U32_LIMIT
    ensures nextHop == Routing(dst, cfg)
    ensures IP_HDR_SIZE + datalen <= MTU ==> fs == [TxFragment(IP_HDR_SIZE + datalen, 0, false)]
    ensures IP_HDR_SIZE + datalen > MTU ==>
              && |fs| > 0
              && (forall k :: 0 <= k < |fs| ==>
                    && fs[k].offset == Wrap16(k * MAXDATA)
                    && fs[k].totalLen == IP_HDR_SIZE + Min(MAXDATA, datalen - k * MAXDATA)
                    && IP_HDR_SIZE < fs[k].totalLen <= MTU
                    && (fs[k].mf <==> k < |fs| - 1))
              && (|fs| - 1) * MAXDATA + fs[|fs| - 1].totalLen - IP_HDR_SIZE == datalen
  {
    nextHop := Routing(dst, cfg);
    if IP_HDR_SIZE + datalen <= MTU {
      return nextHop, [TxFragment(IP_HDR_SIZE + datalen, 0, false)];
    }
    var remain := datalen;
    fs := [];
    while remain > 0
      invariant 0 <= remain <= datalen
      invariant remain > 0 ==> remain == datalen - |fs| * MAXDATA
      invariant remain == 0 ==> |fs| > 0 && (|fs| - 1) * MAXDATA < datalen <= |fs| * MAXDATA
      invariant forall k :: 0 <= k < |fs| ==>
                  && fs[k].offset == Wrap16(k * MAXDATA)
                  && fs[k].totalLen == IP_HDR_SIZE + Min(MAXDATA, datalen - k * MAXDATA)
                  && (fs[k].mf <==> (k + 1) * MAXDATA < datalen)
      decreases remain
    {
      var total := Min(remain + IP_HDR_SIZE, MTU);
      var len := total - IP_HDR_SIZE;
      var offset := Wrap16(datalen - remain);
      remain := remain - len;
      fs := fs + [TxFragment(total, offset, remain > 0)];
    }
  }

  /** Every fragment offset ip_tx produces is a multiple of 8, so ip_off carries it exactly. */
  lemma TxOffsetsEncodable(k: nat)
    ensures Wrap16(k * MAXDATA) % 8 == 0
    ensures FragFirst(PrepOff(Wrap16(k * MAXDATA), true)) == Wrap16(k * MAXDATA)
  {
    var w := Wrap16(k * MAXDATA);
    assert (w - k * MAXDATA) % U16_LIMIT == 0;
    var q := (w - k * MAXDATA) / U16_LIMIT;
    assert w == k * 1480 + 65536 * q;
    assert w == 8 * (k * 185 + 8192 * q);
    OffRoundTrip(w, true);
  }
}
