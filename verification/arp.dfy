/**
 * The ARP table (sys/net/inet/arp.c, RFC 826): a fixed array of entries,
 * each mapping an IPv4 address to an Ethernet address, with a timeout in
 * 10-second ticks and the list of frames waiting for the address to be
 * resolved.  New addresses overwrite the slot `next_register`, which moves
 * round the table.  Addresses are byte strings as they travel on the wire.
 */
module Arp {
  import opened CTypes

  const MAX_ARPTABLE: int := 1024
  const ARBTBL_TIMEOUT_CLC: int := 720
  const ARPTBL_PERMANENT: int := 0xffff
  const ETHER_ADDR_LEN: int := 6
  const IP_ADDR_LEN: int := 4
  const ARPHRD_ETHER: int := 1
  const ETHERTYPE_IP: int := 0x0800
  const ARPOP_REQUEST: int := 1
  const ARPOP_REPLY: int := 2
  /** `sizeof(struct ether_arp)`: an 8-byte header and two (hardware, protocol) address pairs. */
  const ETHER_ARP_SIZE: int := 28

  /** A frame waiting for resolution: the packet (by identity), its protocol and device. */
  datatype Pending = Pending(frm: nat, proto: int, dev: nat)

  /** `struct arpentry`. */
  datatype Entry = Entry(mac: seq<u8>, ipaddr: seq<u8>, timeout: int, pending: seq<Pending>)

  /** The state of a never-used slot: a zeroed static entry with an empty pending list. */
  const EMPTY_ENTRY: Entry := Entry([0, 0, 0, 0, 0, 0], [0, 0, 0, 0], 0, [])

  /** The entry answers for ip: same address and not timed out. */
  predicate Live(e: Entry, ip: seq<u8>) {
    e.ipaddr == ip && e.timeout > 0
  }

  /** The index of the first entry live for ip, or the table size when there is none. */
  function FindLive(s: seq<Entry>, ip: seq<u8>): (k: int)
    ensures 0 <= k <= |s|
    ensures k < |s| ==> Live(s[k], ip)
    ensures forall j :: 0 <= j < k ==> !Live(s[j], ip)
  {
    if |s| == 0 then 0
    else if Live(s[0], ip) then 0
    else 1 + FindLive(s[1..], ip)
  }

  /** The first live entry is the one no earlier entry precedes. */
  lemma {:induction false} FindLiveIs(s: seq<Entry>, ip: seq<u8>, k: int)
    requires 0 <= k < |s| && Live(s[k], ip)
    requires forall j :: 0 <= j < k ==> !Live(s[j], ip)
    ensures FindLive(s, ip) == k
  {
    if k > 0 {
      FindLiveIs(s[1..], ip, k - 1);
    }
  }

  /** The outcome of `arp_resolve`: RESULT_FOUND with the address, RESULT_NOT_FOUND, RESULT_ADD_LIST. */
  datatype Resolution = Found(mac: seq<u8>) | NotFound | AddList

  /**
   * `arp_resolve` on table s with next slot n for a frame p to ip: a live
   * entry with nothing pending resolves at once and nothing changes; a live
   * entry with frames pending gets p at the tail of its list; without a live
   * entry slot n is taken over for ip, with p as its only pending frame and
   * a fresh timeout, and n moves on cyclically.  Either way, unless resolved,
   * p ends the pending list of the entry that now answers for ip.
   */
  function ResolveSpec(s: seq<Entry>, n: int, ip: seq<u8>, p: Pending): (r: (Resolution, seq<Entry>, int))
    requires 0 <= n < |s|
    ensures |r.1| == |s| && 0 <= r.2 < |s|
    ensures r.0.Found? <==> FindLive(s, ip) < |s| && s[FindLive(s, ip)].pending == []
    ensures r.0.Found? ==> r.0.mac == s[FindLive(s, ip)].mac && r.1 == s && r.2 == n
    ensures r.0 == NotFound <==> FindLive(s, ip) == |s|
    ensures r.0 == NotFound ==> r.2 == (n + 1) % |s| && forall j :: 0 <= j < |s| && j != n ==> r.1[j] == s[j]
    ensures r.0 == AddList ==> r.2 == n && forall j :: 0 <= j < |s| && j != FindLive(s, ip) ==> r.1[j] == s[j]
    ensures !r.0.Found? ==> var k := FindLive(r.1, ip);
                            k < |s| && |r.1[k].pending| > 0 && r.1[k].pending[|r.1[k].pending| - 1] == p
  {
    var k := FindLive(s, ip);
    if k < |s| then
      if s[k].pending == [] then (Found(s[k].mac), s, n)
      else
        var s' := s[k := s[k].(pending := s[k].pending + [p])];
        FindLiveIs(s', ip, k);
        (AddList, s', n)
    else
      var s' := s[n := s[n].(pending := [p], timeout := ARBTBL_TIMEOUT_CLC, ipaddr := ip)];
      FindLiveIs(s', ip, n);
      (NotFound, s', (n + 1) % |s|)
  }

  /** The timeout `register_arptable` gives an entry. */
  function RegisteredTimeout(permanent: bool): int {
    if permanent then ARPTBL_PERMANENT else ARBTBL_TIMEOUT_CLC
  }

  /**
   * `register_arptable`: a live entry for ip has its timeout renewed and,
   * when frames are waiting, takes mac and hands its frames over to be sent
   * (returned here, in order) with an emptied list; without a live entry
   * slot n is overwritten (its waiting frames are dropped) and n moves on.
   * Afterwards an entry answers for ip with nothing pending.
   */
  function RegisterSpec(s: seq<Entry>, n: int, ip: seq<u8>, mac: seq<u8>, permanent: bool): (r: (seq<Pending>, seq<Entry>, int))
    requires 0 <= n < |s|
    ensures |r.1| == |s| && 0 <= r.2 < |s|
    ensures var k := FindLive(r.1, ip);
            k < |s| && r.1[k].pending == [] && r.1[k].timeout == RegisteredTimeout(permanent)
    ensures FindLive(s, ip) < |s| ==> r.0 == s[FindLive(s, ip)].pending && r.2 == n
    ensures FindLive(s, ip) < |s| && s[FindLive(s, ip)].pending != [] ==> r.1[FindLive(r.1, ip)].mac == mac
    ensures FindLive(s, ip) == |s| ==> r.0 == [] && r.2 == (n + 1) % |s| && r.1[FindLive(r.1, ip)].mac == mac
  {
    var k := FindLive(s, ip);
    var t := RegisteredTimeout(permanent);
    if k < |s| then
      var e := if s[k].pending == [] then s[k].(timeout := t) else s[k].(timeout := t, mac := mac, pending := []);
      var s' := s[k := e];
      FindLiveIs(s', ip, k);
      (s[k].pending, s', n)
    else
      var s' := s[n := Entry(mac, ip, t, [])];
      FindLiveIs(s', ip, n);
      ([], s', (n + 1) % |s|)
  }

  /** Once an address is registered, resolving it succeeds, with the new address unless a resolved entry kept its old one. */
  lemma RegisterThenResolve(s: seq<Entry>, n: int, ip: seq<u8>, mac: seq<u8>, permanent: bool, p: Pending)
    requires 0 <= n < |s|
    ensures var r := RegisterSpec(s, n, ip, mac, permanent);
            var q := ResolveSpec(r.1, r.2, ip, p);
            && q.0.Found?
            && (FindLive(s, ip) == |s| || s[FindLive(s, ip)].pending != [] ==> q.0 == Found(mac))
            && q.1 == r.1
  {
  }

  /**
   * A frame that could not be sent is among those handed over when the
   * address is registered next: the last one, after the frames queued
   * before it.
   */
  lemma ResolveThenRegister(s: seq<Entry>, n: int, ip: seq<u8>, p: Pending, mac: seq<u8>, permanent: bool)
    requires 0 <= n < |s|
    ensures var q := ResolveSpec(s, n, ip, p);
            var r := RegisterSpec(q.1, q.2, ip, mac, permanent);
            !q.0.Found? ==>
              && |r.0| > 0 && r.0[|r.0| - 1] == p
              && (q.0 == AddList ==> r.0 == s[FindLive(s, ip)].pending + [p])
              && r.1[FindLive(r.1, ip)].mac == mac
  {
    var q := ResolveSpec(s, n, ip, p);
    if !q.0.Found? {
      var k := FindLive(s, ip);
      if q.0 == AddList {
        assert q.1 == s[k := s[k].(pending := s[k].pending + [p])];
        FindLiveIs(q.1, ip, k);
      }
    }
  }

  /* ---------------- the table ---------------- */

  class ArpTable {
    /** `arptable`. */
    const entries: array<Entry>
    /** `next_register`. */
    var nextRegister: int

    ghost predicate Valid()
      reads this
    {
      entries.Length == MAX_ARPTABLE && 0 <= nextRegister < MAX_ARPTABLE
    }

    /** The zeroed table of `arp_init`: no entry is live. */
    constructor ()
      ensures Valid() && fresh(entries) && nextRegister == 0
      ensures forall i :: 0 <= i < MAX_ARPTABLE ==> entries[i] == EMPTY_ENTRY
    {
      entries := new Entry[MAX_ARPTABLE](_ => EMPTY_ENTRY);
      nextRegister := 0;
    }

    /** `arp_resolve`, as ResolveSpec states it. */
    method Resolve(ip: seq<u8>, p: Pending) returns (res: Resolution)
      requires Valid()
      modifies entries, this`nextRegister
      ensures Valid()
      ensures (res, entries[..], nextRegister) == ResolveSpec(old(entries[..]), old(nextRegister), ip, p)
    {
      var i := 0;
      while i < MAX_ARPTABLE
        invariant 0 <= i <= MAX_ARPTABLE
        invariant forall j :: 0 <= j < i ==> !Live(entries[j], ip)
      {
        if Live(entries[i], ip) {
          assert FindLive(entries[..], ip) == i;
          if entries[i].pending == [] {
            return Found(entries[i].mac);
          }
          entries[i] := entries[i].(pending := entries[i].pending + [p]);
          return AddList;
        }
        i := i + 1;
      }
      assert FindLive(entries[..], ip) == MAX_ARPTABLE;
      var n := nextRegister;
      entries[n] := entries[n].(pending := [p], timeout := ARBTBL_TIMEOUT_CLC, ipaddr := ip);
      nextRegister := (n + 1) % MAX_ARPTABLE;
      return NotFound;
    }

    /** `register_arptable`, as RegisterSpec states it; returns the frames handed to `ether_tx`. */
    method Register(ip: seq<u8>, mac: seq<u8>, permanent: bool) returns (sent: seq<Pending>)
      requires Valid()
      modifies entries, this`nextRegister
      ensures Valid()
      ensures (sent, entries[..], nextRegister) == RegisterSpec(old(entries[..]), old(nextRegister), ip, mac, permanent)
    {
      var t := if permanent then ARPTBL_PERMANENT else ARBTBL_TIMEOUT_CLC;
      var i := 0;
      while i < MAX_ARPTABLE
        invariant 0 <= i <= MAX_ARPTABLE
        invariant forall j :: 0 <= j < i ==> !Live(entries[j], ip)
      {
        if Live(entries[i], ip) {
          assert FindLive(entries[..], ip) == i;
          sent := entries[i].pending;
          if sent == [] {
            entries[i] := entries[i].(timeout := t);
          } else {
            entries[i] := entries[i].(timeout := t, mac := mac, pending := []);
          }
          return;
        }
        i := i + 1;
      }
      assert FindLive(entries[..], ip) == MAX_ARPTABLE;
      var n := nextRegister;
      entries[n] := Entry(mac, ip, t, []);
      nextRegister := (n + 1) % MAX_ARPTABLE;
      sent := [];
    }

    /**
     * `arp_10sec`: every entry ages by one tick, and an address request is
     * issued (returned here, in table order) for every entry still live
     * with frames waiting.
     */
    method Tick() returns (requests: seq<seq<u8>>)
      requires Valid()
      modifies entries
      ensures forall i :: 0 <= i < MAX_ARPTABLE ==> entries[i] == Aged(old(entries[i]))
      ensures requests == Requests(old(entries[..]))
    {
      ghost var s0 := entries[..];
      requests := [];
      for i := 0 to MAX_ARPTABLE
        invariant forall j :: 0 <= j < i ==> entries[j] == Aged(s0[j])
        invariant forall j :: i <= j < MAX_ARPTABLE ==> entries[j] == s0[j]
        invariant requests == Requests(s0[..i])
      {
        var e := entries[i];
        if e.timeout > 0 && e.timeout != ARPTBL_PERMANENT {
          e := e.(timeout := e.timeout - 1);
        }
        if e.timeout == 0 {
          e := e.(pending := []);
        } else if e.pending != [] {
          requests := requests + [e.ipaddr];
        }
        entries[i] := e;
        assert s0[..i + 1][..i] == s0[..i];
      }
      assert s0[..MAX_ARPTABLE] == s0;
    }
  }

  /**
   * One tick of `arp_10sec` on an entry: a positive timeout other than
   * ARPTBL_PERMANENT goes down by one, and an entry whose timeout is then 0
   * loses its waiting frames.
   */
  function Aged(e: Entry): (a: Entry)
    ensures a.mac == e.mac && a.ipaddr == e.ipaddr
    ensures a.timeout == 0 ==> a.pending == []
  {
    var t := if e.timeout > 0 && e.timeout != ARPTBL_PERMANENT then e.timeout - 1 else e.timeout;
    if t == 0 then e.(timeout := t, pending := []) else e.(timeout := t)
  }

  /** The addresses `arp_10sec` requests, in table order: entries still live after the tick with frames waiting. */
  function Requests(s: seq<Entry>): (r: seq<seq<u8>>)
    ensures |r| <= |s|
  {
    if |s| == 0 then []
    else
      var a := Aged(s[|s| - 1]);
      Requests(s[..|s| - 1]) + (if a.timeout != 0 && a.pending != [] then [a.ipaddr] else [])
  }

  /** n ticks. */
  function AgedTimes(e: Entry, n: nat): Entry {
    if n == 0 then e else Aged(AgedTimes(e, n - 1))
  }

  /**
   * An entry with a timeout of t ticks (not permanent) stays live for
   * exactly t ticks, keeping its frames meanwhile, and has dropped them
   * once it has expired; a permanent entry never changes.
   */
  lemma {:induction false} AgingCountsDown(e: Entry, n: nat)
    requires 0 <= e.timeout < U16_LIMIT
    ensures e.timeout != ARPTBL_PERMANENT ==>
              && AgedTimes(e, n).timeout == (if n < e.timeout then e.timeout - n else 0)
              && (n < e.timeout ==> AgedTimes(e, n).pending == e.pending)
              && (n >= e.timeout && n > 0 ==> AgedTimes(e, n).pending == [])
    ensures e.timeout == ARPTBL_PERMANENT ==> AgedTimes(e, n) == e
  {
    if n > 0 {
      AgingCountsDown(e, n - 1);
    }
  }

  /* ---------------- packets ---------------- */

  /** `struct ether_arp` (the fixed header and the two address pairs). */
  datatype ArpPacket = ArpPacket(hrd: int, pro: int, hln: int, pln: int, op: int,
                                 sha: seq<u8>, spa: seq<u8>, tha: seq<u8>, tpa: seq<u8>)

  function Be16At(b: seq<u8>, k: int): (v: int)
    requires 0 <= k && k + 1 < |b|
    ensures 0 <= v < U16_LIMIT
  {
    b[k] as int * 256 + b[k + 1] as int
  }

  function Be16(v: int): (b: seq<u8>)
    requires 0 <= v < U16_LIMIT
    ensures |b| == 2 && Be16At(b, 0) == v
  {
    [(v / 256) as u8, (v % 256) as u8]
  }

  /** The fields of an ARP packet at the head of a frame; the 16-bit fields are in network byte order. */
  function Parse(b: seq<u8>): (p: ArpPacket)
    requires |b| >= ETHER_ARP_SIZE
    ensures |p.sha| == ETHER_ADDR_LEN && |p.spa| == IP_ADDR_LEN && |p.tha| == ETHER_ADDR_LEN && |p.tpa| == IP_ADDR_LEN
  {
    ArpPacket(Be16At(b, 0), Be16At(b, 2), b[4] as int, b[5] as int, Be16At(b, 6),
              b[8..14], b[14..18], b[18..24], b[24..28])
  }

  /** A packet whose fields fit their wire sizes. */
  predicate Encodable(p: ArpPacket) {
    && 0 <= p.hrd < U16_LIMIT && 0 <= p.pro < U16_LIMIT && 0 <= p.op < U16_LIMIT
    && 0 <= p.hln < U8_LIMIT && 0 <= p.pln < U8_LIMIT
    && |p.sha| == ETHER_ADDR_LEN && |p.spa| == IP_ADDR_LEN && |p.tha| == ETHER_ADDR_LEN && |p.tpa| == IP_ADDR_LEN
  }

  /** The wire form of a packet; Parse reads back exactly the packet written. */
  function Serialize(p: ArpPacket): (b: seq<u8>)
    requires Encodable(p)
    ensures |b| == ETHER_ARP_SIZE && Parse(b) == p
  {
    var b := Be16(p.hrd) + Be16(p.pro) + [p.hln as u8, p.pln as u8] + Be16(p.op) + p.sha + p.spa + p.tha + p.tpa;
    assert b[8..14] == p.sha && b[14..18] == p.spa && b[18..24] == p.tha && b[24..28] == p.tpa;
    b
  }

  /**
   * The validation at the head of `arp_rx`: the frame is long enough and
   * carries Ethernet/IPv4 addresses of the right lengths and a request or
   * reply.
   */
  predicate Accepted(b: seq<u8>) {
    && |b| >= ETHER_ARP_SIZE
    && var p := Parse(b);
       && p.hrd == ARPHRD_ETHER && p.pro == ETHERTYPE_IP
       && p.hln == ETHER_ADDR_LEN && p.pln == IP_ADDR_LEN
       && (p.op == ARPOP_REQUEST || p.op == ARPOP_REPLY)
  }

  /** The request of `send_arprequest`: who has dst, from mymac at myip, target hardware address zeroed. */
  function Request(mymac: seq<u8>, myip: seq<u8>, dst: seq<u8>): (p: ArpPacket)
    requires |mymac| == ETHER_ADDR_LEN && |myip| == IP_ADDR_LEN && |dst| == IP_ADDR_LEN
    ensures Encodable(p) && p.op == ARPOP_REQUEST && p.tpa == dst
  {
    ArpPacket(ARPHRD_ETHER, ETHERTYPE_IP, ETHER_ADDR_LEN, IP_ADDR_LEN, ARPOP_REQUEST, mymac, myip, [0, 0, 0, 0, 0, 0], dst)
  }

  /** The answer to a request: the sender becomes the target, and this host the sender. */
  function Reply(q: ArpPacket, mymac: seq<u8>, myip: seq<u8>): (p: ArpPacket)
    requires Encodable(q) && |mymac| == ETHER_ADDR_LEN && |myip| == IP_ADDR_LEN
    ensures Encodable(p) && p.op == ARPOP_REPLY
    ensures p.tha == q.sha && p.tpa == q.spa && p.sha == mymac && p.spa == myip
  {
    q.(op := ARPOP_REPLY, tha := q.sha, tpa := q.spa, sha := mymac, spa := myip)
  }

  /** The requests this host sends pass its own validation, and so does its reply to an accepted request. */
  lemma OwnPacketsAccepted(mymac: seq<u8>, myip: seq<u8>, dst: seq<u8>, b: seq<u8>)
    requires |mymac| == ETHER_ADDR_LEN && |myip| == IP_ADDR_LEN && |dst| == IP_ADDR_LEN
    ensures Accepted(Serialize(Request(mymac, myip, dst)))
    ensures Accepted(b) ==> Accepted(Serialize(Reply(Parse(b), mymac, myip)))
  {
  }

  /** `arp_rx`: what a received frame leads to. */
  datatype RxOutcome = RxOutcome(reply: Option<ArpPacket>, sent: seq<Pending>)

  /**
   * `arp_rx`: a frame failing validation, or a request for another host,
   * changes nothing; a reply or a request for this host registers the
   * sender (not permanently), and a request is answered.
   */
  method Rx(t: ArpTable, b: seq<u8>, mymac: seq<u8>, myip: seq<u8>) returns (out: RxOutcome)
    requires t.Valid() && |mymac| == ETHER_ADDR_LEN && |myip| == IP_ADDR_LEN
    modifies t.entries, t`nextRegister
    ensures t.Valid()
    ensures !Accepted(b) || (Parse(b).op == ARPOP_REQUEST && Parse(b).tpa != myip) ==>
              out == RxOutcome(None, []) && t.entries[..] == old(t.entries[..]) && t.nextRegister == old(t.nextRegister)
    ensures Accepted(b) && (Parse(b).op == ARPOP_REPLY || Parse(b).tpa == myip) ==>
              && (out.sent, t.entries[..], t.nextRegister)
                 == RegisterSpec(old(t.entries[..]), old(t.nextRegister), Parse(b).spa, Parse(b).sha, false)
              && out.reply == (if Parse(b).op == ARPOP_REQUEST then Some(Reply(Parse(b), mymac, myip)) else None)
  {
    if !Accepted(b) {
      return RxOutcome(None, []);
    }
    var p := Parse(b);
    if p.op == ARPOP_REQUEST {
      if p.tpa == myip {
        var sent := t.Register(p.spa, p.sha, false);
        return RxOutcome(Some(Reply(p, mymac, myip)), sent);
      }
      return RxOutcome(None, []);
    }
    var sent := t.Register(p.spa, p.sha, false);
    return RxOutcome(None, sent);
  }
}
