/**
 * Network helpers (sys/net/inet/util.c): the Internet checksum of RFC 1071
 * and the host and network parts of an address under a mask.
 *
 * The checksum reads the data as 16-bit words in the byte order of the
 * machine (little-endian on x86), adds them in a 32-bit accumulator whose
 * carries are folded back in, and complements the folded sum.  Folding
 * keeps the sum modulo 0xffff, since 0x10000 is 1 modulo 0xffff, so the
 * result is the complement of the sum of the words in one's-complement
 * arithmetic.
 */
module InetUtil {
  import opened CTypes

  const IP_ADDR_LEN: int := 4
  const ONES: int := 0xffff

  /** The bytes as the kernel's word loop sees them: little-endian words, a trailing odd byte as a low byte. */
  function Total(data: seq<u8>): (t: nat)
    decreases |data|
  {
    if |data| == 0 then 0
    else if |data| == 1 then data[0] as nat
    else data[0] as nat + 256 * data[1] as nat + Total(data[2..])
  }

  /**
   * The one's-complement sum of a total: 0 only for a zero total, else the
   * value in 1..0xffff congruent to it modulo 0xffff.
   */
  function OnesSum(t: nat): (s: int)
    ensures 0 <= s <= ONES && (s == 0 <==> t == 0)
    ensures (s - t) % ONES == 0
  {
    if t == 0 then 0 else (t - 1) % ONES + 1
  }

  /** The checksum of the bytes: the complement of their one's-complement sum. */
  function ChecksumOf(data: seq<u8>): (c: int)
    ensures 0 <= c < U16_LIMIT
    ensures (c + Total(data)) % ONES == 0
  {
    ONES - OnesSum(Total(data))
  }

  /** A value in 0..0xffff that is congruent to a non-zero total and is zero only with it is its one's-complement sum. */
  lemma OnesSumUnique(s: int, t: nat)
    requires 0 <= s <= ONES && (s == 0 <==> t == 0) && (s - t) % ONES == 0
    ensures s == OnesSum(t)
  {
    if t != 0 {
      var q := (t - 1) / 0xffff;
      assert t - 1 == 0xffff * q + (t - 1) % 0xffff;
      var d := (s - t) / 0xffff;
      assert s - t == 0xffff * d;
      // (s - 1) - (t - 1) % 0xffff is a multiple of 0xffff strictly between -0xffff and 0xffff.
      assert (s - 1) - (t - 1) % 0xffff == 0xffff * (d + q);
    }
  }

  /** `sum = (sum & 0xffff) + (sum >> 16)`. */
  function Fold(s: int): int
    requires s >= 0
  {
    s % U16_LIMIT + s / U16_LIMIT
  }

  /** Folding keeps the sum modulo 0xffff, keeps it zero or non-zero, and shrinks a sum above 16 bits. */
  lemma FoldKeeps(s: int)
    requires s >= 0
    ensures (Fold(s) - s) % ONES == 0 && (Fold(s) == 0 <==> s == 0)
    ensures s >= U16_LIMIT ==> Fold(s) < s
    ensures Fold(s) <= ONES + s / U16_LIMIT
  {
    var q := s / U16_LIMIT;
    assert s == U16_LIMIT * q + s % U16_LIMIT;
    assert Fold(s) - s == -ONES * q;
  }

  /** Congruence modulo 0xffff is transitive. */
  lemma CongTrans(a: int, b: int, c: int)
    requires (a - b) % ONES == 0 && (b - c) % ONES == 0
    ensures (a - c) % ONES == 0
  {
    var p := (a - b) / ONES;
    var q := (b - c) / ONES;
    assert a - b == ONES * p && b - c == ONES * q;
    assert a - c == ONES * (p + q);
  }

  /** The words from offset i on: the word at i, then the rest. */
  lemma TotalStep(data: seq<u8>, i: int)
    requires 0 <= i && i + 2 <= |data|
    ensures Total(data[i..]) == data[i] as nat + 256 * data[i + 1] as nat + Total(data[i + 2..])
  {
    assert data[i..][2..] == data[i + 2..];
  }

  /**
   * `checksum`: the words are added, folding whenever bit 31 of the sum is
   * set; a trailing byte is added as a zero-padded word; the sum is folded
   * into 16 bits and complemented.
   */
  method Checksum(data: seq<u8>) returns (r: int)
    ensures r == ChecksumOf(data)
  {
    var sum := 0;
    var i := 0;
    while |data| - i > 1
      invariant 0 <= i <= |data| && 0 <= sum < 0x8000_0000
      invariant (sum - (Total(data) - Total(data[i..]))) % ONES == 0
      invariant sum == 0 <==> Total(data) == Total(data[i..])
      invariant Total(data[i..]) <= Total(data)
    {
      TotalStep(data, i);
      sum := sum + data[i] as int + 256 * data[i + 1] as int;
      if sum >= 0x8000_0000 {
        FoldKeeps(sum);
        CongTrans(Fold(sum), sum, Total(data) - Total(data[i + 2..]));
        sum := Fold(sum);
      }
      i := i + 2;
    }
    if |data| - i == 1 {
      assert Total(data[i..]) == data[i] as nat;
      sum := sum + data[i] as int;
    } else {
      assert Total(data[i..]) == 0;
    }
    while sum >= U16_LIMIT
      invariant 0 <= sum && (sum - Total(data)) % ONES == 0 && (sum == 0 <==> Total(data) == 0)
      decreases sum
    {
      FoldKeeps(sum);
      CongTrans(Fold(sum), sum, Total(data));
      sum := Fold(sum);
    }
    OnesSumUnique(sum, Total(data));
    r := ONES - sum;
  }

  /** Appending a word to bytes of even length adds its value to the total. */
  lemma {:induction false} TotalAppendWord(data: seq<u8>, lo: u8, hi: u8)
    requires |data| % 2 == 0
    ensures Total(data + [lo, hi]) == Total(data) + lo as nat + 256 * hi as nat
    decreases |data|
  {
    if |data| == 0 {
      assert data + [lo, hi] == [lo, hi];
      assert [lo, hi][2..] == [];
    } else {
      assert (data + [lo, hi])[2..] == data[2..] + [lo, hi];
      TotalAppendWord(data[2..], lo, hi);
    }
  }

  /** Bytes of even length followed by their checksum, as a word, have checksum 0: the receiver's test of RFC 1071. */
  lemma ChecksumVerifies(data: seq<u8>)
    requires |data| % 2 == 0
    ensures var c := ChecksumOf(data);
            ChecksumOf(data + [(c % 256) as u8, (c / 256) as u8]) == 0
  {
    var c := ChecksumOf(data);
    var t := Total(data);
    TotalAppendWord(data, (c % 256) as u8, (c / 256) as u8);
    assert Total(data + [(c % 256) as u8, (c / 256) as u8]) == t + c;
    var q := (c + t) / ONES;
    assert c + t == ONES * q;
    assert q >= 1;
    assert ONES - (t + c - ONES * (q - 1)) == 0;
    OnesSumUnique(ONES, t + c);
  }

  /** The total of bytes of even length followed by more bytes is the sum of the two totals. */
  lemma {:induction false} TotalConcat(a: seq<u8>, b: seq<u8>)
    requires |a| % 2 == 0
    ensures Total(a + b) == Total(a) + Total(b)
    decreases |a|
  {
    if |a| == 0 {
      assert a + b == b;
    } else {
      assert (a + b)[2..] == a[2..] + b;
      TotalConcat(a[2..], b);
    }
  }

  /** A word stored at an even offset adds its value to the total of the rest. */
  lemma TotalWithWord(a: seq<u8>, lo: u8, hi: u8, b: seq<u8>)
    requires |a| % 2 == 0
    ensures Total(a + [lo, hi] + b) == Total(a) + lo as nat + 256 * hi as nat + Total(b)
  {
    var w: seq<u8> := [lo, hi];
    TotalConcat(a, w + b);
    TotalConcat(w, b);
    assert w[2..] == [];
    assert a + w + b == a + (w + b);
  }

  /**
   * A checksum computed with its own field zeroed, then stored in that
   * field (at an even offset, in machine byte order), makes the checksum of
   * the whole 0: how a header is filled in and then accepted.
   */
  lemma ChecksumFieldVerifies(a: seq<u8>, b: seq<u8>)
    requires |a| % 2 == 0
    ensures var c := ChecksumOf(a + [0, 0] + b);
            ChecksumOf(a + [(c % 256) as u8, (c / 256) as u8] + b) == 0
  {
    var c := ChecksumOf(a + [0, 0] + b);
    TotalWithWord(a, 0, 0, b);
    TotalWithWord(a, (c % 256) as u8, (c / 256) as u8, b);
    var t := Total(a + [0, 0] + b);
    assert Total(a + [(c % 256) as u8, (c / 256) as u8] + b) == t + c;
    var q := (c + t) / ONES;
    assert c + t == ONES * q;
    OnesSumUnique(ONES, t + c);
  }

  /* ---------------- checksum2 ---------------- */

  /** The little-endian 16-bit word at offset k. */
  function WordAt(d: seq<u8>, k: int): (w: int)
    ensures 0 <= w < U16_LIMIT
  {
    ByteAt(d, k) + 256 * ByteAt(d, k + 1)
  }

  /** `sum & 0x80000000` then fold, as in the word loop. */
  function FoldIfBit31(s: int): int
    requires s >= 0
  {
    if s >= 0x8000_0000 then Fold(s) else s
  }

  /** `while(sum>>16) sum = (sum&0xffff)+(sum>>16)`, then `~sum` as a u16. */
  function Finish(s: int): (r: int)
    requires s >= 0
    ensures 0 <= r < U16_LIMIT
    decreases s
  {
    if s >= U16_LIMIT then (FoldKeeps(s); Finish(Fold(s))) else ONES - s
  }

  /**
   * The word loop of `checksum2` as written, from one turn to the next:
   * `second` says whether `data` points into data2, `pos` is its byte
   * offset there, `complen` counts bytes of data1 consumed.  When one byte
   * of data1 is left, the straddling word is that byte OR'd with the whole
   * first word of data2 shifted left by 8, and reading resumes 2 bytes
   * into data2 (`&data2[1]` of a u16 pointer).
   */
  function Loop2AsWritten(d1: seq<u8>, d2: seq<u8>, sum: int, len: int, second: bool, pos: int, complen: int): (r: int)
    requires 0 <= sum < U32_LIMIT
    ensures 0 <= r < U16_LIMIT
    decreases if len > 1 then len else 0
  {
    if len > 1 then
      var straddle := complen == |d1| - 1;
      var s1 := if straddle then Wrap32(sum + ByteAt(d1, pos) + 256 * WordAt(d2, 0))
                else Wrap32(sum + WordAt(if second then d2 else d1, pos));
      var second1 := if straddle then true else second;
      var pos1 := if straddle then 2 else pos + 2;
      var complen1 := (if straddle then |d1| + 1 else complen) + 2;
      var s2 := FoldIfBit31(s1);
      Loop2AsWritten(d1, d2, s2, len - 2, if complen1 == |d1| then true else second1,
                     if complen1 == |d1| then 0 else pos1, complen1)
    else if len == 1 then
      Finish(sum + ByteAt(if second then d2 else d1, pos))
    else
      Finish(sum)
  }

  /** `checksum2` as written, over data1 and data2 with their lengths. */
  function Checksum2AsWritten(d1: seq<u8>, d2: seq<u8>): (r: int)
    ensures 0 <= r < U16_LIMIT
  {
    Loop2AsWritten(d1, d2, 0, |d1| + |d2|, false, 0, 0)
  }

  /**
   * One byte of data1 and four of data2: the written loop adds the second
   * byte of data2 in the wrong lane and reads the third and fourth at the
   * wrong offset, so the result differs from the checksum of the five bytes.
   */
  lemma Checksum2AsWrittenOddLen()
    ensures Checksum2AsWritten([1], [2, 3, 4, 5]) == 0xf8f7
    ensures ChecksumOf([1, 2, 3, 4, 5]) == 0xf9f6
  {
    var d1: seq<u8>, d2: seq<u8> := [1], [2, 3, 4, 5];
    assert WordAt(d2, 0) == 0x0302 && WordAt(d2, 2) == 0x0504 && ByteAt(d2, 4) == 0;
    assert Loop2AsWritten(d1, d2, 0, 5, false, 0, 0) == Loop2AsWritten(d1, d2, 0x30201, 3, true, 2, 4);
    assert Loop2AsWritten(d1, d2, 0x30201, 3, true, 2, 4) == Loop2AsWritten(d1, d2, 0x30705, 1, true, 4, 6);
    assert Fold(0x30705) == 0x0708;
    assert Finish(0x30705) == Finish(0x0708) == 0xf8f7;
    var d: seq<u8> := [1, 2, 3, 4, 5];
    assert d[2..] == [3, 4, 5] && d[2..][2..] == [5];
    assert Total(d) == 0x0609;
  }

  /** `checksum2` as intended: the checksum of data1 followed by data2, whatever the parity of len1. */
  method Checksum2(d1: seq<u8>, d2: seq<u8>) returns (r: int)
    ensures r == ChecksumOf(d1 + d2)
  {
    r := Checksum(d1 + d2);
  }

  /* ---------------- Address parts ---------------- */

  // Address bytes are handled as bit-vectors here, since only bitwise operations apply to them.

  /** `a & ~m` on a byte. */
  function AndNot(a: bv8, m: bv8): bv8 { a & !m }

  /** `a & m` on a byte. */
  function AndMask(a: bv8, m: bv8): bv8 { a & m }

  /** The host and network parts of a byte share no bit and together give the byte back. */
  lemma PartsSplit(a: bv8, m: bv8)
    ensures AndNot(a, m) & AndMask(a, m) == 0
    ensures AndNot(a, m) | AndMask(a, m) == a
  {
  }

  /** `ipaddr_hostpart`: each of the four bytes of dst becomes addr & ~mask. */
  method HostPart(dst: array<bv8>, addr: seq<bv8>, mask: seq<bv8>)
    requires dst.Length >= IP_ADDR_LEN && |addr| >= IP_ADDR_LEN && |mask| >= IP_ADDR_LEN
    modifies dst
    ensures forall k :: 0 <= k < IP_ADDR_LEN ==> dst[k] == AndNot(addr[k], mask[k])
    ensures dst[IP_ADDR_LEN..] == old(dst[IP_ADDR_LEN..])
  {
    for i := 0 to IP_ADDR_LEN
      invariant forall k :: 0 <= k < i ==> dst[k] == AndNot(addr[k], mask[k])
      invariant dst[IP_ADDR_LEN..] == old(dst[IP_ADDR_LEN..])
    {
      dst[i] := AndNot(addr[i], mask[i]);
    }
  }

  /** `ipaddr_networkpart`: each of the four bytes of dst becomes addr & mask. */
  method NetworkPart(dst: array<bv8>, addr: seq<bv8>, mask: seq<bv8>)
    requires dst.Length >= IP_ADDR_LEN && |addr| >= IP_ADDR_LEN && |mask| >= IP_ADDR_LEN
    modifies dst
    ensures forall k :: 0 <= k < IP_ADDR_LEN ==> dst[k] == AndMask(addr[k], mask[k])
    ensures dst[IP_ADDR_LEN..] == old(dst[IP_ADDR_LEN..])
  {
    for i := 0 to IP_ADDR_LEN
      invariant forall k :: 0 <= k < i ==> dst[k] == AndMask(addr[k], mask[k])
      invariant dst[IP_ADDR_LEN..] == old(dst[IP_ADDR_LEN..])
    {
      dst[i] := AndMask(addr[i], mask[i]);
    }
  }
}
