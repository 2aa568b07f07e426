/**
 * Machine integer helpers shared by the kernel model.  The kernel is built
 * for 32-bit x86: `int` and pointers are 32 bits, `char` is signed, and
 * unsigned arithmetic wraps.  Dafny integers are unbounded, so every place
 * where the kernel relies on a wrap or a truncation goes through these.
 * The module also holds the first-match search that several table scans
 * of the kernel are specified by.
 */
module CTypes {
  const U8_LIMIT: int := 0x100
  const U16_LIMIT: int := 0x1_0000
  const U32_LIMIT: int := 0x1_0000_0000
  const INT_MIN: int := -0x8000_0000
  const INT_MAX: int := 0x7fff_ffff

  /** A value that may be absent: a NULL pointer or a failed lookup. */
  datatype Option<T> = None | Some(value: T)

  newtype u8 = x: int | 0 <= x < 0x100
  newtype u16 = x: int | 0 <= x < 0x1_0000
  newtype u32 = x: int | 0 <= x < 0x1_0000_0000

  /** Truncation of an integer to an unsigned 32-bit value (C conversion rule). */
  function Wrap32(x: int): (r: int)
    ensures 0 <= r < U32_LIMIT
    ensures (r - x) % U32_LIMIT == 0
  {
    x % U32_LIMIT
  }

  /** Truncation of an integer to an unsigned 16-bit value. */
  function Wrap16(x: int): (r: int)
    ensures 0 <= r < U16_LIMIT
    ensures (r - x) % U16_LIMIT == 0
  {
    x % U16_LIMIT
  }

  /** Truncation of an integer to an unsigned 8-bit value. */
  function Wrap8(x: int): (r: int)
    ensures 0 <= r < U8_LIMIT
    ensures (r - x) % U8_LIMIT == 0
  {
    x % U8_LIMIT
  }

  /** Conversion of an integer to a signed 32-bit `int` (two's complement). */
  function ToInt32(x: int): (r: int)
    ensures INT_MIN <= r <= INT_MAX
    ensures (r - x) % U32_LIMIT == 0
  {
    var w := x % U32_LIMIT;
    if w <= INT_MAX then w else w - U32_LIMIT
  }

  /** The value of a byte read through a (signed) `char`. */
  function SChar(b: u8): (r: int)
    ensures -128 <= r < 128
    ensures (r - b as int) % U8_LIMIT == 0
  {
    if b < 128 then b as int else b as int - U8_LIMIT
  }

  /** The byte at offset k of a buffer; a byte outside it reads as 0. */
  function ByteAt(d: seq<u8>, k: int): (b: int)
    ensures 0 <= b < U8_LIMIT
  {
    if 0 <= k < |d| then d[k] as int else 0
  }

  /** Index of the first true entry of hits at or after k. */
  function FirstTrue(hits: seq<bool>, k: nat): (r: Option<nat>)
    ensures r.Some? ==> k <= r.value < |hits|
    decreases |hits| - k
  {
    if k >= |hits| then None
    else if hits[k] then Some(k)
    else FirstTrue(hits, k + 1)
  }

  /**
   * FirstTrue finds the first hit: the index it returns holds true, no
   * earlier one does, and None means none at all does.
   */
  lemma {:induction false} FirstTrueIsFirst(hits: seq<bool>, k: nat)
    ensures var r := FirstTrue(hits, k);
      r.Some? ==> hits[r.value] && forall j :: k <= j < r.value ==> !hits[j]
    ensures FirstTrue(hits, k).None? ==> forall j :: k <= j < |hits| ==> !hits[j]
    decreases |hits| - k
  {
    if k < |hits| && !hits[k] {
      FirstTrueIsFirst(hits, k + 1);
    }
  }
}
