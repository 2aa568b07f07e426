/**
 * The block-device view the file systems read through.  A disk is a
 * function from block number to the 512 bytes of that block; both file
 * systems are modelled over such a function in place of the buffer cache.
 */
module BlkDev {
  import opened CTypes

  /** Size of one block of the block-device layer. */
  const BLOCKSIZE := 512

  /** Every block of the disk holds BLOCKSIZE bytes. */
  ghost predicate DiskOk(disk: int -> seq<u8>) {
    forall s :: |disk(s)| == BLOCKSIZE
  }

  /** The little-endian 16-bit value at byte offset o of s (x86 byte order). */
  function Le16(s: seq<u8>, o: int): (v: int)
    requires 0 <= o && o + 2 <= |s|
    ensures 0 <= v < U16_LIMIT
    ensures v % U8_LIMIT == s[o] as int && v / U8_LIMIT == s[o + 1] as int
  {
    s[o] as int + 0x100 * s[o + 1] as int
  }
}
