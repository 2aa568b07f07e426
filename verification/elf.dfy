/**
 * The executable-header test of the ELF loader (sys/kern/elf.c), following
 * the `e_ident` layout of the System V ABI ELF header.
 */
module Elf {
  import opened CTypes
  import opened KernLib

  const EI_NIDENT: nat := 16
  const EI_CLASS: nat := 4
  const EI_DATA: nat := 5
  const ELFCLASS32: u8 := 1
  const ELFDATA2LSB: u8 := 1
  const ET_EXEC: u16 := 2

  /** The C string literal "\177ELF". */
  const ELFMAG: seq<u8> := [0x7f, 0x45, 0x4c, 0x46]

  /** The part of the ELF header the test looks at; `e_ident` is 16 bytes long. */
  datatype Elf32Header = Elf32Header(e_ident: seq<u8>, e_type: u16)

  predicate WellFormed(h: Elf32Header) {
    |h.e_ident| == EI_NIDENT
  }

  /** The test as written, with the kernel's own `strncmp` (see KernLib.StrncmpAsWritten). */
  function IsValidExecAsWritten(h: Elf32Header): (r: int)
    requires WellFormed(h)
    ensures r == 0 || r == 1
  {
    if StrncmpAsWritten(h.e_ident, ELFMAG, 4) != 0 then 0
    else if h.e_ident[EI_CLASS] != ELFCLASS32 then 0
    else if h.e_ident[EI_DATA] != ELFDATA2LSB then 0
    else if h.e_type != ET_EXEC then 0
    else 1
  }

  /**
   * With that `strncmp`, a matching magic compares the class byte against
   * the NUL after "\177ELF", so no header at all passes the test.
   */
  lemma {:induction false} IsValidExecAsWrittenRejectsAll(h: Elf32Header)
    requires WellFormed(h)
    ensures IsValidExecAsWritten(h) == 0
  {
    var k := StopIndex(h.e_ident, ELFMAG, 4);
    if k == 4 {
      assert StrncmpAsWritten(h.e_ident, ELFMAG, 4) == SChar(h.e_ident[EI_CLASS]);
    }
  }

  /** The header the loader is meant to accept: a 32-bit little-endian executable. */
  predicate IsExec32(h: Elf32Header)
    requires WellFormed(h)
  {
    h.e_ident[..4] == ELFMAG && h.e_ident[EI_CLASS] == ELFCLASS32
    && h.e_ident[EI_DATA] == ELFDATA2LSB && h.e_type == ET_EXEC
  }

  /** The test with a `strncmp` that returns 0 after n equal bytes (KernLib.Strncmp0). */
  function IsValidExec(h: Elf32Header): (r: int)
    requires WellFormed(h)
    ensures r == 0 || r == 1
  {
    if Strncmp0(h.e_ident, ELFMAG, 4) != 0 then 0
    else if h.e_ident[EI_CLASS] != ELFCLASS32 then 0
    else if h.e_ident[EI_DATA] != ELFDATA2LSB then 0
    else if h.e_type != ET_EXEC then 0
    else 1
  }

  /** The corrected test accepts exactly the 32-bit little-endian executables. */
  lemma {:induction false} IsValidExecIff(h: Elf32Header)
    requires WellFormed(h)
    ensures IsValidExec(h) == 1 <==> IsExec32(h)
  {
    Strncmp0ZeroIff(h.e_ident, ELFMAG, 4);
    StrnLenIs(ELFMAG, 4, 4);
    var l := StrnLen(h.e_ident, 4);
    if h.e_ident[..4] == ELFMAG {
      StrnLenIs(h.e_ident, 4, 4);
    } else if l == 4 {
      assert h.e_ident[..l] != ELFMAG;
    }
  }
}
