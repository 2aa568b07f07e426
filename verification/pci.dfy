/**
 * PCI configuration space access and bus enumeration (kernel/pci.c).
 *
 * Configuration space is reached through an address port and a data port:
 * the kernel writes a 32-bit configuration address and then reads or
 * writes the selected dword.  The port I/O is not part of this model:
 * what a read returns is given by a function `space` from configuration
 * address to dword, and a write is described by the address and the dword
 * it sends.
 */
module Pci {
  import opened CTypes

  /** Register offsets in the configuration header. */
  const VENDORID: bv8 := 0x0
  const DEVICEID: bv8 := 0x2
  const REVID: bv8 := 0x8
  const CLASS: bv8 := 0xb
  const HEADERTYPE: bv8 := 0xe

  /** Vendor ID read from a slot or function with no device. */
  const NO_DEVICE: u16 := 0xffff
  /** Header-type bit marking a multi-function device. */
  const MULTIFUNCTION: bv8 := 0x80

  /** What reading a configuration address returns. */
  type Space = bv32 -> bv32

  /**
   * The configuration address of a register: enable bit 31, the bus in
   * bits 16-23, the device in bits 11-15, the function in bits 8-10 and the
   * dword-aligned offset in bits 2-7.
   */
  function ConfigAddress(bus: bv8, dev: bv8, func: bv8, offset: bv8): bv32 {
    ((bus as bv32) << 16) | ((dev as bv32) << 11) | ((func as bv32) << 8)
      | ((offset & 0xfc) as bv32) | 0x8000_0000
  }

  /**
   * Each field of a configuration address reads back as given, when the
   * device number fits its 5 bits and the function number its 3 bits; bits
   * 24-30 and 0-1 are zero.
   */
  lemma ConfigAddressFields(bus: bv8, dev: bv8, func: bv8, offset: bv8)
    requires dev < 32 && func < 8
    ensures var a := ConfigAddress(bus, dev, func, offset);
      (a >> 31) == 1 && ((a >> 24) & 0x7f) == 0
      && ((a >> 16) & 0xff) == bus as bv32
      && ((a >> 11) & 0x1f) == dev as bv32
      && ((a >> 8) & 0x7) == func as bv32
      && (a & 0xff) == (offset & 0xfc) as bv32
  {
  }

  /** Two offsets in the same dword select the same configuration address. */
  lemma SameDword(bus: bv8, dev: bv8, func: bv8, o1: bv8, o2: bv8)
    requires (o1 & 0xfc) == (o2 & 0xfc)
    ensures ConfigAddress(bus, dev, func, o1) == ConfigAddress(bus, dev, func, o2)
  {
  }

  /** _pci_config_read32: the dword holding the register. */
  function Read32(space: Space, bus: bv8, dev: bv8, func: bv8, offset: bv8): bv32 {
    space(ConfigAddress(bus, dev, func, offset))
  }

  /** The 16-bit lane of a dword selected by bit 1 of the offset: the low half or the high half. */
  function Lane16(result: bv32, offset: bv8): bv16 {
    if (offset & 2) == 0 then (result & 0xffff) as bv16 else (result >> 16) as bv16
  }

  /** The byte lane of a dword selected by the low two bits of the offset, least significant first. */
  function Lane8(result: bv32, offset: bv8): bv8 {
    match offset & 3
    case 0 => (result & 0xff) as bv8
    case 1 => ((result >> 8) & 0xff) as bv8
    case 2 => ((result >> 16) & 0xff) as bv8
    case _ => (result >> 24) as bv8
  }

  /** _pci_config_read16 selects the lane by shifting right 8 bits per byte of (offset & 2) and masking 16 bits. */
  lemma Lane16Shift(result: bv32, offset: bv8)
    ensures Lane16(result, offset) as bv32 == (result >> (((offset & 2) as bv32) * 8)) & 0xffff
  {
  }

  /** _pci_config_read8 selects the lane by shifting right 8 bits per byte of (offset & 3) and masking 8 bits. */
  lemma Lane8Shift(result: bv32, offset: bv8)
    ensures Lane8(result, offset) as bv32 == (result >> (((offset & 3) as bv32) * 8)) & 0xff
  {
  }

  /** _pci_config_read16: the 16-bit register at offset. */
  function Read16(space: Space, bus: bv8, dev: bv8, func: bv8, offset: bv8): bv16 {
    Lane16(Read32(space, bus, dev, func, offset), offset)
  }

  /** _pci_config_read8: the 8-bit register at offset. */
  function Read8(space: Space, bus: bv8, dev: bv8, func: bv8, offset: bv8): bv8 {
    Lane8(Read32(space, bus, dev, func, offset), offset)
  }

  /**
   * A 16-bit register at an even offset is its two bytes, little end
   * first: read16 and read8 agree.
   */
  lemma Read16IsTwoBytes(space: Space, bus: bv8, dev: bv8, func: bv8, offset: bv8)
    requires (offset & 1) == 0
    ensures Read16(space, bus, dev, func, offset)
      == (Read8(space, bus, dev, func, offset) as bv16)
         | ((Read8(space, bus, dev, func, offset + 1) as bv16) << 8)
  {
    SameDword(bus, dev, func, offset, offset + 1);
    LanesCombine(Read32(space, bus, dev, func, offset), offset);
  }

  /** The 16-bit lane at an even offset is the byte lanes at offset and offset + 1. */
  lemma LanesCombine(r: bv32, offset: bv8)
    requires (offset & 1) == 0
    ensures Lane16(r, offset) == (Lane8(r, offset) as bv16) | ((Lane8(r, offset + 1) as bv16) << 8)
  {
    if (offset & 2) == 0 {
      assert (offset & 3) == 0 && ((offset + 1) & 3) == 1;
      HalfIsTwoBytes(r);
    } else {
      assert (offset & 3) == 2 && ((offset + 1) & 3) == 3;
      HalfIsTwoBytes(r >> 16);
      assert ((r >> 16) >> 8) == r >> 24;
    }
  }

  /** The low half of a dword is its two low bytes, least significant first. */
  lemma HalfIsTwoBytes(r: bv32)
    ensures (r & 0xffff) as bv16 == ((r & 0xff) as bv8 as bv16) | ((((r >> 8) & 0xff) as bv8 as bv16) << 8)
  {
  }

  // ---------------------------------------------------------------------------
  // Writes
  // ---------------------------------------------------------------------------

  /** A configuration write: the address sent to the address port and the dword sent to the data port. */
  datatype Write = Write(addr: bv32, data: bv32)

  /** _pci_config_write32: write the dword holding the register. */
  function Write32(bus: bv8, dev: bv8, func: bv8, offset: bv8, data: bv32): (w: Write)
    ensures w.addr == ConfigAddress(bus, dev, func, offset) && w.data == data
  {
    Write(ConfigAddress(bus, dev, func, offset), data)
  }

  /**
   * The dword _pci_config_write16 sends, as the source computes it: both
   * merges use `&=`, and the mask is `~0xffff` shifted rather than
   * `0xffff` shifted and complemented.
   */
  function Merge16AsWritten(dw: bv32, offset: bv8, data: bv16): bv32 {
    var sh := ((offset & 2) as bv32) * 8;
    var result := dw & ((!(0xffff as bv32)) << sh);
    result & ((data as bv32) << sh)
  }

  /** The same for _pci_config_write8. */
  function Merge8AsWritten(dw: bv32, offset: bv8, data: bv8): bv32 {
    var sh := ((offset & 3) as bv32) * 8;
    var result := dw & ((!(0xff as bv32)) << sh);
    result & ((data as bv32) << sh)
  }

  /**
   * As written, the merged dword is always zero: the data occupies exactly
   * the lane the first mask has cleared.  Writing 0x1234 at offset 4 over
   * the dword 0xffffffff sends 0 instead of 0xffff1234.
   */
  lemma MergeAsWrittenIsZero(dw: bv32, offset: bv8, data16: bv16, data8: bv8)
    ensures Merge16AsWritten(dw, offset, data16) == 0
    ensures Merge8AsWritten(dw, offset, data8) == 0
    ensures Merge16(0xffff_ffff, 4, 0x1234) == 0xffff_1234
  {
    var sh16 := ((offset & 2) as bv32) * 8;
    assert sh16 == 0 || sh16 == 16;
    var sh8 := ((offset & 3) as bv32) * 8;
    assert sh8 == 0 || sh8 == 8 || sh8 == 16 || sh8 == 24;
  }

  /** The dword to write: the register's lane replaced by data, the other lane kept. */
  function Merge16(dw: bv32, offset: bv8, data: bv16): bv32 {
    var sh := ((offset & 2) as bv32) * 8;
    (dw & !((0xffff as bv32) << sh)) | ((data as bv32) << sh)
  }

  /** The dword to write: the register's byte lane replaced by data, the other three kept. */
  function Merge8(dw: bv32, offset: bv8, data: bv8): bv32 {
    var sh := ((offset & 3) as bv32) * 8;
    (dw & !((0xff as bv32) << sh)) | ((data as bv32) << sh)
  }

  /** Reading back the merged dword gives data in its lane and the old value in the other. */
  lemma Merge16RoundTrip(dw: bv32, offset: bv8, data: bv16)
    ensures Lane16(Merge16(dw, offset, data), offset) == data
    ensures Lane16(Merge16(dw, offset, data), offset ^ 2) == Lane16(dw, offset ^ 2)
  {
    if (offset & 2) == 0 {
      assert ((offset ^ 2) & 2) != 0;
    } else {
      assert ((offset ^ 2) & 2) == 0;
    }
  }

  /** Reading back the merged dword gives data in its lane and the old bytes in the others. */
  lemma Merge8RoundTrip(dw: bv32, offset: bv8, data: bv8, other: bv8)
    requires (other & 3) != (offset & 3)
    ensures Lane8(Merge8(dw, offset, data), offset) == data
    ensures Lane8(Merge8(dw, offset, data), other) == Lane8(dw, other)
  {
    var sh := ((offset & 3) as bv32) * 8;
    if (offset & 3) == 0 {
      assert sh == 0;
    } else if (offset & 3) == 1 {
      assert sh == 8;
    } else if (offset & 3) == 2 {
      assert sh == 16;
    } else {
      assert sh == 24;
    }
  }

  /** _pci_config_write16: read the dword, replace the register's lane, write the dword back. */
  function Write16(space: Space, bus: bv8, dev: bv8, func: bv8, offset: bv8, data: bv16): (w: Write)
    ensures w.addr == ConfigAddress(bus, dev, func, offset)
    ensures Lane16(w.data, offset) == data
    ensures Lane16(w.data, offset ^ 2) == Lane16(Read32(space, bus, dev, func, offset), offset ^ 2)
  {
    Merge16RoundTrip(Read32(space, bus, dev, func, offset), offset, data);
    Write32(bus, dev, func, offset, Merge16(Read32(space, bus, dev, func, offset), offset, data))
  }

  /** _pci_config_write8: read the dword, replace the register's byte, write the dword back. */
  function Write8(space: Space, bus: bv8, dev: bv8, func: bv8, offset: bv8, data: bv8): (w: Write)
    ensures w.addr == ConfigAddress(bus, dev, func, offset)
    ensures Lane8(w.data, offset) == data
    ensures forall other: bv8 :: (other & 3) != (offset & 3) ==>
      Lane8(w.data, other) == Lane8(Read32(space, bus, dev, func, offset), other)
  {
    var dw := Read32(space, bus, dev, func, offset);
    forall other: bv8 | (other & 3) != (offset & 3)
      ensures Lane8(Merge8(dw, offset, data), other) == Lane8(dw, other)
    {
      Merge8RoundTrip(dw, offset, data, other);
    }
    Merge8RoundTrip(dw, offset, data, offset ^ 1);
    Write32(bus, dev, func, offset, Merge8(dw, offset, data))
  }

  // ---------------------------------------------------------------------------
  // Devices
  // ---------------------------------------------------------------------------

  /**
   * The two configuration reads the enumeration uses, for a function given
   * by its bus, device and function numbers.
   */
  datatype Config = Config(read16: (int, int, int, bv8) -> u16, read8: (int, int, int, bv8) -> u8)

  /** The reads through the configuration ports, as _pci_config_read16 and _pci_config_read8 make them. */
  function PortConfig(space: Space): (c: Config)
    ensures forall bus, dev, func, offset | InRange(bus, dev, func) ::
      c.read16(bus, dev, func, offset) as int == Read16(space, bus as bv8, dev as bv8, func as bv8, offset) as int
    ensures forall bus, dev, func, offset | InRange(bus, dev, func) ::
      c.read8(bus, dev, func, offset) as int == Read8(space, bus as bv8, dev as bv8, func as bv8, offset) as int
  {
    Config((bus: int, dev: int, func: int, offset: bv8) =>
             if InRange(bus, dev, func) then Read16(space, bus as bv8, dev as bv8, func as bv8, offset) as u16 else 0,
           (bus: int, dev: int, func: int, offset: bv8) =>
             if InRange(bus, dev, func) then Read8(space, bus as bv8, dev as bv8, func as bv8, offset) as u8 else 0)
  }

  /** The multi-function test on the header-type byte is a test of its top bit. */
  lemma MultiFunctionBit(hdrtype: bv8)
    ensures (hdrtype & MULTIFUNCTION) != 0 <==> hdrtype as int >= 0x80
  {
  }

  /** A function found on the bus, with the header fields read when it was added. */
  datatype PciDev = PciDev(bus: int, dev: int, func: int, vendorid: u16, deviceid: u16,
                           revid: u8, classcode: u8, hdrtype: u8)

  const NBUS := 256
  const NDEV := 32
  const NFUNC := 8
  /** A valid bus, device and function number. */
  predicate InRange(bus: int, dev: int, func: int) {
    0 <= bus < NBUS && 0 <= dev < NDEV && 0 <= func < NFUNC
  }

  /** A device answers at this function. */
  predicate Present(cfg: Config, bus: int, dev: int, func: int)
    requires InRange(bus, dev, func)
  {
    cfg.read16(bus, dev, func, VENDORID) != NO_DEVICE
  }

  /** Function 0 of the slot says the device has more functions (bit 7 of its header type). */
  predicate MultiFunction(cfg: Config, bus: int, dev: int)
    requires InRange(bus, dev, 0)
  {
    cfg.read8(bus, dev, 0, HEADERTYPE) >= 0x80
  }

  /** pci_dev_add's record of a function: its numbers and its header fields. */
  function DevAt(cfg: Config, bus: int, dev: int, func: int): (d: PciDev)
    requires InRange(bus, dev, func)
    ensures d.bus == bus && d.dev == dev && d.func == func
  {
    PciDev(bus, dev, func, cfg.read16(bus, dev, func, VENDORID), cfg.read16(bus, dev, func, DEVICEID),
           cfg.read8(bus, dev, func, REVID), cfg.read8(bus, dev, func, CLASS), cfg.read8(bus, dev, func, HEADERTYPE))
  }

  /** The functions 1 .. n-1 of a slot that are present, in order. */
  function FuncsUpTo(cfg: Config, bus: int, dev: int, n: int): seq<PciDev>
    requires InRange(bus, dev, 0) && 1 <= n <= NFUNC
    decreases n
  {
    if n == 1 then []
    else FuncsUpTo(cfg, bus, dev, n - 1) + (if Present(cfg, bus, dev, n - 1) then [DevAt(cfg, bus, dev, n - 1)] else [])
  }

  /**
   * The functions the enumeration adds for one slot: nothing when function
   * 0 is absent; otherwise function 0 and, for a multi-function device,
   * the other functions that are present.
   */
  function SlotDevices(cfg: Config, bus: int, dev: int): seq<PciDev>
    requires InRange(bus, dev, 0)
  {
    if !Present(cfg, bus, dev, 0) then []
    else [DevAt(cfg, bus, dev, 0)] + (if MultiFunction(cfg, bus, dev) then FuncsUpTo(cfg, bus, dev, NFUNC) else [])
  }

  /** Slot dev of bus bus comes before slot dev' of bus bus' in the enumeration order. */
  predicate SlotBefore(bus: int, dev: int, bus': int, dev': int) {
    bus < bus' || (bus == bus' && dev < dev')
  }

  /** A position of the enumeration: before slot dev of bus bus, or the end (bus NBUS, slot 0). */
  predicate Position(bus: int, dev: int) {
    0 <= bus <= NBUS && 0 <= dev <= NDEV && (bus == NBUS ==> dev == 0)
  }

  /**
   * The records added for all slots before slot dev of bus bus, in
   * enumeration order, when slot (b, v) adds slots(b, v).
   */
  function Before(slots: (int, int) -> seq<PciDev>, bus: int, dev: int): seq<PciDev>
    requires Position(bus, dev)
    decreases bus, dev
  {
    if dev == 0 then (if bus == 0 then [] else Before(slots, bus - 1, NDEV))
    else Before(slots, bus, dev - 1) + slots(bus, dev - 1)
  }

  /** What each slot adds on this configuration space. */
  function Slots(cfg: Config): (int, int) -> seq<PciDev> {
    (bus: int, dev: int) => if InRange(bus, dev, 0) then SlotDevices(cfg, bus, dev) else []
  }

  /** Probing slot dev of bus bus extends the list by what the slot adds. */
  lemma NextSlot(cfg: Config, bus: int, dev: int)
    requires InRange(bus, dev, 0)
    ensures Before(Slots(cfg), bus, dev + 1) == Before(Slots(cfg), bus, dev) + SlotDevices(cfg, bus, dev)
  {
  }

  /** The whole device list the enumeration builds. */
  function AllDevices(cfg: Config): seq<PciDev> {
    Before(Slots(cfg), NBUS, 0)
  }

  /** The enumeration rule: which functions end up in the device list. */
  predicate Listed(cfg: Config, bus: int, dev: int, func: int)
    requires InRange(bus, dev, func)
  {
    Present(cfg, bus, dev, 0)
    && (func == 0 || (MultiFunction(cfg, bus, dev) && Present(cfg, bus, dev, func)))
  }

  /** Where a present function other than 0 sits among the functions 1 .. n-1 of its slot. */
  lemma {:induction false} FuncsUpToIndex(cfg: Config, bus: int, dev: int, n: int, func: int) returns (k: int)
    requires InRange(bus, dev, func) && 1 <= func < n <= NFUNC && Present(cfg, bus, dev, func)
    ensures 0 <= k < |FuncsUpTo(cfg, bus, dev, n)| && FuncsUpTo(cfg, bus, dev, n)[k] == DevAt(cfg, bus, dev, func)
    decreases n
  {
    var done := FuncsUpTo(cfg, bus, dev, n - 1);
    var last := if Present(cfg, bus, dev, n - 1) then [DevAt(cfg, bus, dev, n - 1)] else [];
    assert FuncsUpTo(cfg, bus, dev, n) == done + last;
    if func == n - 1 {
      k := |done|;
    } else {
      k := FuncsUpToIndex(cfg, bus, dev, n - 1, func);
    }
  }

  /** Where a listed function sits among the functions added for its slot. */
  lemma SlotDevicesIndex(cfg: Config, bus: int, dev: int, func: int) returns (k: int)
    requires InRange(bus, dev, func) && Listed(cfg, bus, dev, func)
    ensures 0 <= k < |SlotDevices(cfg, bus, dev)| && SlotDevices(cfg, bus, dev)[k] == DevAt(cfg, bus, dev, func)
  {
    if func == 0 {
      k := 0;
    } else {
      k := FuncsUpToIndex(cfg, bus, dev, NFUNC, func);
      k := k + 1;
    }
  }

  /** An entry added by an earlier slot is in the list built so far, after the entries before it. */
  lemma {:induction false} BeforeIndex(slots: (int, int) -> seq<PciDev>, bus': int, dev': int, bus: int, dev: int, j: int)
    returns (k: int)
    requires Position(bus', dev') && 0 <= bus < NBUS && 0 <= dev < NDEV && SlotBefore(bus, dev, bus', dev')
    requires 0 <= j < |slots(bus, dev)|
    ensures 0 <= k < |Before(slots, bus', dev')| && Before(slots, bus', dev')[k] == slots(bus, dev)[j]
    decreases bus', dev'
  {
    if dev' == 0 {
      k := BeforeIndex(slots, bus' - 1, NDEV, bus, dev, j);
    } else if bus == bus' && dev == dev' - 1 {
      k := |Before(slots, bus', dev' - 1)| + j;
    } else {
      k := BeforeIndex(slots, bus', dev' - 1, bus, dev, j);
    }
  }

  /** Every entry of the list built so far was added by some earlier slot. */
  lemma {:induction false} BeforeSource(slots: (int, int) -> seq<PciDev>, bus': int, dev': int, k: int)
    returns (bus: int, dev: int, j: int)
    requires Position(bus', dev') && 0 <= k < |Before(slots, bus', dev')|
    ensures 0 <= bus < NBUS && 0 <= dev < NDEV && SlotBefore(bus, dev, bus', dev')
    ensures 0 <= j < |slots(bus, dev)| && slots(bus, dev)[j] == Before(slots, bus', dev')[k]
    decreases bus', dev'
  {
    if dev' == 0 {
      bus, dev, j := BeforeSource(slots, bus' - 1, NDEV, k);
    } else {
      var done := Before(slots, bus', dev' - 1);
      if k < |done| {
        bus, dev, j := BeforeSource(slots, bus', dev' - 1, k);
      } else {
        bus, dev, j := bus', dev' - 1, k - |done|;
      }
    }
  }

  lemma {:induction false} FuncsUpToOnlyPresent(cfg: Config, bus: int, dev: int, n: int, k: int)
    requires InRange(bus, dev, 0) && 1 <= n <= NFUNC && 0 <= k < |FuncsUpTo(cfg, bus, dev, n)|
    ensures var d := FuncsUpTo(cfg, bus, dev, n)[k];
      InRange(bus, dev, d.func) && d == DevAt(cfg, bus, dev, d.func) && Present(cfg, bus, dev, d.func)
    decreases n
  {
    var done := FuncsUpTo(cfg, bus, dev, n - 1);
    var last := if Present(cfg, bus, dev, n - 1) then [DevAt(cfg, bus, dev, n - 1)] else [];
    assert FuncsUpTo(cfg, bus, dev, n) == done + last;
    if k < |done| {
      FuncsUpToOnlyPresent(cfg, bus, dev, n - 1, k);
    }
  }

  lemma SlotDevicesOnlyListed(cfg: Config, bus: int, dev: int, k: int)
    requires InRange(bus, dev, 0) && 0 <= k < |SlotDevices(cfg, bus, dev)|
    ensures var d := SlotDevices(cfg, bus, dev)[k];
      InRange(bus, dev, d.func) && d == DevAt(cfg, bus, dev, d.func) && Listed(cfg, bus, dev, d.func)
  {
    if k > 0 {
      FuncsUpToOnlyPresent(cfg, bus, dev, NFUNC, k - 1);
    }
  }

  /**
   * Every entry of the device list is the record of a listed function, so
   * nothing else gets in.
   */
  lemma EnumerationOnlyListed(cfg: Config, k: int)
    requires 0 <= k < |AllDevices(cfg)|
    ensures var d := AllDevices(cfg)[k];
      InRange(d.bus, d.dev, d.func) && d == DevAt(cfg, d.bus, d.dev, d.func) && Listed(cfg, d.bus, d.dev, d.func)
  {
    var bus, dev, j := BeforeSource(Slots(cfg), NBUS, 0, k);
    assert Slots(cfg)(bus, dev) == SlotDevices(cfg, bus, dev);
    SlotDevicesOnlyListed(cfg, bus, dev, j);
  }

  /**
   * The enumeration rule: a function's record is in the device list
   * exactly when function 0 of its slot is present and it is function 0
   * itself, or the slot is multi-function and it is present too.
   */
  lemma EnumerationRule(cfg: Config, bus: int, dev: int, func: int)
    requires InRange(bus, dev, func)
    ensures DevAt(cfg, bus, dev, func) in AllDevices(cfg) <==> Listed(cfg, bus, dev, func)
  {
    var all := AllDevices(cfg);
    if Listed(cfg, bus, dev, func) {
      var j := SlotDevicesIndex(cfg, bus, dev, func);
      assert Slots(cfg)(bus, dev) == SlotDevices(cfg, bus, dev);
      var k := BeforeIndex(Slots(cfg), NBUS, 0, bus, dev, j);
      assert all[k] == DevAt(cfg, bus, dev, func);
    }
    if DevAt(cfg, bus, dev, func) in all {
      var k :| 0 <= k < |all| && all[k] == DevAt(cfg, bus, dev, func);
      EnumerationOnlyListed(cfg, k);
    }
  }

  lemma AppendAssoc<T>(a: seq<T>, b: seq<T>, c: seq<T>)
    ensures (a + b) + c == a + (b + c)
  {
  }

  /** The devices whose vendor and device IDs both match. */
  function IdHits(devs: seq<PciDev>, vendorid: u16, deviceid: u16): (hits: seq<bool>)
    ensures |hits| == |devs|
    ensures forall i :: 0 <= i < |devs| ==> hits[i] == (devs[i].vendorid == vendorid && devs[i].deviceid == deviceid)
  {
    seq(|devs|, i requires 0 <= i < |devs| => devs[i].vendorid == vendorid && devs[i].deviceid == deviceid)
  }

  /** The first device in the list with these IDs. */
  function FindDevice(devs: seq<PciDev>, vendorid: u16, deviceid: u16): (r: Option<nat>)
    ensures r.Some? ==> r.value < |devs|
  {
    FirstTrue(IdHits(devs, vendorid, deviceid), 0)
  }

  /** FindDevice gives the first match, and None only when no device matches. */
  lemma FindDeviceFirst(devs: seq<PciDev>, vendorid: u16, deviceid: u16)
    ensures var r := FindDevice(devs, vendorid, deviceid);
      r.Some? ==> (devs[r.value].vendorid == vendorid && devs[r.value].deviceid == deviceid
        && forall j :: 0 <= j < r.value ==> !(devs[j].vendorid == vendorid && devs[j].deviceid == deviceid))
    ensures FindDevice(devs, vendorid, deviceid).None? ==>
      forall j :: 0 <= j < |devs| ==> !(devs[j].vendorid == vendorid && devs[j].deviceid == deviceid)
  {
    FirstTrueIsFirst(IdHits(devs, vendorid, deviceid), 0);
  }

  // ---------------------------------------------------------------------------
  // The device list
  // ---------------------------------------------------------------------------

  class PciBus {
    /** pci_dev_list, in the order the devices were added. */
    var devs: seq<PciDev>

    constructor()
      ensures devs == []
    {
      devs := [];
    }

    /** pci_dev_add: read a function's header fields and append it to the list. */
    method DevAdd(cfg: Config, bus: int, dev: int, func: int)
      requires InRange(bus, dev, func)
      modifies this
      ensures devs == old(devs) + [DevAt(cfg, bus, dev, func)]
    {
      var d := PciDev(bus, dev, func, cfg.read16(bus, dev, func, VENDORID), cfg.read16(bus, dev, func, DEVICEID),
                      cfg.read8(bus, dev, func, REVID), cfg.read8(bus, dev, func, CLASS),
                      cfg.read8(bus, dev, func, HEADERTYPE));
      devs := devs + [d];
    }

    /** The body of pci_enumerate's slot loop: add function 0 and, for a multi-function device, the others. */
    method ProbeSlot(cfg: Config, bus: int, dev: int)
      requires InRange(bus, dev, 0)
      modifies this
      ensures devs == old(devs) + SlotDevices(cfg, bus, dev)
    {
      if cfg.read16(bus, dev, 0, VENDORID) != NO_DEVICE {
        DevAdd(cfg, bus, dev, 0);
        ghost var first := devs;
        if cfg.read8(bus, dev, 0, HEADERTYPE) >= 0x80 {
          ProbeFunctions(cfg, bus, dev);
          ghost var funcs := FuncsUpTo(cfg, bus, dev, NFUNC);
          assert SlotDevices(cfg, bus, dev) == [DevAt(cfg, bus, dev, 0)] + funcs;
          AppendAssoc(old(devs), [DevAt(cfg, bus, dev, 0)], funcs);
        } else {
          assert SlotDevices(cfg, bus, dev) == [DevAt(cfg, bus, dev, 0)];
        }
      } else {
        assert SlotDevices(cfg, bus, dev) == [];
      }
    }

    /** The inner loop of pci_enumerate over functions 1 to 7 of a multi-function device. */
    method ProbeFunctions(cfg: Config, bus: int, dev: int)
      requires InRange(bus, dev, 0)
      modifies this
      ensures devs == old(devs) + FuncsUpTo(cfg, bus, dev, NFUNC)
    {
      var func := 1;
      while func < NFUNC
        invariant 1 <= func <= NFUNC
        invariant devs == old(devs) + FuncsUpTo(cfg, bus, dev, func)
      {
        if cfg.read16(bus, dev, func, VENDORID) != NO_DEVICE {
          DevAdd(cfg, bus, dev, func);
        }
        assert FuncsUpTo(cfg, bus, dev, func + 1) == FuncsUpTo(cfg, bus, dev, func)
          + (if Present(cfg, bus, dev, func) then [DevAt(cfg, bus, dev, func)] else []);
        func := func + 1;
      }
    }

    /**
     * pci_enumerate: start an empty list and probe every slot of every bus
     * in order.  pci_init calls it with the reads through the ports,
     * PortConfig(space).
     */
    method Enumerate(cfg: Config)
      modifies this
      ensures devs == AllDevices(cfg)
    {
      devs := [];
      var bus := 0;
      while bus < NBUS
        invariant 0 <= bus <= NBUS
        invariant devs == Before(Slots(cfg), bus, 0)
      {
        var dev := 0;
        while dev < NDEV
          invariant 0 <= dev <= NDEV
          invariant devs == Before(Slots(cfg), bus, dev)
        {
          ProbeSlot(cfg, bus, dev);
          NextSlot(cfg, bus, dev);
          dev := dev + 1;
        }
        bus := bus + 1;
      }
    }

    /** pci_search_device: the first device in the list with both IDs, or none. */
    method SearchDevice(vendorid: u16, deviceid: u16) returns (r: Option<PciDev>)
      ensures FindDevice(devs, vendorid, deviceid).None? ==> r.None?
      ensures FindDevice(devs, vendorid, deviceid).Some? ==> r == Some(devs[FindDevice(devs, vendorid, deviceid).value])
    {
      ghost var hits := IdHits(devs, vendorid, deviceid);
      var i := 0;
      while i < |devs|
        invariant 0 <= i <= |devs|
        invariant FirstTrue(hits, 0) == FirstTrue(hits, i)
      {
        if devs[i].vendorid == vendorid && devs[i].deviceid == deviceid {
          return Some(devs[i]);
        }
        i := i + 1;
      }
      return None;
    }
  }
}
