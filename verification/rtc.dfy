/**
 * The mruby start-up script that reads the CMOS real-time clock
 * (sys/kern/mrbscript/rtc.rb).  The register reads themselves are port I/O
 * and are not modelled: the seven register bytes are the input.  Ruby
 * integers are unbounded; every value here is a byte, so the masks of the
 * script are written as the equivalent arithmetic on non-negative integers:
 * `x & 0x0f` is `x % 16`, `x & 0xf0` is `x / 16 * 16`, `x & 0x7f` is
 * `x % 128`, `x & 0x80` is `x / 128 * 128`, and bit k of x is `x / 2^k % 2`.
 */
module Rtc {
  import opened CTypes

  type Byte = x: int | 0 <= x < 0x100

  /** The raw bytes of RTC registers 0x0, 0x2, 0x4, 0x7, 0x8, 0x9 and 0xb. */
  datatype Registers = Registers(second: Byte, minute: Byte, hour: Byte, day: Byte,
                                 month: Byte, year: Byte, registerB: Byte)

  /** The values the script prints. */
  datatype Clock = Clock(second: int, minute: int, hour: int, day: int, month: int, year: int)

  /** A byte whose two nibbles are decimal digits. */
  predicate IsBcd(b: Byte) {
    b % 16 <= 9 && b / 16 <= 9
  }

  /** The packed-decimal encoding of a number below 100. */
  function ToBcd(n: int): (b: Byte)
    requires 0 <= n < 100
    ensures IsBcd(b)
  {
    (n / 10) * 16 + n % 10
  }

  function FromBcd(i: Byte): (r: int)
    ensures 0 <= r <= 165
    ensures IsBcd(i) ==> r <= 99
  {
    i % 16 + (i / 16) * 10
  }

  /** Decoding packed decimal undoes encoding, so 0x34 reads as 34. */
  lemma FromBcdToBcd(n: int)
    requires 0 <= n < 100
    ensures FromBcd(ToBcd(n)) == n
  {
  }

  /** Encoding a decoded BCD byte gives the byte back. */
  lemma ToBcdFromBcd(b: Byte)
    requires IsBcd(b)
    ensures ToBcd(FromBcd(b)) == b
  {
  }

  /** Registers 0..9 are in BCD unless bit 2 of status register B is set. */
  predicate BcdMode(regs: Registers) {
    regs.registerB / 4 % 2 == 0
  }

  /** The PM flag, bit 7 of the hour register. */
  function PmBit(hour: Byte): (r: int)
    ensures r == 0 || r == 0x80
  {
    hour / 128 * 128
  }

  /** `hour & 0x70`, the tens digit of the hour in place. */
  function TensBits(hour: Byte): (r: int)
    ensures r % 16 == 0 && r / 16 == (hour % 128) / 16 && 0 <= r <= 0x70
  {
    hour / 16 % 8 * 16
  }

  /**
   * The hour register: the low seven bits are BCD and bit 7 is the PM flag.
   * The decoded low part is below 0x80, so or-ing the flag back in is addition.
   */
  function DecodeHour(hour: Byte): (r: Byte)
    ensures PmBit(r) == PmBit(hour)
    ensures r % 128 == FromBcd(hour % 128)
  {
    var m := hour % 128;
    var p := hour / 128;
    assert hour == 128 * p + m && (p == 0 || p == 1);
    assert m == 16 * (m / 16) + m % 16;
    assert hour % 16 == m % 16 by {
      assert hour == 16 * (8 * p + m / 16) + m % 16;
    }
    var low := hour % 16 + TensBits(hour) / 16 * 10;
    assert low == FromBcd(m) < 128;
    assert (low + 128 * p) / 128 == p && (low + 128 * p) % 128 == low;
    low + PmBit(hour)
  }

  /** The BCD step of the script: either every register is decoded or none is. */
  function DecodeRegisters(regs: Registers): (c: Clock)
    ensures BcdMode(regs) ==>
      c == Clock(FromBcd(regs.second), FromBcd(regs.minute), DecodeHour(regs.hour),
                 FromBcd(regs.day), FromBcd(regs.month), FromBcd(regs.year))
    ensures !BcdMode(regs) ==>
      c == Clock(regs.second, regs.minute, regs.hour, regs.day, regs.month, regs.year)
    ensures 0 <= c.hour < 0x100
  {
    if regs.registerB / 4 % 2 == 0 then
      Clock(FromBcd(regs.second), FromBcd(regs.minute), DecodeHour(regs.hour),
            FromBcd(regs.day), FromBcd(regs.month), FromBcd(regs.year))
    else
      Clock(regs.second, regs.minute, regs.hour, regs.day, regs.month, regs.year)
  }

  /** The clock runs in 12-hour mode unless bit 1 of register B is set. */
  predicate TwelveHourMode(registerB: Byte) {
    registerB / 2 % 2 == 0
  }

  /** The 12 to 24 hour conversion exactly as the script writes it. */
  function To24HourAsWritten(hour: Byte, registerB: Byte): (r: int)
    ensures TwelveHourMode(registerB) && hour / 128 != 0 ==> 0 <= r < 24
    ensures TwelveHourMode(registerB) && hour / 128 != 0 && 1 <= hour % 128 <= 11 ==>
      To12Hour(r) == (hour % 128, true)
    ensures TwelveHourMode(registerB) && hour / 128 != 0 && hour % 128 == 12 ==> r == 0
    ensures !(TwelveHourMode(registerB) && hour / 128 != 0) ==> r == hour
  {
    if registerB / 2 % 2 == 0 && hour / 128 * 128 != 0 then
      assert hour % 128 == hour - 128;
      (hour % 128 + 12) % 24
    else
      hour
  }

  /** In 12-hour mode, 12 PM (noon, register value 0x92) comes out as hour 0. */
  lemma NoonReadsAsMidnight()
    ensures To24HourAsWritten(DecodeHour(0x92), 0) == 0
  {
    assert DecodeHour(0x92) == 0x8c;
  }

  /** In 12-hour mode, 12 AM (midnight, register value 0x12) stays hour 12. */
  lemma MidnightReadsAsNoon()
    ensures To24HourAsWritten(DecodeHour(0x12), 0) == 12
  {
    assert DecodeHour(0x12) == 12;
  }

  /**
   * The 12 to 24 hour conversion the script evidently intends: 12 AM is hour
   * 0, 12 PM is hour 12, and every other afternoon hour gains 12.
   */
  function To24Hour(hour: Byte, registerB: Byte): (r: int)
    ensures TwelveHourMode(registerB) ==> 0 <= r < 24
    ensures TwelveHourMode(registerB) && 1 <= hour % 128 <= 12 ==>
      To12Hour(r) == (hour % 128, hour / 128 != 0)
    ensures !TwelveHourMode(registerB) ==> r == hour
  {
    if registerB / 2 % 2 == 0 then
      (hour % 128) % 12 + (if hour / 128 * 128 != 0 then 12 else 0)
    else
      hour
  }

  /** The 12-hour reading of a 24-hour value: hour of the half-day and the PM flag. */
  function To12Hour(h24: int): (r: (int, bool))
    requires 0 <= h24 < 24
    ensures 1 <= r.0 <= 12
    ensures r.1 <==> h24 >= 12
  {
    (if h24 % 12 == 0 then 12 else h24 % 12, h24 >= 12)
  }

  /** The hour register of a 12-hour clock in binary mode: the hour plus the PM flag. */
  function TwelveHourByte(h12: int, pm: bool): (r: Byte)
    requires 1 <= h12 <= 12
    ensures r % 128 == h12 && (PmBit(r) != 0 <==> pm)
  {
    h12 + (if pm then 0x80 else 0)
  }

  /** The corrected conversion followed by To12Hour gives back every 12-hour reading. */
  lemma To24HourRoundTrip(h12: int, pm: bool)
    requires 1 <= h12 <= 12
    ensures To12Hour(To24Hour(TwelveHourByte(h12, pm), 0)) == (h12, pm)
  {
  }

  /** Every 24-hour value is the conversion of its own 12-hour reading. */
  lemma To12HourRoundTrip(h24: int)
    requires 0 <= h24 < 24
    ensures To24Hour(TwelveHourByte(To12Hour(h24).0, To12Hour(h24).1), 0) == h24
  {
  }

  /**
   * The whole decoding step exactly as the script writes it: BCD conversion,
   * then the written hour conversion.  In 12-hour mode a PM hour from 1 to
   * 11 reads correctly, 12 PM reads as 0, and an AM hour is left as it is,
   * so 12 AM reads as 12.
   */
  function ReadClockAsWritten(regs: Registers): (c: Clock)
    ensures c.(hour := 0) == DecodeRegisters(regs).(hour := 0)
    ensures TwelveHourMode(regs.registerB) && DecodeRegisters(regs).hour / 128 != 0 ==> 0 <= c.hour < 24
    ensures var h := DecodeRegisters(regs).hour;
      TwelveHourMode(regs.registerB) && h / 128 != 0 && 1 <= h % 128 <= 11 ==>
        To12Hour(c.hour) == (h % 128, true)
    ensures var h := DecodeRegisters(regs).hour;
      TwelveHourMode(regs.registerB) && h / 128 != 0 && h % 128 == 12 ==> c.hour == 0
    ensures var h := DecodeRegisters(regs).hour;
      !TwelveHourMode(regs.registerB) || h / 128 == 0 ==> c.hour == h
  {
    var c := DecodeRegisters(regs);
    c.(hour := To24HourAsWritten(c.hour, regs.registerB))
  }

  /** With the clock at 12 PM (hour register 0x92, BCD, 12-hour mode) the script prints hour 0. */
  lemma ReadClockAsWrittenNoon(second: Byte, minute: Byte, day: Byte, month: Byte, year: Byte)
    ensures ReadClockAsWritten(Registers(second, minute, 0x92, day, month, year, 0)).hour == 0
  {
    assert DecodeHour(0x92) == 0x8c;
  }

  /**
   * The whole decoding step with the corrected hour conversion: in 12-hour
   * mode the 24-hour value read back through To12Hour is the register's
   * hour and AM/PM flag; in 24-hour mode the hour is left as decoded.
   */
  function ReadClock(regs: Registers): (c: Clock)
    ensures c.(hour := 0) == DecodeRegisters(regs).(hour := 0)
    ensures TwelveHourMode(regs.registerB) ==> 0 <= c.hour < 24
    ensures var h := DecodeRegisters(regs).hour;
      TwelveHourMode(regs.registerB) && 1 <= h % 128 <= 12 ==>
        To12Hour(c.hour) == (h % 128, h / 128 != 0)
    ensures !TwelveHourMode(regs.registerB) ==> c.hour == DecodeRegisters(regs).hour
  {
    var c := DecodeRegisters(regs);
    c.(hour := To24Hour(c.hour, regs.registerB))
  }

  /** The English ordinal suffix printed after the day of the month. */
  function Ordinal(n: int): (r: string)
    ensures r in {"st", "nd", "rd", "th"}
    ensures 11 <= n <= 19 ==> r == "th"
  {
    if n >= 11 && n <= 19 then "th"
    else if n % 10 == 1 then "st"
    else if n % 10 == 2 then "nd"
    else if n % 10 == 3 then "rd"
    else "th"
  }

  /** Over the days of a month, the suffix agrees with the English table. */
  lemma OrdinalOfDays(d: int)
    requires 1 <= d <= 31
    ensures Ordinal(d) == "st" <==> d in {1, 21, 31}
    ensures Ordinal(d) == "nd" <==> d in {2, 22}
    ensures Ordinal(d) == "rd" <==> d in {3, 23}
    ensures Ordinal(d) == "th" <==> !(d in {1, 2, 3, 21, 22, 23, 31})
  {
  }

  const MONTH_NAME: seq<string> :=
    ["JAN", "FEB", "MAR", "APR", "MAY", "JUN", "JUL", "AUG", "SEP", "OCT", "NOV", "DEC"]

  /**
   * `MONTH_NAME[month-1]` with Ruby's indexing: index -1 is the last entry and
   * an index past the end yields nil (printed by `%s` as nothing).
   */
  function MonthName(month: int): (r: Option<string>)
    requires 0 <= month
    ensures 1 <= month <= 12 ==> r == Some(MONTH_NAME[month - 1])
    ensures month == 0 ==> r == Some("DEC")
    ensures month > 12 ==> r == None
  {
    var i := month - 1;
    if i < 0 then Some(MONTH_NAME[|MONTH_NAME| + i])
    else if i < |MONTH_NAME| then Some(MONTH_NAME[i])
    else None
  }

  /** Distinct months in range get distinct names. */
  lemma MonthNamesDistinct(m1: int, m2: int)
    requires 1 <= m1 <= 12 && 1 <= m2 <= 12 && m1 != m2
    ensures MonthName(m1) != MonthName(m2)
  {
  }
}
