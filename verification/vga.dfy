/**
 * The VGA text console (sys/kern/vga.c): a screen of 25 rows of 80 cells in
 * video memory, a cursor that advances as characters are written, a
 * scroll that moves the rows up, and the printing of numbers in base 10 or
 * 16.  Once the console is switched to the terminal character device,
 * characters go to that device instead of the screen.
 *
 * A screen cell is a 16-bit entry: the character in the low byte and its
 * colour attribute in the high byte.  The bytes handed to the character
 * device are collected in a sequence; the device itself is not part of
 * this model.
 */
module Vga {
  import opened CTypes
  import opened CStrings
  import KernLib

  const WIDTH := 80
  const HEIGHT := 25
  const CELLS := 2000
  const TABWIDTH := 8

  const COLOR_BLUE: bv8 := 1
  const COLOR_WHITE: bv8 := 15

  const LF := 0x0a
  const CR := 0x0d
  const TAB := 0x09
  const DEL := 0x7f
  const BS: u8 := 0x08
  const SPACE: u8 := 0x20
  const MINUS: u8 := 0x2d

  /** The colour attribute for foreground fg on background bg, truncated to a byte. */
  function EntryColor(fg: bv8, bg: bv8): (color: bv8)
    ensures fg < 16 && bg < 16 ==> (color & 0xf) == fg && (color >> 4) == bg
  {
    fg | (bg << 4)
  }

  /** A screen entry: character ch with colour attribute color. */
  function Entry(ch: bv8, color: bv8): (e: bv16)
    ensures (e & 0xff) == ch as bv16 && (e >> 8) == color as bv16
  {
    (ch as bv16) | ((color as bv16) << 8)
  }

  /**
   * The entry as the source computes it: the character reaches the entry
   * through a signed `char`, so a byte of 0x80 or more is sign-extended
   * and its high byte covers the colour.
   */
  function EntryAsWritten(ch: bv8, color: bv8): bv16 {
    var wide: bv16 := if ch < 0x80 then ch as bv16 else (ch as bv16) | 0xff00;
    wide | ((color as bv16) << 8)
  }

  /**
   * The sign extension agrees with Entry for ASCII characters; every byte
   * of 0x80 or more is drawn with attribute 0xff (blinking white on white)
   * whatever the colour.  The block character 0xdb in white on blue comes
   * out as 0xffdb instead of 0x1fdb.
   */
  lemma EntryAsWrittenAttribute(ch: bv8, color: bv8)
    ensures ch < 0x80 ==> EntryAsWritten(ch, color) == Entry(ch, color)
    ensures ch >= 0x80 ==> (EntryAsWritten(ch, color) >> 8) == 0xff
    ensures EntryAsWritten(0xdb, 0x1f) == 0xffdb && Entry(0xdb, 0x1f) == 0x1fdb
  {
  }

  /** A space in the given colour: what an empty cell holds. */
  function Blank(color: bv8): bv16 {
    Entry(SPACE as int as bv8, color)
  }

  /** A screen of blank cells. */
  function BlankScreen(color: bv8): (cells: seq<bv16>)
    ensures |cells| == CELLS && forall i :: 0 <= i < CELLS ==> cells[i] == Blank(color)
  {
    seq(CELLS, _ => Blank(color))
  }

  /** Index of the cell in column x of row y. */
  function Index(x: int, y: int): (i: int)
    requires 0 <= x < WIDTH && 0 <= y < HEIGHT
    ensures 0 <= i < CELLS
  {
    y * WIDTH + x
  }

  /** The WIDTH cells of row y. */
  function Row(cells: seq<bv16>, y: int): (r: seq<bv16>)
    requires |cells| == CELLS && 0 <= y < HEIGHT
    ensures |r| == WIDTH
  {
    cells[y * WIDTH..(y + 1) * WIDTH]
  }

  /** The screen after scrolling up by `lines` rows, blank rows entering at the bottom. */
  function Scrolled(cells: seq<bv16>, lines: int, blank: bv16): (r: seq<bv16>)
    requires |cells| == CELLS && 0 <= lines <= HEIGHT
    ensures |r| == CELLS
  {
    cells[lines * WIDTH..] + seq(lines * WIDTH, _ => blank)
  }

  /**
   * Scrolling by `lines` moves every row up by `lines` and leaves the
   * bottom `lines` rows blank.
   */
  lemma ScrolledRows(cells: seq<bv16>, lines: int, blank: bv16)
    requires |cells| == CELLS && 0 <= lines <= HEIGHT
    ensures forall y :: 0 <= y < HEIGHT - lines ==> Row(Scrolled(cells, lines, blank), y) == Row(cells, y + lines)
    ensures forall y :: HEIGHT - lines <= y < HEIGHT ==> Row(Scrolled(cells, lines, blank), y) == seq(WIDTH, _ => blank)
  {
    var r := Scrolled(cells, lines, blank);
    forall y | 0 <= y < HEIGHT - lines
      ensures Row(r, y) == Row(cells, y + lines)
    {
      assert forall x :: 0 <= x < WIDTH ==> Row(r, y)[x] == r[y * WIDTH + x] == cells[(y + lines) * WIDTH + x];
    }
    forall y | HEIGHT - lines <= y < HEIGHT
      ensures Row(r, y) == seq(WIDTH, _ => blank)
    {
      assert forall x :: 0 <= x < WIDTH ==> Row(r, y)[x] == r[y * WIDTH + x] == blank;
    }
  }

  /** The next tab stop after column: the next multiple of TABWIDTH. */
  function TabStop(column: int): (t: int)
    requires 0 <= column
    ensures t % TABWIDTH == 0 && column < t <= column + TABWIDTH
  {
    (column + TABWIDTH) / TABWIDTH * TABWIDTH
  }

  /** The low byte of an int, as a one-byte write of it sends it. */
  function Byte(c: int): (b: u8)
    ensures (b as int - c) % U8_LIMIT == 0
  {
    (c % U8_LIMIT) as u8
  }

  /** The low byte of an int as a `char` conversion keeps it, as a bit pattern. */
  function Glyph(c: int): bv8 {
    (c % U8_LIMIT) as bv8
  }

  /**
   * What putchar writes to the terminal device: DEL erases the character
   * before the cursor ("\b \b"), CR becomes a newline, and any other
   * character is written as its low byte.
   */
  function TtyBytes(c: int): (out: seq<u8>)
    ensures c == DEL ==> out == [BS, SPACE, BS]
    ensures c == CR ==> out == [LF as u8]
    ensures c != DEL && c != CR ==> out == [Byte(c)]
  {
    if c == DEL then [BS, SPACE, BS] else if c == CR then [LF as u8] else [Byte(c)]
  }

  // ---------------------------------------------------------------------------
  // The console as a value
  // ---------------------------------------------------------------------------

  /** Everything putchar reads or changes. */
  datatype Term = Term(cells: seq<bv16>, column: int, row: int, color: bv8, chardev: bool, tty: seq<u8>)

  /** The screen has its 2000 cells and the cursor is on it. */
  predicate OnScreen(s: Term) {
    |s.cells| == CELLS && 0 <= s.column < WIDTH && 0 <= s.row < HEIGHT
  }

  /**
   * The cursor goes to the start of the next line over the cells `cells`:
   * one row down, or, from the last row, the screen scrolls by one row and
   * the cursor stays on the last row.
   */
  function NewLine(s: Term, cells: seq<bv16>): (t: Term)
    requires OnScreen(s) && |cells| == CELLS
    ensures OnScreen(t) && t.column == 0 && t.color == s.color && t.chardev == s.chardev && t.tty == s.tty
  {
    if s.row + 1 < HEIGHT then s.(cells := cells, column := 0, row := s.row + 1)
    else s.(cells := Scrolled(cells, 1, Blank(s.color)), column := 0, row := HEIGHT - 1)
  }

  /**
   * putchar on the console state s.  In character-device mode the bytes go
   * to the device and the screen is untouched.  Otherwise a newline starts
   * the next line, a tab moves to the next tab stop, and any other
   * character is drawn at the cursor, which then advances; a cursor that
   * runs past the last column continues on the next line.
   *
   * The cursor always stays on the screen, moves down by at most one row,
   * and a character is drawn where the cursor was (one row higher when
   * the screen scrolled).
   */
  function Put(s: Term, c: int): (t: Term)
    requires OnScreen(s)
    ensures OnScreen(t) && t.color == s.color && t.chardev == s.chardev
    ensures s.chardev ==> t == s.(tty := s.tty + TtyBytes(c))
    ensures !s.chardev ==> t.tty == s.tty
    ensures !s.chardev ==> t.row == s.row || t.row == s.row + 1 || t.row == s.row == HEIGHT - 1
    ensures !s.chardev && c == LF ==> t.column == 0 && t.row == (if s.row + 1 < HEIGHT then s.row + 1 else HEIGHT - 1)
    ensures !s.chardev && c == TAB ==>
      t.column % TABWIDTH == 0 && (t.column == 0 || s.column < t.column <= s.column + TABWIDTH)
    ensures !s.chardev && c != LF && c != TAB ==>
      t.column == (s.column + 1) % WIDTH
      && (s.column + 1 < WIDTH || s.row + 1 < HEIGHT ==> t.cells[Index(s.column, s.row)] == Entry(Glyph(c), s.color))
      && (s.column + 1 == WIDTH && s.row + 1 == HEIGHT ==> t.cells[Index(s.column, s.row - 1)] == Entry(Glyph(c), s.color))
  {
    if s.chardev then s.(tty := s.tty + TtyBytes(c))
    else if c == LF then NewLine(s, s.cells)
    else if c == TAB then
      if TabStop(s.column) < WIDTH then s.(column := TabStop(s.column)) else NewLine(s, s.cells)
    else
      var drawn := s.cells[Index(s.column, s.row) := Entry(Glyph(c), s.color)];
      if s.column + 1 < WIDTH then s.(cells := drawn, column := s.column + 1) else NewLine(s, drawn)
  }

  /** putchar applied to each byte of str in turn, each read through a signed `char`. */
  function PutAll(s: Term, str: seq<u8>): (t: Term)
    requires OnScreen(s)
    ensures OnScreen(t)
    decreases |str|
  {
    if |str| == 0 then s else Put(PutAll(s, str[..|str| - 1]), SChar(str[|str| - 1]))
  }

  // ---------------------------------------------------------------------------
  // Numbers
  // ---------------------------------------------------------------------------

  /** The character for digit d: '0'..'9', then 'a'..'f'. */
  function NumChar(d: int): (ch: u8)
    requires 0 <= d < 16
    ensures ch != NUL && ch < 0x80
  {
    if d < 10 then (0x30 + d) as u8 else (0x61 + d - 10) as u8
  }

  /** The digit a character stands for (the inverse of NumChar). */
  function DigitValue(ch: u8): (d: int)
    ensures forall k :: 0 <= k < 16 && ch == NumChar(k) ==> d == k
  {
    if 0x30 <= ch <= 0x39 then ch as int - 0x30
    else if 0x61 <= ch <= 0x66 then ch as int - 0x61 + 10
    else 0
  }

  /** The base-`base` digits of v, most significant first, without leading zeros. */
  function Digits(v: nat, base: int): (ds: seq<u8>)
    requires 2 <= base <= 16
    ensures |ds| >= 1
    decreases v
  {
    if v < base then [NumChar(v)] else Digits(v / base, base) + [NumChar(v % base)]
  }

  /** The number a digit string stands for in base `base`. */
  function Value(ds: seq<u8>, base: int): int
    decreases |ds|
  {
    if |ds| == 0 then 0 else Value(ds[..|ds| - 1], base) * base + DigitValue(ds[|ds| - 1])
  }

  /** The division facts one step of the digit loop uses. */
  lemma DivStep(v: nat, base: int)
    requires 2 <= base
    ensures 0 <= v % base < base && 0 <= v / base
    ensures 0 < v ==> v / base < v
  {
    var q := v / base;
    assert q * base + v % base == v;
    MulLe(2, base, q);
    assert 2 * q <= v;
  }

  /** Euclidean division facts the digit proofs use. */
  lemma DivFacts(v: nat, base: int)
    requires 2 <= base
    ensures v / base * base + v % base == v && 0 <= v % base < base
    ensures v / base == 0 <==> v < base
    ensures 0 < v ==> v / base < v
  {
  }

  /** Reading the digits back gives v. */
  lemma {:induction false} DigitsValue(v: nat, base: int)
    requires 2 <= base <= 16
    ensures Value(Digits(v, base), base) == v
    decreases v
  {
    var ds := Digits(v, base);
    DivFacts(v, base);
    if v >= base {
      DigitsValue(v / base, base);
      assert ds[..|ds| - 1] == Digits(v / base, base);
    }
  }

  /** Every digit is below the base, and only zero itself starts with a '0'. */
  lemma {:induction false} DigitsWellFormed(v: nat, base: int)
    requires 2 <= base <= 16
    ensures forall k :: 0 <= k < |Digits(v, base)| ==> DigitValue(Digits(v, base)[k]) < base
    ensures Digits(v, base)[0] == NumChar(0) ==> v == 0
    decreases v
  {
    DivFacts(v, base);
    if v >= base {
      DigitsWellFormed(v / base, base);
      assert Digits(v, base)[0] == Digits(v / base, base)[0];
    }
  }

  /** base to the power k. */
  function Pow(base: nat, k: nat): (p: nat)
    ensures base >= 1 ==> p >= 1
  {
    if k == 0 then 1 else base * Pow(base, k - 1)
  }

  /** A quotient is below p when the dividend is below base * p. */
  lemma DivBelow(v: nat, base: nat, p: nat)
    requires 0 < base && v < base * p
    ensures v / base < p
  {
    var q := v / base;
    assert q * base <= v;
    assert q * base < p * base;
  }

  /** A number below base^k has at most k digits. */
  lemma {:induction false} DigitsLength(v: nat, base: int, k: nat)
    requires 2 <= base <= 16 && 1 <= k && v < Pow(base, k)
    ensures |Digits(v, base)| <= k
    decreases k
  {
    if v >= base {
      assert 1 < k;
      DivBelow(v, base, Pow(base, k - 1));
      DigitsLength(v / base, base, k - 1);
    }
  }

  /** Multiplication by a natural number keeps the order. */
  lemma MulLe(a: nat, b: nat, c: nat)
    requires a <= b
    ensures a * c <= b * c
  {
  }

  /** base^k grows with the base. */
  lemma {:induction false} PowMonotone(a: nat, b: nat, k: nat)
    requires a <= b
    ensures Pow(a, k) <= Pow(b, k)
    decreases k
  {
    if k > 0 {
      PowMonotone(a, b, k - 1);
      MulLe(a, b, Pow(a, k - 1));
      MulLe(Pow(a, k - 1), Pow(b, k - 1), b);
    }
  }

  /**
   * For base 5 and up, a 32-bit value has at most 14 digits, so the digits
   * and the leading NUL fit the 16-byte buffer.
   */
  lemma DigitsFitBuffer(v: nat, base: int)
    requires 5 <= base <= 16 && v < U32_LIMIT
    ensures |Digits(v, base)| < 16
  {
    assert Pow(5, 14) == 6103515625;
    PowMonotone(5, base, 14);
    DigitsLength(v, base, 14);
  }

  /** What print_num_signed prints: '-' for a negative value, then the digits of its magnitude. */
  function SignedDigits(val: int, base: int): (out: seq<u8>)
    requires 2 <= base <= 16
    ensures val < 0 ==> out == [MINUS] + Digits(-val, base)
    ensures val >= 0 ==> out == Digits(val, base)
  {
    if val < 0 then [MINUS] + Digits(-val, base) else Digits(val, base)
  }

  /** C's `%` on int: the remainder takes the sign of the dividend. */
  function CRem(a: int, b: int): (r: int)
    requires b > 0
    ensures a >= 0 ==> r == a % b
    ensures a < 0 ==> -b < r <= 0
  {
    if a >= 0 then a % b else -((-a) % b)
  }

  /**
   * The numchar index print_num_signed uses for the last digit: it negates
   * a negative value in 32 bits and takes the C remainder.
   */
  function SignedDigitIndexAsWritten(val: int, base: int): int
    requires INT_MIN <= val <= INT_MAX && 2 <= base <= 16
  {
    CRem(KernLib.Abs(val), base)
  }

  /**
   * The index is a digit for every int but INT_MIN: -INT_MIN wraps back to
   * INT_MIN, the remainder is negative, and numchar is read at index -8.
   */
  lemma SignedDigitIndexAsWrittenRange(val: int, base: int)
    requires INT_MIN <= val <= INT_MAX && 2 <= base <= 16
    ensures val > INT_MIN ==> 0 <= SignedDigitIndexAsWritten(val, base) < base
    ensures SignedDigitIndexAsWritten(INT_MIN, 10) == -8
  {
  }

  // ---------------------------------------------------------------------------
  // The console
  // ---------------------------------------------------------------------------

  class Console {
    var column: int
    var row: int
    var color: bv8
    /** Video memory: row y, column x is at y * WIDTH + x. */
    const buffer: array<bv16>
    /** Characters go to the terminal device instead of the screen. */
    var useChardev: bool
    /** The bytes written to the terminal device so far. */
    var tty: seq<u8>

    ghost predicate Valid()
      reads this
    {
      buffer.Length == CELLS && 0 <= column < WIDTH && 0 <= row < HEIGHT
    }

    /** The console state, as putchar sees it. */
    function Snap(): (t: Term)
      reads this, buffer
    {
      Term(buffer[..], column, row, color, useChardev, tty)
    }

    /** A console over video memory vram, initialised by vga_init. */
    constructor(vram: array<bv16>)
      requires vram.Length == CELLS
      modifies vram
      ensures Valid() && buffer == vram && !useChardev && tty == []
      ensures column == 0 && row == 0 && color == EntryColor(COLOR_WHITE, COLOR_BLUE)
      ensures buffer[..] == BlankScreen(color)
    {
      buffer := vram;
      useChardev := false;
      tty := [];
      new;
      Init();
    }

    /** vga_init: cursor home, white on blue, every cell blank. */
    method Init()
      requires buffer.Length == CELLS
      modifies this, buffer
      ensures Valid() && useChardev == old(useChardev) && tty == old(tty)
      ensures column == 0 && row == 0 && color == EntryColor(COLOR_WHITE, COLOR_BLUE)
      ensures buffer[..] == BlankScreen(color)
    {
      row := 0;
      column := 0;
      color := EntryColor(COLOR_WHITE, COLOR_BLUE);
      var y := 0;
      while y < HEIGHT
        invariant 0 <= y <= HEIGHT
        invariant forall i :: 0 <= i < y * WIDTH ==> buffer[i] == Blank(color)
        invariant row == 0 && column == 0 && color == EntryColor(COLOR_WHITE, COLOR_BLUE)
        invariant useChardev == old(useChardev) && tty == old(tty)
      {
        var x := 0;
        while x < WIDTH
          invariant 0 <= x <= WIDTH
          invariant forall i :: 0 <= i < y * WIDTH + x ==> buffer[i] == Blank(color)
          invariant row == 0 && column == 0 && color == EntryColor(COLOR_WHITE, COLOR_BLUE)
          invariant useChardev == old(useChardev) && tty == old(tty)
        {
          buffer[y * WIDTH + x] := Blank(color);
          x := x + 1;
        }
        y := y + 1;
      }
      assert buffer[..] == BlankScreen(color);
    }

    /** vga_setcolor: later characters use foreground fg on background bg. */
    method SetColor(fg: bv8, bg: bv8)
      modifies this`color
      ensures color == EntryColor(fg, bg)
    {
      color := EntryColor(fg, bg);
    }

    /** switch_to_chardev: from now on characters go to the terminal device. */
    method SwitchToChardev()
      modifies this`useChardev
      ensures useChardev
    {
      useChardev := true;
    }

    /** scroll: move the rows up by `lines` and blank the bottom `lines` rows. */
    method Scroll(lines: int)
      requires buffer.Length == CELLS && 0 <= lines <= HEIGHT
      modifies buffer
      ensures buffer[..] == Scrolled(old(buffer[..]), lines, Blank(color))
    {
      ghost var shift := lines * WIDTH;
      ghost var keep := (HEIGHT - lines) * WIDTH;
      assert keep + shift == CELLS;
      var y := 0;
      while y < HEIGHT - lines
        invariant 0 <= y <= HEIGHT - lines && y * WIDTH <= keep
        invariant forall i :: 0 <= i < y * WIDTH ==> buffer[i] == old(buffer[i + shift])
        invariant forall i :: y * WIDTH <= i < CELLS ==> buffer[i] == old(buffer[i])
      {
        MoveRow(y, lines);
        y := y + 1;
      }
      y := HEIGHT - lines;
      while y < HEIGHT
        invariant HEIGHT - lines <= y <= HEIGHT && keep <= y * WIDTH
        invariant forall i :: 0 <= i < keep ==> buffer[i] == old(buffer[i + shift])
        invariant forall i :: keep <= i < y * WIDTH ==> buffer[i] == Blank(color)
      {
        ClearRow(y);
        y := y + 1;
      }
      assert forall i :: 0 <= i < CELLS ==> buffer[..][i] == Scrolled(old(buffer[..]), lines, Blank(color))[i];
    }

    /** One pass of scroll's first loop: row y takes the cells of row y + lines. */
    method MoveRow(y: int, lines: int)
      requires buffer.Length == CELLS && 0 <= lines && 0 <= y && y + lines < HEIGHT
      modifies buffer
      ensures forall i :: 0 <= i < CELLS ==>
        buffer[i] == if y * WIDTH <= i < (y + 1) * WIDTH then old(buffer[i + lines * WIDTH]) else old(buffer[i])
    {
      ghost var start := y * WIDTH;
      ghost var shift := lines * WIDTH;
      assert start + WIDTH + shift <= CELLS;
      var x := 0;
      while x < WIDTH
        invariant 0 <= x <= WIDTH
        invariant forall i :: start <= i < start + x ==> buffer[i] == old(buffer[i + shift])
        invariant forall i :: 0 <= i < CELLS && !(start <= i < start + x) ==> buffer[i] == old(buffer[i])
      {
        assert y * WIDTH + x == start + x && (y + lines) * WIDTH + x == start + x + shift;
        buffer[y * WIDTH + x] := buffer[(y + lines) * WIDTH + x];
        x := x + 1;
      }
    }

    /** One pass of scroll's second loop: row y becomes blank. */
    method ClearRow(y: int)
      requires buffer.Length == CELLS && 0 <= y < HEIGHT
      modifies buffer
      ensures forall i :: 0 <= i < CELLS ==>
        buffer[i] == if y * WIDTH <= i < (y + 1) * WIDTH then Blank(color) else old(buffer[i])
    {
      ghost var start := y * WIDTH;
      var x := 0;
      while x < WIDTH
        invariant 0 <= x <= WIDTH
        invariant forall i :: 0 <= i < CELLS ==> buffer[i] == if start <= i < start + x then Blank(color) else old(buffer[i])
      {
        assert y * WIDTH + x == start + x;
        buffer[y * WIDTH + x] := Blank(color);
        x := x + 1;
      }
    }

    /** putchar: write one character to the console; the result is c. */
    method Putchar(c: int) returns (r: int)
      requires Valid()
      modifies this, buffer
      ensures Valid() && Snap() == Put(old(Snap()), c) && r == c
    {
      if useChardev {
        tty := tty + TtyBytes(c);
        return c;
      }
      ghost var s0 := Snap();
      if c == LF {
        column := 0;
        row := row + 1;
      } else if c == TAB {
        column := TabStop(column);
      } else {
        buffer[Index(column, row)] := Entry(Glyph(c), color);
        column := column + 1;
      }
      ghost var drawn := buffer[..];
      assert drawn == if c == LF || c == TAB then s0.cells else s0.cells[Index(s0.column, s0.row) := Entry(Glyph(c), color)];
      if column >= WIDTH {
        column := 0;
        row := row + 1;
      }
      if row >= HEIGHT {
        // the cursor is at most one row below the screen
        assert row == HEIGHT && s0.row == HEIGHT - 1;
        Scroll(row - HEIGHT + 1);
        row := HEIGHT - 1;
        assert Snap() == NewLine(s0, drawn);
      }
      return c;
    }

    /** putstr: putchar each byte of the C string str. */
    method Putstr(str: seq<u8>) returns (r: int)
      requires Valid()
      modifies this, buffer
      ensures Valid() && Snap() == PutAll(old(Snap()), CStr(str)) && r == 0
    {
      ghost var s0 := Snap();
      var i := 0;
      while CharAt(str, i) != NUL
        invariant Valid() && i <= StrEnd(str, 0)
        invariant forall k :: 0 <= k < i ==> CharAt(str, k) != NUL
        invariant Snap() == PutAll(s0, CStr(str)[..i])
        decreases |str| - i
      {
        var ch := CharAt(str, i);
        var _ := Putchar(SChar(ch));
        assert CStr(str)[..i + 1][..i] == CStr(str)[..i];
        i := i + 1;
      }
      assert CStr(str)[..i] == CStr(str);
      return 0;
    }

    /** puts: the string, then a newline. */
    method Puts(str: seq<u8>) returns (r: int)
      requires Valid()
      modifies this, buffer
      ensures Valid() && Snap() == Put(PutAll(old(Snap()), CStr(str)), LF) && r == 0
    {
      var _ := Putstr(str);
      var _ := Putchar(LF);
      return 0;
    }

    /** Emit the digits held in buf[1..] (least significant first) from the last one back to the NUL in buf[0]. */
    method EmitReversed(buf: seq<u8>)
      requires Valid() && |buf| >= 1 && buf[0] == NUL
      requires forall k :: 1 <= k < |buf| ==> buf[k] != NUL
      modifies this, buffer
      ensures Valid() && Snap() == PutAll(old(Snap()), Reverse(buf[1..]))
    {
      ghost var s0 := Snap();
      ghost var ds := Reverse(buf[1..]);
      ghost var n := 0;
      var p := |buf|;
      while true
        invariant 1 <= p <= |buf| && n == |buf| - p && Valid()
        invariant Snap() == PutAll(s0, ds[..n])
        decreases p
      {
        p := p - 1;
        if buf[p] == NUL {
          assert n == |ds|;
          assert ds[..n] == ds;
          return;
        }
        var _ := Putchar(SChar(buf[p]));
        assert ds[n] == buf[p];
        assert ds[..n + 1][..n] == ds[..n];
        n := n + 1;
      }
    }

    /**
     * The two loops print_num_signed and print_num_unsigned share: collect
     * the digits of v behind a NUL, least significant first, then put them
     * from the last one back to the NUL.
     */
    method PrintDigits(v: nat, base: int)
      requires Valid() && 2 <= base <= 16
      modifies this, buffer
      ensures Valid() && Snap() == PutAll(old(Snap()), Digits(v, base))
    {
      var buf := CollectDigits(v, base);
      DigitsReversedIsReverse(v, base);
      DigitsReversedNoNul(v, base);
      assert buf[1..] == DigitsReversed(v, base);
      EmitReversed(buf);
    }

    /** print_num_unsigned: the base-`base` digits of a 32-bit value, most significant first. */
    method PrintNumUnsigned(val: int, base: int)
      requires Valid() && 0 <= val < U32_LIMIT && 2 <= base <= 16
      modifies this, buffer
      ensures Valid() && Snap() == PutAll(old(Snap()), Digits(val, base))
    {
      PrintDigits(val, base);
    }

    /**
     * print_num_signed: '-' and then the digits of the magnitude for a
     * negative value.  The magnitude is taken without wrapping, so INT_MIN
     * prints as -2147483648.
     */
    method PrintNumSigned(val: int, base: int)
      requires Valid() && INT_MIN <= val <= INT_MAX && 2 <= base <= 16
      modifies this, buffer
      ensures Valid() && Snap() == PutAll(old(Snap()), SignedDigits(val, base))
    {
      ghost var s0 := Snap();
      ghost var sign: seq<u8> := [];
      var v := val;
      if v < 0 {
        var _ := Putchar(SChar(MINUS));
        sign := [MINUS];
        assert sign[..0] == [];
        v := -v;
      } else {
        assert sign + Digits(v, base) == Digits(v, base);
      }
      assert Snap() == PutAll(s0, sign);
      assert SignedDigits(val, base) == sign + Digits(v, base);
      PrintDigits(v, base);
      PutAllAppend(s0, sign, Digits(v, base));
    }
  }

  /** The reverse of a sequence. */
  function Reverse(s: seq<u8>): (r: seq<u8>)
    ensures |r| == |s|
  {
    seq(|s|, i requires 0 <= i < |s| => s[|s| - 1 - i])
  }

  /** Reversing [x] + s puts x last. */
  lemma ReverseCons(x: u8, s: seq<u8>)
    ensures Reverse([x] + s) == Reverse(s) + [x]
  {
    assert forall i :: 0 <= i < |s| ==> Reverse([x] + s)[i] == Reverse(s)[i];
  }

  /**
   * The do-while loop of print_num: a NUL, then the digits of val, least
   * significant first.
   */
  method CollectDigits(val: nat, base: int) returns (buf: seq<u8>)
    requires 2 <= base <= 16
    ensures buf == [NUL] + DigitsReversed(val, base)
  {
    var rev: seq<u8> := [];
    var v: nat := val;
    var more := true;
    while more
      invariant DigitsReversed(val, base) == rev + (if more then DigitsReversed(v, base) else [])
      decreases v + (if more then 1 else 0)
    {
      DivStep(v, base);
      var d := NumChar(v % base);
      ghost var tail := if v / base == 0 then [] else DigitsReversed(v / base, base);
      assert DigitsReversed(v, base) == [d] + tail;
      assert rev + ([d] + tail) == (rev + [d]) + tail;
      rev := rev + [d];
      v := v / base;
      more := v != 0;
    }
    buf := [NUL] + rev;
  }

  /** The digits of v, least significant first, as the do-while loop produces them. */
  function DigitsReversed(v: nat, base: int): (ds: seq<u8>)
    requires 2 <= base <= 16
    ensures |ds| >= 1
    decreases v
  {
    DivStep(v, base);
    [NumChar(v % base)] + if v / base == 0 then [] else DigitsReversed(v / base, base)
  }

  /** No digit is a NUL, so the NUL in front of them ends the printing loop. */
  lemma {:induction false} DigitsReversedNoNul(v: nat, base: int)
    requires 2 <= base <= 16
    ensures forall k :: 0 <= k < |DigitsReversed(v, base)| ==> DigitsReversed(v, base)[k] != NUL
    decreases v
  {
    DivStep(v, base);
    if v / base != 0 {
      DigitsReversedNoNul(v / base, base);
    }
  }

  /** The digits come out of the loop in reverse order. */
  lemma {:induction false} DigitsReversedIsReverse(v: nat, base: int)
    requires 2 <= base <= 16
    ensures Reverse(DigitsReversed(v, base)) == Digits(v, base)
    decreases v
  {
    var d := NumChar(v % base);
    DivFacts(v, base);
    if v / base == 0 {
      assert DigitsReversed(v, base) == [d];
    } else {
      DigitsReversedIsReverse(v / base, base);
      ReverseCons(d, DigitsReversed(v / base, base));
    }
  }

  /** Putting a concatenation is putting one part after the other. */
  lemma {:induction false} PutAllAppend(s: Term, xs: seq<u8>, ys: seq<u8>)
    requires OnScreen(s)
    ensures PutAll(s, xs + ys) == PutAll(PutAll(s, xs), ys)
    decreases |ys|
  {
    if |ys| > 0 {
      var ys' := ys[..|ys| - 1];
      assert (xs + ys)[..|xs + ys| - 1] == xs + ys';
      PutAllAppend(s, xs, ys');
    } else {
      assert xs + ys == xs;
    }
  }
}
