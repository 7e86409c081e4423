/** The VGA text console of kernel/kernel.c, and the number printers on top of it. */
module ConsoleScreen {
  import opened Machine
  import opened Layout
  import opened Numerals

  class Console {
    const vga: array<int>
    var cursorX: int
    var cursorY: int

    /** Everything printed since the screen was last cleared. */
    ghost var text: seq<Byte>

    /** The screen is the window on the page laid out from `text`, cursor at its end. */
    ghost predicate Valid()
      reads this, vga
    {
      vga.Length == WIDTH * HEIGHT && Shows(vga[..], cursorX, cursorY, Page(text))
    }

    constructor (buffer: array<int>)
      requires buffer.Length == WIDTH * HEIGHT
      ensures vga == buffer && cursorX == 0 && cursorY == 0
    {
      vga := buffer;
      cursorX, cursorY := 0, 0;
      text := [];
    }

    /** `clear_screen`. */
    method ClearScreen()
      requires vga.Length == WIDTH * HEIGHT
      modifies this, vga
      ensures Valid() && text == []
    {
      for i := 0 to WIDTH * HEIGHT
        invariant forall k :: 0 <= k < i ==> vga[k] == 0x0020
      {
        vga[i] := 0x0020;
      }
      cursorX, cursorY := 0, 0;
      text := [];
      PageFits([]);
      EmptyPage();
      forall y, x | 0 <= y < HEIGHT && 0 <= x < WIDTH ensures At(vga[..], y, x) == Cell([[]], y, x) {
        assert y * WIDTH + x < WIDTH * HEIGHT;
      }
    }

    /** One pass of the inner copy loop: row `row` onto the row above it. */
    method CopyRowUp(row: int)
      requires vga.Length == WIDTH * HEIGHT && 1 <= row < HEIGHT
      modifies vga
      ensures forall k :: (row - 1) * WIDTH <= k < row * WIDTH ==> vga[k] == old(vga[k + WIDTH])
      ensures forall k :: 0 <= k < vga.Length && !((row - 1) * WIDTH <= k < row * WIDTH) ==> vga[k] == old(vga[k])
    {
      ghost var lo := (row - 1) * WIDTH;
      for col := 0 to WIDTH
        invariant forall k :: lo <= k < lo + col ==> vga[k] == old(vga[k + WIDTH])
        invariant forall k :: 0 <= k < vga.Length && !(lo <= k < lo + col) ==> vga[k] == old(vga[k])
      {
        vga[(row - 1) * WIDTH + col] := vga[row * WIDTH + col];
      }
    }

    /** `scroll_screen`: rows are copied up in place, one cell at a time. */
    method ScrollScreen()
      requires vga.Length == WIDTH * HEIGHT
      modifies this`cursorX, this`cursorY, vga
      ensures vga[..] == Scrolled(old(vga[..])) && cursorX == 0 && cursorY == HEIGHT - 1
    {
      for row := 1 to HEIGHT
        invariant forall k :: 0 <= k < (row - 1) * WIDTH ==> vga[k] == old(vga[k + WIDTH])
        invariant forall k :: (row - 1) * WIDTH <= k < vga.Length ==> vga[k] == old(vga[k])
      {
        CopyRowUp(row);
      }
      BlankLastRow();
      cursorY, cursorX := HEIGHT - 1, 0;
    }

    /** The second loop: the bottom row in light grey blanks. */
    method BlankLastRow()
      requires vga.Length == WIDTH * HEIGHT
      modifies vga
      ensures forall k :: 0 <= k < (HEIGHT - 1) * WIDTH ==> vga[k] == old(vga[k])
      ensures forall k :: (HEIGHT - 1) * WIDTH <= k < HEIGHT * WIDTH ==> vga[k] == 0x0720
    {
      for col := 0 to WIDTH
        invariant forall k :: 0 <= k < (HEIGHT - 1) * WIDTH ==> vga[k] == old(vga[k])
        invariant forall k :: (HEIGHT - 1) * WIDTH <= k < (HEIGHT - 1) * WIDTH + col ==> vga[k] == 0x0720
      {
        vga[(HEIGHT - 1) * WIDTH + col] := 0x0720;
      }
    }

    /** The line feed shared by newline and wrap. */
    method LineFeed(ghost rs: seq<Row>)
      requires Paints(vga[..], cursorY, rs)
      modifies this`cursorX, this`cursorY, vga
      ensures Shows(vga[..], cursorX, cursorY, rs + [[]])
    {
      ghost var cells, cy := vga[..], cursorY;
      cursorX := 0;
      cursorY := cursorY + 1;
      if cursorY >= HEIGHT {
        cursorY := HEIGHT - 1;
        ScrollScreen();
        ScrollShows(cells, cy, rs);
      } else {
        AdvanceShows(cells, cy, rs);
      }
    }

    /** `print_char`. */
    method PrintChar(c: Byte)
      requires Valid()
      modifies this, vga
      ensures Valid() && text == old(text) + [c]
    {
      hide Paints, Page, Glyph;
      ghost var rs := Page(text);
      PageGrows(text, c);
      if c == NEWLINE {
        LineFeed(rs);
      } else {
        ghost var last := rs[|rs| - 1];
        ghost var written := rs[..|rs| - 1] + [last + [c]];
        WritePaints(vga[..], cursorX, cursorY, rs, c);
        vga[cursorY * WIDTH + cursorX] := Glyph(c);
        cursorX := cursorX + 1;
        if cursorX >= WIDTH {
          LineFeed(written);
          assert written + [[]] == Put(rs, c);
        }
      }
      text := text + [c];
    }

    /** `print_string` of NUL-terminated memory. */
    method PrintString(str: seq<Byte>)
      requires Valid() && 0 in str
      modifies this, vga
      ensures Valid() && text == old(text) + CString(str)
    {
      hide Shows, Page;
      var i := 0;
      assert str[0..] == str;
      while str[i] != 0
        invariant 0 <= i < |str| && Valid() && 0 in str[i..]
        invariant text + CString(str[i..]) == old(text) + CString(str)
        decreases |str| - i
      {
        assert str[i..][1..] == str[i + 1..];
        PrintChar(str[i]);
        i := i + 1;
      }
    }

    /** `print_number`: digits go least significant first into a 12-byte buffer, then out in reverse. */
    method PrintNumber(num: Word)
      requires Valid()
      modifies this, vga
      ensures Valid() && text == old(text) + Decimal(num)
    {
      hide Shows, Page, Decimal;
      if num == 0 {
        DecimalRoundTrip(0);
        PrintChar(ZERO);
        return;
      }
      var buffer, i := DecimalDigits(num);
      ghost var digits := buffer[..i];
      var j := i - 1;
      while j >= 0
        invariant -1 <= j < i && Valid() && buffer[..i] == digits
        invariant text == old(text) + Decimal(num)[..i - 1 - j]
      {
        ReversedAt(digits, j);
        assert Decimal(num)[..i - j] == Decimal(num)[..i - 1 - j] + [buffer[j]];
        PrintChar(buffer[j]);
        j := j - 1;
      }
      assert Decimal(num)[..i] == Decimal(num);
    }

    /** `print_hex`: `0x` and eight digits. */
    method PrintHex(value: Word)
      requires Valid()
      modifies this, vga
      ensures Valid() && text == old(text) + [48, 120] + Hex(value, 8)
    {
      hide Shows, Page, CString, Hex;
      var buffer := HexDigits(value);
      PrintString([ZERO, 120, 0]);
      CStringIs([ZERO, 120]);
      assert [ZERO, 120] + [0] == [ZERO, 120, 0];
      CStringIs(Hex(value, 8));
      PrintString(buffer[..]);
    }
  }

  /** The digit loop of `print_number`. */
  method DecimalDigits(num: Word) returns (buffer: array<Byte>, i: int)
    requires num > 0
    ensures fresh(buffer) && buffer.Length == 12 && 0 < i <= 10
    ensures Decimal(num) == Reversed(buffer[..i])
  {
    hide Pow10, Decimal, Reversed;
    buffer := new Byte[12];
    i := 0;
    assert buffer[..0] == [];
    ReversedEmpty();
    var n: nat := num;
    ghost var k: nat := 10;
    ghost var rest := Decimal(num);
    WordLength(num);
    while n > 0
      invariant i + k == 10 && 0 <= i && n < Pow10(k) && (i == 0 ==> n > 0)
      invariant n > 0 ==> rest == Decimal(n)
      invariant n == 0 ==> rest == []
      invariant Decimal(num) == rest + Reversed(buffer[..i])
    {
      ghost var before := buffer[..i];
      DigitStep(n, k);
      var digit: Byte := ZERO + n % 10;
      n := n / 10;
      rest := if n == 0 then [] else Decimal(n);
      buffer[i] := digit;
      i, k := i + 1, k - 1;
      assert buffer[..i] == before + [digit];
      ReversedAppend(before, digit);
    }
  }

  /** The digit loop of `print_hex`, from the right. */
  method HexDigits(value: Word) returns (buffer: array<Byte>)
    ensures fresh(buffer) && buffer[..] == Hex(value, 8) + [0] && 0 !in Hex(value, 8)
  {
    buffer := new Byte[9];
    buffer[8] := 0;
    var i, v: nat := 7, value;
    while i >= 0
      invariant -1 <= i <= 7 && buffer[8] == 0
      invariant Hex(value, 8) == Hex(v, i + 1) + buffer[i + 1..8]
      invariant forall k :: i < k < 8 ==> buffer[k] != 0
    {
      buffer[i] := HexDigit(v % 16);
      assert buffer[i..8] == [HexDigit(v % 16)] + buffer[i + 1..8];
      v := v / 16;
      i := i - 1;
    }
    assert Hex(value, 8) == buffer[0..8];
  }

  function Reversed(s: seq<Byte>): (r: seq<Byte>)
    ensures |r| == |s|
  {
    if s == [] then [] else [s[|s| - 1]] + Reversed(s[..|s| - 1])
  }

  lemma ReversedEmpty()
    ensures Reversed([]) == []
  {
  }

  lemma ReversedAppend(s: seq<Byte>, c: Byte)
    ensures Reversed(s + [c]) == [c] + Reversed(s)
  {
  }

  lemma {:induction false} ReversedAt(s: seq<Byte>, k: nat)
    requires k < |s|
    ensures Reversed(s)[|s| - 1 - k] == s[k]
  {
    if k < |s| - 1 {
      ReversedAt(s[..|s| - 1], k);
    }
  }
}
