/** The unbounded page: how a text falls into rows of 80 columns, and the 25-row window on it. */
module Layout {
  import opened Machine

  const WIDTH := 80
  const HEIGHT := 25
  const NEWLINE: Byte := 10

  type Row = seq<Byte>

  /** The text cut at its newlines: one line more than there are newlines. */
  function Lines(text: seq<Byte>): (ls: seq<Row>)
    ensures ls != []
  {
    if text == [] then [[]] else
      var ls, c := Lines(text[..|text| - 1]), text[|text| - 1];
      if c == NEWLINE then ls + [[]] else ls[..|ls| - 1] + [ls[|ls| - 1] + [c]]
  }

  /** A line cut into full rows and a last row that is not full, possibly empty. */
  function Chunks(line: Row): (rs: seq<Row>)
    ensures rs != []
  {
    if |line| < WIDTH then [line] else [line[..WIDTH]] + Chunks(line[WIDTH..])
  }

  function Flatten(ls: seq<Row>): (rs: seq<Row>) {
    if ls == [] then [] else Flatten(ls[..|ls| - 1]) + Chunks(ls[|ls| - 1])
  }

  /** The page: every line of the text, wrapped. */
  function Page(text: seq<Byte>): (rs: seq<Row>) {
    Flatten(Lines(text))
  }

  // ------------------------------------------------------------------ the page grows at its end

  /** The effect of one more character on the rows so far. */
  function Put(rs: seq<Row>, c: Byte): (r: seq<Row>)
    requires rs != []
  {
    var last := rs[|rs| - 1];
    if c == NEWLINE then rs + [[]]
    else if |last| + 1 < WIDTH then rs[..|rs| - 1] + [last + [c]]
    else rs[..|rs| - 1] + [last + [c], []]
  }

  lemma {:induction false} ChunksGrow(line: Row, c: Byte)
    requires c != NEWLINE
    ensures Chunks(line + [c]) == Put(Chunks(line), c)
    decreases |line|
  {
    if |line| < WIDTH {
      if |line| + 1 == WIDTH {
        var l := line + [c];
        assert l[..WIDTH] == l && l[WIDTH..] == [];
      }
    } else {
      var l := line + [c];
      assert l[..WIDTH] == line[..WIDTH] && l[WIDTH..] == line[WIDTH..] + [c];
      ChunksGrow(line[WIDTH..], c);
      PutConcat([line[..WIDTH]], Chunks(line[WIDTH..]), c);
    }
  }

  lemma PutConcat(a: seq<Row>, b: seq<Row>, c: Byte)
    requires b != []
    ensures Put(a + b, c) == a + Put(b, c)
  {
  }

  /** Printing one more character extends the page by `Put`. */
  lemma PageGrows(text: seq<Byte>, c: Byte)
    ensures Page(text) != []
    ensures Page(text + [c]) == Put(Page(text), c)
  {
    var t := text + [c];
    var ls := Lines(text);
    assert t[..|t| - 1] == text;
    var front, last := ls[..|ls| - 1], ls[|ls| - 1];
    if c == NEWLINE {
      assert Lines(t) == ls + [[]] && (ls + [[]])[..|ls|] == ls;
    } else {
      var m := front + [last + [c]];
      assert Lines(t) == m && m[..|m| - 1] == front;
      ChunksGrow(last, c);
      PutConcat(Flatten(front), Chunks(last), c);
    }
  }

  /** No row is over-full, and the last one always has room. */
  ghost predicate Fitting(rs: seq<Row>) {
    rs != [] && (forall i :: 0 <= i < |rs| ==> |rs[i]| <= WIDTH) && |rs[|rs| - 1]| < WIDTH
  }

  lemma {:induction false} PageFits(text: seq<Byte>)
    ensures Fitting(Page(text))
  {
    if text == [] {
      var ls := Lines(text);
      assert ls[..0] == [];
      assert Flatten(ls) == Flatten(ls[..0]) + Chunks(ls[0]);
    } else {
      var front, c := text[..|text| - 1], text[|text| - 1];
      assert text == front + [c];
      PageFits(front);
      PageGrows(front, c);
    }
  }

  // ------------------------------------------------------------------ the page in closed form

  lemma EmptyPage()
    ensures Page([]) == [[]]
  {
  }

  /** A newline (character 10) separates two pages, one below the other. */
  lemma {:induction false} PageConcat(a: seq<Byte>, b: seq<Byte>)
    ensures Page(a + [10] + b) == Page(a) + Page(b)
    decreases |b|
  {
    hide Page;
    EmptyPage();
    if b == [] {
      assert a + [10] + b == a + [10];
      PageGrows(a, 10);
    } else {
      var front, c := b[..|b| - 1], b[|b| - 1];
      assert b == front + [c] && a + [10] + b == (a + [10] + front) + [c];
      PageConcat(a, front);
      PageGrows(a + [10] + front, c);
      PageGrows(front, c);
      PutConcat(Page(a), Page(front), c);
    }
  }

  /** Without newlines, character `k` stands in row `k / 80`, column `k % 80`; every row but the last is full. */
  lemma {:induction false} PageOfLine(text: seq<Byte>)
    requires 10 !in text
    ensures var rs, n := Page(text), |text|;
      && |rs| == n / 80 + 1
      && (forall r :: 0 <= r < |rs| ==> |rs[r]| == if r < n / 80 then 80 else n % 80)
      && forall k :: 0 <= k < n ==> rs[k / 80][k % 80] == text[k]
  {
    hide Page;
    EmptyPage();
    if text != [] {
      var front, c := text[..|text| - 1], text[|text| - 1];
      assert text == front + [c];
      PageOfLine(front);
      PageGrows(front, c);
    }
  }

  // ------------------------------------------------------------------ the window

  /** First page row on the screen. */
  function Top(rs: seq<Row>): (n: nat) {
    if |rs| <= HEIGHT then 0 else |rs| - HEIGHT
  }

  /** The cell of a printed character: white attribute, except that `char` is signed, so that bytes from
      0x80 up sign-extend and set every attribute bit. */
  function Glyph(c: Byte): (v: int) {
    if c < 0x80 then 0x0F00 + c else 0xFF00 + c
  }

  /** A cell nothing was printed in: black while the page fits one screen, light grey below. */
  function Blank(row: nat): (v: int) {
    if row < HEIGHT then 0x0020 else 0x0720
  }

  /** Cell `x` of page row `row`. */
  function Cell(rs: seq<Row>, row: nat, x: nat): (v: int) {
    if row < |rs| && x < |rs[row]| then Glyph(rs[row][x]) else Blank(row)
  }

  /** The 2000 cells are the last 25 rows of the page, and `cy` is the screen row of its last row. */
  ghost predicate Paints(cells: seq<int>, cy: int, rs: seq<Row>) {
    && rs != [] && (forall i :: 0 <= i < |rs| ==> |rs[i]| <= WIDTH) && |cells| == WIDTH * HEIGHT
    && cy == |rs| - 1 - Top(rs)
    && forall y, x :: 0 <= y < HEIGHT && 0 <= x < WIDTH ==> At(cells, y, x) == Cell(rs, Top(rs) + y, x)
  }

  /** The screen shows the end of the page and the cursor stands behind its last character. */
  ghost predicate Shows(cells: seq<int>, cx: int, cy: int, rs: seq<Row>) {
    Paints(cells, cy, rs) && Fitting(rs) && cx == |rs[|rs| - 1]|
  }

  function At(cells: seq<int>, y: int, x: int): (v: int)
    requires |cells| == WIDTH * HEIGHT && 0 <= y < HEIGHT && 0 <= x < WIDTH
  {
    cells[y * WIDTH + x]
  }

  /** The screen moved up one row, with a fresh bottom row. */
  function Scrolled(cells: seq<int>): (r: seq<int>)
    requires |cells| == WIDTH * HEIGHT
    ensures |r| == WIDTH * HEIGHT
  {
    cells[WIDTH..] + seq(WIDTH, _ => 0x0720)
  }

  // ------------------------------------------------------------------ screen steps follow page steps

  lemma WritePaints(cells: seq<int>, cx: int, cy: int, rs: seq<Row>, c: Byte)
    requires Shows(cells, cx, cy, rs)
    ensures 0 <= cx < WIDTH && 0 <= cy < HEIGHT
    ensures Paints(cells[cy * WIDTH + cx := Glyph(c)], cy, rs[..|rs| - 1] + [rs[|rs| - 1] + [c]])
  {
    var r := rs[..|rs| - 1] + [rs[|rs| - 1] + [c]];
    var cs := cells[cy * WIDTH + cx := Glyph(c)];
    forall y, x | 0 <= y < HEIGHT && 0 <= x < WIDTH ensures At(cs, y, x) == Cell(r, Top(r) + y, x) {
      assert At(cells, y, x) == Cell(rs, Top(rs) + y, x);
      if y == cy && x == cx {
        assert At(cs, y, x) == Glyph(c);
      } else {
        assert At(cs, y, x) == At(cells, y, x);
      }
    }
  }

  /** A line feed that needs no scroll. */
  lemma AdvanceShows(cells: seq<int>, cy: int, rs: seq<Row>)
    requires Paints(cells, cy, rs) && cy + 1 < HEIGHT
    ensures Shows(cells, 0, cy + 1, rs + [[]])
  {
  }

  /** A line feed on the bottom row. */
  lemma ScrollShows(cells: seq<int>, cy: int, rs: seq<Row>)
    requires Paints(cells, cy, rs) && cy + 1 == HEIGHT
    ensures Shows(Scrolled(cells), 0, HEIGHT - 1, rs + [[]])
  {
    var r, cs := rs + [[]], Scrolled(cells);
    forall y, x | 0 <= y < HEIGHT && 0 <= x < WIDTH ensures At(cs, y, x) == Cell(r, Top(r) + y, x) {
      if y + 1 < HEIGHT {
        assert At(cs, y, x) == At(cells, y + 1, x) == Cell(rs, Top(rs) + y + 1, x);
      }
    }
  }

  // ------------------------------------------------------------------ the screen determines what it shows

  /** The screen in numbers. Row `y` shows page row `y`, or as many rows further down as the page is longer than
      25; a printed cell holds the character in its low byte and the attribute, 0x0F or 0xFF for bytes from 0x80
      up, in its high byte; where nothing was printed there is a space, black in the first 25 rows of the page
      and light grey below. */
  lemma ScreenCells(cells: seq<int>, cx: int, cy: int, rs: seq<Row>, y: int, x: int)
    requires Shows(cells, cx, cy, rs) && 0 <= y < 25 && 0 <= x < 80
    ensures |cells| == 2000
    ensures var v, row := cells[80 * y + x], y + if |rs| <= 25 then 0 else |rs| - 25;
      if row < |rs| && x < |rs[row]| then
        v % 0x100 == rs[row][x] && v / 0x100 == if rs[row][x] < 0x80 then 0x0F else 0xFF
      else
        v == if row < 25 then 0x0020 else 0x0720
    ensures cx == |rs[|rs| - 1]| && cy == if |rs| <= 25 then |rs| - 1 else 24
  {
    assert At(cells, y, x) == Cell(rs, Top(rs) + y, x);
  }

  /** A printed cell shows its character and is never mistaken for a blank one. */
  lemma GlyphInjective(c: Byte, d: Byte, row: nat)
    ensures Glyph(c) == Glyph(d) ==> c == d
    ensures Glyph(c) != Blank(row)
  {
  }

  /** The visible rows can be read off the screen: equal cells and cursor row mean equal rows. */
  lemma RowsReadBack(cells: seq<int>, cy: int, rs: seq<Row>, ps: seq<Row>, y: int)
    requires Paints(cells, cy, rs) && Paints(cells, cy, ps) && 0 <= y <= cy
    ensures rs[Top(rs) + y] == ps[Top(ps) + y]
  {
    var r, p := rs[Top(rs) + y], ps[Top(ps) + y];
    assert |r| <= WIDTH && |p| <= WIDTH;
    RowNoLonger(cells, cy, rs, ps, y);
    RowNoLonger(cells, cy, ps, rs, y);
    forall x | 0 <= x < |r| ensures r[x] == p[x] {
      assert At(cells, y, x) == Cell(rs, Top(rs) + y, x) == Cell(ps, Top(ps) + y, x);
      GlyphInjective(r[x], p[x], 0);
    }
  }

  lemma RowNoLonger(cells: seq<int>, cy: int, rs: seq<Row>, ps: seq<Row>, y: int)
    requires Paints(cells, cy, rs) && Paints(cells, cy, ps) && 0 <= y <= cy
    ensures |rs[Top(rs) + y]| <= |ps[Top(ps) + y]|
  {
    var r, x := rs[Top(rs) + y], |ps[Top(ps) + y]|;
    if x < |r| {
      assert x < WIDTH;
      assert At(cells, y, x) == Cell(rs, Top(rs) + y, x) == Cell(ps, Top(ps) + y, x);
      GlyphInjective(r[x], r[x], Top(ps) + y);
    }
  }
}
