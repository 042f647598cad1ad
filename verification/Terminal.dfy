// drivers/tty/tty.cpp: cursor and text buffer of the terminal, without rendering.
module Terminal {

  // A cell holds a character and, in the high byte, its colour.
  type Cell = n: nat | n < 0x1_0000
  type Byte = n: nat | n < 0x100

  const TAB: Byte := 9
  const NEWLINE: Byte := 10
  const BACKSPACE: Byte := 8
  const BLANK: Byte := 32

  function VgaEntry(c: Byte, color: Byte): Cell { c + color * 256 }

  function Min(a: nat, b: nat): nat { if a < b then a else b }

  // ----- screens as values -----

  datatype Screen = Screen(cells: seq<Cell>, row: nat, column: nat, width: nat, height: nat) {
    // The index of the last cell that is ever touched: one past the visible ones.
    function Spill(): nat { height * width }
    ghost predicate Valid() { height >= 1 && row < height && |cells| > Spill() }
  }

  function PutEntryAt(s: Screen, c: Byte, color: Byte, x: nat, y: nat): Screen {
    if x > s.width || y > s.height || y * s.width + x >= |s.cells| then s
    else s.(cells := s.cells[y * s.width + x := VgaEntry(c, color)])
  }

  // One row up; the cells that come in at the bottom are copies of the spill cell.
  function Scrolled(cells: seq<Cell>, width: nat, spill: nat): (r: seq<Cell>)
    requires spill < |cells|
    ensures |r| == |cells|
  {
    seq(|cells|, j requires 0 <= j < |cells| => if j < spill then cells[Min(j + width, spill)] else cells[j])
  }

  function Shift(s: Screen): Screen
    requires s.Spill() < |s.cells| && s.row >= 1
  {
    s.(cells := Scrolled(s.cells, s.width, s.Spill()), row := s.row - 1)
  }

  // To the next row, scrolling when there is none.
  function NextRow(s: Screen): Screen
    requires s.Valid()
  {
    var t := s.(row := s.row + 1);
    if t.row >= t.height then Shift(t) else t
  }

  // `vga_width - 1` in 64 bits.
  function LastColumn(width: nat): nat { if width >= 1 then width - 1 else 0xffff_ffff_ffff_ffff }

  function BackOne(s: Screen): Screen {
    if s.column == 0 then
      if s.row != 0 then s.(column := LastColumn(s.width), row := s.row - 1) else s
    else s.(column := s.column - 1)
  }

  function Advance(s: Screen, c: Byte): Screen
    requires s.Valid()
  {
    var t := s.(column := s.column + 1);
    var u := if t.column >= t.width then NextRow(t.(column := 0)) else t;
    if c == NEWLINE then NextRow(u).(column := 0) else u
  }

  function PutChar(s: Screen, c: Byte, color: Byte): Screen
    requires s.Valid()
  {
    if c == 0 then s
    else if c == TAB then s.(column := (s.column / 4 + 1) * 4)
    else if c == BACKSPACE then
      var t := BackOne(s);
      PutEntryAt(t, BLANK, 0, t.column, t.row)
    else Advance(if c != NEWLINE then PutEntryAt(s, c, color, s.column, s.row) else s, c)
  }

  // Characters that neither jump nor go back.
  predicate Plain(c: Byte) { c != 0 && c != TAB && c != BACKSPACE }

  // ----- what every character keeps -----

  lemma RowEnd(y: nat, height: nat, width: nat)
    requires y < height
    ensures y * width + width <= height * width
  {
    var d := height - y - 1;
    assert height * width == (y + 1 + d) * width == y * width + width + d * width;
  }

  lemma EntryInReach(s: Screen, x: nat, y: nat)
    requires s.Valid() && y < s.height && x <= s.width
    ensures y * s.width + x <= s.Spill() < |s.cells|
  {
    RowEnd(y, s.height, s.width);
  }

  // The row is on the screen, and no cell beyond the spill cell has changed.
  ghost predicate Keeps(s: Screen, r: Screen) {
    && r.Valid() && |r.cells| == |s.cells| && r.width == s.width && r.height == s.height
    && forall j :: s.Spill() < j < |s.cells| ==> r.cells[j] == s.cells[j]
  }

  lemma PutEntryKeeps(s: Screen, c: Byte, color: Byte, x: nat)
    requires s.Valid()
    ensures Keeps(s, PutEntryAt(s, c, color, x, s.row))
  {
    if x <= s.width {
      EntryInReach(s, x, s.row);
    }
  }

  lemma AdvanceKeeps(s: Screen, r: Screen, c: Byte)
    requires Keeps(s, r)
    ensures Keeps(s, Advance(r, c))
  {
  }

  // From any state with the row on the screen, whatever the column, a character leaves the row on the
  // screen and touches no cell beyond the spill cell.
  lemma PutCharKeepsScreen(s: Screen, c: Byte, color: Byte)
    requires s.Valid()
    ensures Keeps(s, PutChar(s, c, color))
  {
    hide Advance, PutEntryAt;
    var t := BackOne(s);
    PutEntryKeeps(t, BLANK, 0, t.column);
    PutEntryKeeps(s, c, color, s.column);
    AdvanceKeeps(s, s, c);
    AdvanceKeeps(s, PutEntryAt(s, c, color, s.column, s.row), c);
  }

  // A tab moves the cursor to the next multiple of four, also past the end of the row.
  lemma TabStops(s: Screen, color: Byte)
    requires s.Valid()
    ensures var r := PutChar(s, 9, color);
      && r == s.(column := r.column) && r.column % 4 == 0 && s.column < r.column <= s.column + 4
  {
  }

  // A backspace after a character that did not scroll puts the cursor back and blanks that cell.
  lemma BackspaceUndoes(s: Screen, c: Byte, color: Byte, color2: Byte)
    requires s.Valid() && s.width >= 1 && s.column < s.width && Plain(c) && c != NEWLINE
    requires s.column + 1 < s.width || s.row + 1 < s.height
    ensures PutChar(s, c, color).Valid() && s.row * s.width + s.column < s.Spill()
    ensures PutChar(PutChar(s, c, color), BACKSPACE, color2)
         == s.(cells := s.cells[s.row * s.width + s.column := VgaEntry(BLANK, 0)])
  {
    RowEnd(s.row, s.height, s.width);
    PutCharKeepsScreen(s, c, color);
    var k := s.row * s.width + s.column;
    assert s.cells[k := VgaEntry(c, color)][k := VgaEntry(BLANK, 0)] == s.cells[k := VgaEntry(BLANK, 0)];
  }

  // A cell holds the character in its low and the colour in its high byte.
  lemma CellHoldsBoth(c: Byte, color: Byte)
    ensures VgaEntry(c, color) % 0x100 == c && VgaEntry(c, color) / 0x100 == color
  {
  }

  // What a printed character does to the cells: it is written at the cursor as long as the column is at most the width,
  // the cell behind the row included, and a row that does not fit any more moves everything up by one.
  lemma PutCharCells(s: Screen, c: Byte, color: Byte, j: nat)
    requires s.Valid() && c != 0 && c != 8 && c != 9 && c != 10 && j < |s.cells|
    ensures var r := PutChar(s, c, color);
      var scrolls := s.column + 1 >= s.width && s.row + 1 >= s.height;
      var from := if scrolls && j < s.height * s.width then Min(j + s.width, s.height * s.width) else j;
      && |r.cells| == |s.cells| && from < |s.cells|
      && r.cells[j] == if s.column <= s.width && from == s.row * s.width + s.column then c + 256 * color
                       else s.cells[from]
  {
    if s.column <= s.width {
      EntryInReach(s, s.column, s.row);
    }
  }

  // And to the cursor: one to the right, or to the start of the next row, on the last row when it scrolls.
  lemma PutCharMoves(s: Screen, c: Byte, color: Byte)
    requires s.Valid() && c != 0 && c != 8 && c != 9 && c != 10
    ensures var r := PutChar(s, c, color);
      if s.column + 1 < s.width then r.column == s.column + 1 && r.row == s.row
      else r.column == 0 && r.row == if s.row + 1 < s.height then s.row + 1 else s.height - 1
  {
  }

  // A line feed writes nothing and goes to the start of the next row, in the last column to the start of the one after
  // it; a NUL does nothing.
  lemma ControlCharacters(s: Screen, color: Byte)
    requires s.Valid()
    ensures PutChar(s, 0, color) == s
    ensures var r, down := PutChar(s, 10, color), if s.column + 1 >= s.width then 2 else 1;
      && r.column == 0 && r.row == (if s.row + down < s.height then s.row + down else s.height - 1)
      && (s.row + down < s.height ==> r.cells == s.cells)
  {
  }

  // A backspace goes one to the left, from the first column to the end of the row above if there is one, and blanks the
  // cell there.
  lemma BackspaceMoves(s: Screen, color: Byte)
    requires s.Valid() && s.width >= 1 && s.column < s.width
    ensures var r := PutChar(s, 8, color);
      && (s.column > 0 ==> r.column == s.column - 1 && r.row == s.row)
      && (s.column == 0 && s.row > 0 ==> r.column == s.width - 1 && r.row == s.row - 1)
      && (s.column == 0 && s.row == 0 ==> r.column == 0 && r.row == 0)
      && r.row * s.width + r.column < |s.cells| && r.cells == s.cells[r.row * s.width + r.column := 32]
  {
    RowEnd(s.row, s.height, s.width);
    var t := BackOne(s);
    RowEnd(t.row, s.height, s.width);
  }

  // On a terminal without columns a backspace at the start of a row goes to column 2^64 - 1 and writes nothing.
  lemma BackspaceWithoutColumns(s: Screen, color: Byte)
    requires s.Valid() && s.width == 0 && s.column == 0 && s.row > 0
    ensures PutChar(s, 8, color) == s.(row := s.row - 1, column := 0xffff_ffff_ffff_ffff)
  {
  }

  ghost function PutAll(s: Screen, text: seq<(Byte, Byte)>): (r: Screen)
    requires s.Valid()
    ensures Keeps(s, r)
    decreases |text|
  {
    if text == [] then s
    else
      PutCharKeepsScreen(s, text[0].0, text[0].1);
      PutAll(PutChar(s, text[0].0, text[0].1), text[1..])
  }

  // ----- plain text: the screen is a window on unbounded paper -----

  // Paper has the same width and never scrolls. Cells nobody wrote to show `fill`.
  datatype Paper = Paper(ink: map<nat, Cell>, fill: Cell, row: nat, column: nat)

  function PaperAt(p: Paper, j: nat): Cell { if j in p.ink then p.ink[j] else p.fill }

  function PaperAdvance(p: Paper, width: nat, c: Byte): Paper {
    var t := if p.column + 1 >= width then p.(row := p.row + 1, column := 0) else p.(column := p.column + 1);
    if c == NEWLINE then t.(row := t.row + 1, column := 0) else t
  }

  function PaperWrite(p: Paper, width: nat, c: Byte, color: Byte): Paper {
    p.(ink := p.ink[p.row * width + p.column := VgaEntry(c, color)])
  }

  function PaperPut(p: Paper, width: nat, c: Byte, color: Byte): Paper {
    PaperAdvance(if c != NEWLINE then PaperWrite(p, width, c, color) else p, width, c)
  }

  // The screen shows the paper's rows from `top` on, and nothing is written below them.
  ghost predicate Shows(s: Screen, p: Paper, top: nat) {
    && s.Valid() && s.width >= 1 && s.column < s.width
    && p.row == top + s.row && p.column == s.column
    && (forall j: nat :: j < s.Spill() ==> s.cells[j] == PaperAt(p, top * s.width + j))
    && s.cells[s.Spill()] == p.fill
    && (forall j: nat :: j in p.ink ==> j < top * s.width + s.Spill())
  }

  // Any screen with the cursor inside the row is a window on the paper that has its cells as ink.
  function PaperOf(s: Screen): Paper
    requires s.Valid()
  {
    Paper(map j: nat | j < s.Spill() :: s.cells[j], s.cells[s.Spill()], s.row, s.column)
  }

  lemma StartsAsAWindow(s: Screen)
    requires s.Valid() && s.width >= 1 && s.column < s.width
    ensures Shows(s, PaperOf(s), 0)
  {
  }

  lemma WriteShows(s: Screen, p: Paper, top: nat, c: Byte, color: Byte)
    requires Shows(s, p, top)
    ensures Shows(PutEntryAt(s, c, color, s.column, s.row), PaperWrite(p, s.width, c, color), top)
  {
    RowEnd(s.row, s.height, s.width);
    assert p.row * s.width == top * s.width + s.row * s.width;
  }

  lemma NextRowShows(s: Screen, p: Paper, top: nat) returns (t: nat)
    requires Shows(s, p, top)
    ensures t >= top && Shows(NextRow(s), p.(row := p.row + 1), t)
  {
    var r, q := NextRow(s), p.(row := p.row + 1);
    if s.row + 1 < s.height {
      t := top;
    } else {
      t := top + 1;
      assert t * s.width == top * s.width + s.width;
      forall j: nat | j < s.Spill()
        ensures r.cells[j] == PaperAt(q, t * s.width + j)
      {
        assert r.cells[j] == s.cells[Min(j + s.width, s.Spill())];
      }
    }
  }

  lemma ColumnShows(s: Screen, p: Paper, top: nat, column: nat)
    requires Shows(s, p, top) && column < s.width
    ensures Shows(s.(column := column), p.(column := column), top)
  {
  }

  lemma AdvanceShows(s: Screen, p: Paper, top: nat, c: Byte) returns (t: nat)
    requires Shows(s, p, top)
    ensures t >= top && Shows(Advance(s, c), PaperAdvance(p, s.width, c), t)
  {
    hide Shows;
    ShowsFacts(s, p, top);
    var s1, p1 := s.(column := s.column + 1), p.(column := p.column + 1);
    t := top;
    if s.column + 1 >= s.width {
      ColumnShows(s, p, top, 0);
      t := NextRowShows(s.(column := 0), p.(column := 0), top);
      s1, p1 := NextRow(s.(column := 0)), p.(column := 0, row := p.row + 1);
    } else {
      ColumnShows(s, p, top, s.column + 1);
    }
    if c == NEWLINE {
      t := NextRowShows(s1, p1, t);
      ColumnShows(NextRow(s1), p1.(row := p1.row + 1), t, 0);
    }
  }

  lemma ShowsFacts(s: Screen, p: Paper, top: nat)
    requires Shows(s, p, top)
    ensures s.Valid() && s.width >= 1 && s.column < s.width && p.column == s.column
  {
  }

  // Each plain character moves the window down, or leaves it, and otherwise does on the screen what it
  // does on paper: text that was printed only moves up.
  lemma PutCharShows(s: Screen, p: Paper, top: nat, c: Byte, color: Byte) returns (t: nat)
    requires Shows(s, p, top) && Plain(c)
    ensures t >= top && s.Valid() && s.width >= 1 && Shows(PutChar(s, c, color), PaperPut(p, s.width, c, color), t)
  {
    if c != NEWLINE {
      WriteShows(s, p, top, c, color);
      t := AdvanceShows(PutEntryAt(s, c, color, s.column, s.row), PaperWrite(p, s.width, c, color), top, c);
    } else {
      t := AdvanceShows(s, p, top, c);
    }
  }

  ghost function PaperAll(p: Paper, width: nat, text: seq<(Byte, Byte)>): Paper
    decreases |text|
  {
    if text == [] then p else PaperAll(PaperPut(p, width, text[0].0, text[0].1), width, text[1..])
  }

  // Over a whole run of plain text the screen stays a window on the paper, and t is where it ends up.
  lemma {:induction false} PlainTextIsAWindow(s: Screen, p: Paper, top: nat, text: seq<(Byte, Byte)>) returns (t: nat)
    requires Shows(s, p, top) && s.Valid() && s.width >= 1
    requires forall k :: 0 <= k < |text| ==> Plain(text[k].0)
    ensures t >= top && Shows(PutAll(s, text), PaperAll(p, s.width, text), t)
    decreases |text|
  {
    hide Shows, PutChar, PaperPut;
    if text == [] {
      t := top;
    } else {
      var c, color := text[0].0, text[0].1;
      t := PutCharShows(s, p, top, c, color);
      PutCharKeepsScreen(s, c, color);
      t := PlainTextIsAWindow(PutChar(s, c, color), PaperPut(p, s.width, c, color), t, text[1..]);
    }
  }
}
