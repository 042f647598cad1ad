// drivers/tty/tty.cpp: `shift`, `put_entry_at` and `put_char` on the terminal's own state.
module Tty {
  import opened Terminal

  // The cell at j after a number of left shifts by one cell.
  function ShiftedCell(base: seq<Cell>, places: nat, spill: nat, j: nat): Cell
    requires spill < |base| && j < |base|
  {
    if j <= spill then base[Min(j + places, spill)] else base[j]
  }

  // As many left shifts as a row has cells are a one-row scroll, and the cleared row is gone.
  lemma ShiftedIsScrolled(old0: seq<Cell>, base: seq<Cell>, r: seq<Cell>, width: nat, spill: nat)
    requires width <= spill < |base| == |old0| == |r|
    requires forall j: nat :: width <= j < |base| ==> base[j] == old0[j]
    requires forall j: nat :: j < |r| ==> r[j] == ShiftedCell(base, width, spill, j)
    ensures r == Scrolled(old0, width, spill)
  {
  }

  class Tty {
    const vgaWidth: nat
    const vgaHeight: nat
    var row: nat
    var column: nat
    var textBuffer: array<Cell>

    constructor (width: nat, height: nat, buffer: array<Cell>)
      ensures State() == Screen(buffer[..], 0, 0, width, height) && textBuffer == buffer
    {
      vgaWidth, vgaHeight, row, column, textBuffer := width, height, 0, 0, buffer;
    }

    ghost function State(): Screen
      reads this, textBuffer
    {
      Screen(textBuffer[..], row, column, vgaWidth, vgaHeight)
    }

    method PutEntryAt(c: Byte, color: Byte, x: nat, y: nat)
      requires x <= vgaWidth && y <= vgaHeight ==> y * vgaWidth + x < textBuffer.Length
      modifies textBuffer
      ensures State() == Terminal.PutEntryAt(old(State()), c, color, x, y)
    {
      if x > vgaWidth {
        return;
      }
      if y > vgaHeight {
        return;
      }
      textBuffer[y * vgaWidth + x] := VgaEntry(c, color);
    }

    // One of the `vga_width` left shifts by one cell; `cells` is height times width.
    method ShiftLeft(cells: nat, ghost base: seq<Cell>, ghost places: nat)
      requires cells < textBuffer.Length == |base|
      requires forall j: nat :: j < |base| ==> textBuffer[j] == ShiftedCell(base, places, cells, j)
      modifies textBuffer
      ensures forall j: nat :: j < |base| ==> textBuffer[j] == ShiftedCell(base, places + 1, cells, j)
    {
      for j := 0 to cells
        invariant forall k: nat :: k < j ==> textBuffer[k] == ShiftedCell(base, places + 1, cells, k)
        invariant forall k: nat :: j <= k < |base| ==> textBuffer[k] == ShiftedCell(base, places, cells, k)
      {
        textBuffer[j] := textBuffer[j + 1];
      }
    }

    // Clears the first row, then shifts everything left by one row, a cell at a time.
    method Shift()
      requires vgaHeight >= 1 && row >= 1 && vgaHeight * vgaWidth < textBuffer.Length
      modifies this`row, textBuffer
      ensures State() == Terminal.Shift(old(State()))
    {
      ghost var old0, cells := textBuffer[..], vgaHeight * vgaWidth;
      RowEnd(0, vgaHeight, vgaWidth);
      for i := 0 to vgaWidth
        invariant row == old(row)
        invariant forall j: nat :: vgaWidth <= j < textBuffer.Length ==> textBuffer[j] == old0[j]
      {
        textBuffer[i] := VgaEntry(0, 0);
      }
      ghost var base := textBuffer[..];
      for i := 0 to vgaWidth
        invariant row == old(row)
        invariant forall j: nat :: j < |base| ==> textBuffer[j] == ShiftedCell(base, i, cells, j)
      {
        ShiftLeft(vgaHeight * vgaWidth, base, i);
      }
      ShiftedIsScrolled(old0, base, textBuffer[..], vgaWidth, cells);
      row := row - 1;
    }

    method PutChar(c: Byte, color: Byte)
      requires State().Valid()
      modifies this`row, this`column, textBuffer
      ensures State() == Terminal.PutChar(old(State()), c, color) && State().Valid()
    {
      ghost var s := State();
      PutCharKeepsScreen(s, c, color);
      if c == 0 {
        return;
      }
      if c == TAB {
        column := (column / 4 + 1) * 4;
        return;
      }
      if c == BACKSPACE {
        if column == 0 {
          if row != 0 {
            column := if vgaWidth >= 1 then vgaWidth - 1 else 0xffff_ffff_ffff_ffff;
            row := row - 1;
          }
        } else {
          column := column - 1;
        }
        InReach();
        PutEntryAt(BLANK, 0, column, row);
        return;
      }
      if c != NEWLINE {
        InReach();
        PutEntryAt(c, color, column, row);
      }
      column := column + 1;
      if column >= vgaWidth {
        column := 0;
        row := row + 1;
        if row >= vgaHeight {
          Shift();
        }
      }
      if c == NEWLINE {
        row := row + 1;
        if row >= vgaHeight {
          Shift();
        }
        column := 0;
      }
    }

    lemma InReach()
      requires State().Valid()
      ensures column <= vgaWidth ==> row * vgaWidth + column < textBuffer.Length
    {
      if column <= vgaWidth {
        EntryInReach(State(), column, row);
      }
    }
  }
}
