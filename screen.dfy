/** The screen (CScreen) as an object: it owns its cell array and changes it
    in place with the same loops as the source. Every method is proved to
    leave Model() equal to the function of module ScreenStates that states
    what the operation means. */
module Screens {
  import opened CharCells
  import opened CellArrays
  import opened Bytes
  import ScreenStates

  class Screen {
    /** the cell array the screen owns (mCells) */
    const grid: CellArray
    var cx: int
    var cy: int
    var fg: Color
    var bg: Color
    var blink: bool
    var bold: bool
    var reverse: bool
    var underline: bool

    /** A screen with an empty grid, the cursor at the origin, white on black
        and no attributes; p holds the default colours of new cells. */
    constructor (p: Palette)
      ensures fresh(grid)
      ensures Model() == ScreenStates.ScreenState(p, 0, 0, [], 0, 0, Rgb(255, 255, 255), Rgb(0, 0, 0),
                                                  false, false, false, false)
    {
      grid := new CellArray(p);
      cx, cy := 0, 0;
      bg := Rgb(0, 0, 0);
      fg := Rgb(255, 255, 255);
      blink, bold, reverse, underline := false, false, false, false;
    }

    ghost function Model(): ScreenStates.ScreenState
      reads this, grid
    {
      ScreenStates.ScreenState(grid.palette, grid.cols, grid.rows, grid.cells, cx, cy, fg, bg,
                               blink, bold, reverse, underline)
    }

    ghost predicate Valid()
      reads this, grid
    {
      ScreenStates.Good(Model())
    }

    /** setCursorPos(col, row): nothing happens when the flat position is past
        the end of the list. */
    method SetCursorPos(col: int, row: int)
      requires Valid() && 0 <= col < grid.cols && 0 <= row
      modifies this, grid
      ensures Valid() && Model() == ScreenStates.SetCursorPos(old(Model()), col, row)
    {
      ScreenStates.IndexBelowCount(grid.cols, grid.rows, col, row);
      if grid.IndexOf(col, row) < grid.Count() {
        var i := grid.IndexOf(cx, cy);
        IndexInGrid(grid.cols, grid.rows, cx, cy);
        grid.cells := grid.cells[i := grid.cells[i].SetCursor(false, DefaultCursorStyle)];
        var j := grid.IndexOf(col, row);
        grid.cells := grid.cells[j := grid.cells[j].SetCursor(true, DefaultCursorStyle)];
        cx := col;
        cy := row;
      }
    }

    /** clearEOL(): columns cx .. cols-1 of the cursor row, left to right. */
    method ClearEOL()
      requires Valid()
      modifies grid
      ensures Valid() && Model() == ScreenStates.ClearEOL(old(Model()))
    {
      ghost var c0 := grid.cells;
      ghost var lo := Index(grid.cols, cx, cy);
      IndexInGrid(grid.cols, grid.rows, cx, cy);
      var n := cx;
      while n < grid.cols
        invariant cx <= n <= grid.cols
        invariant Model() == old(Model()).(cells := grid.cells)
        invariant grid.cells == ClearRange(c0, lo, lo + (n - cx), grid.palette)
      {
        ClearNext(c0, lo, n, cy);
        n := n + 1;
      }
      NextRowStart(grid.cols, cy);
    }

    /** cell(x, y).clear() in a loop that has cleared the cells from lo up to
        (x, y) and goes on to the right. */
    method ClearNext(ghost c0: seq<Cell>, ghost lo: int, x: int, y: int)
      requires Valid() && 0 <= x < grid.cols && 0 <= y < grid.rows && |c0| == |grid.cells|
      requires 0 <= lo <= Index(grid.cols, x, y)
      requires grid.cells == ClearRange(c0, lo, Index(grid.cols, x, y), grid.palette)
      modifies grid
      ensures Valid() && Model() == old(Model()).(cells := grid.cells)
      ensures grid.cells == ClearRange(c0, lo, Index(grid.cols, x, y) + 1, grid.palette)
    {
      IndexInGrid(grid.cols, grid.rows, x, y);
      var i := grid.IndexOf(x, y);
      ghost var before := grid.cells;
      grid.ClearAt(i);
      ClearOneAbove(c0, lo, i, grid.palette, before, grid.cells);
    }

    /** cell(x, y).clear() in a loop that has cleared the cells after (x, y)
        up to hi and goes on to the left. */
    method ClearPrevious(ghost c0: seq<Cell>, ghost hi: int, x: int, y: int)
      requires Valid() && 0 <= x < grid.cols && 0 <= y < grid.rows && |c0| == |grid.cells|
      requires Index(grid.cols, x, y) < hi <= |c0|
      requires grid.cells == ClearRange(c0, Index(grid.cols, x, y) + 1, hi, grid.palette)
      modifies grid
      ensures Valid() && Model() == old(Model()).(cells := grid.cells)
      ensures grid.cells == ClearRange(c0, Index(grid.cols, x, y), hi, grid.palette)
    {
      IndexInGrid(grid.cols, grid.rows, x, y);
      var i := grid.IndexOf(x, y);
      ghost var before := grid.cells;
      grid.ClearAt(i);
      ClearOneBelow(c0, i + 1, hi, grid.palette, before, grid.cells);
    }

    /** clearBOL(): columns cx down to 0 of the cursor row, right to left. */
    method ClearBOL()
      requires Valid()
      modifies grid
      ensures Valid() && Model() == ScreenStates.ClearBOL(old(Model()))
    {
      ghost var c0 := grid.cells;
      ghost var hi := Index(grid.cols, cx, cy) + 1;
      ghost var base := Index(grid.cols, 0, cy);
      IndexInGrid(grid.cols, grid.rows, cx, cy);
      var n := cx;
      while n >= 0
        invariant -1 <= n <= cx
        invariant Model() == old(Model()).(cells := grid.cells)
        invariant grid.cells == ClearRange(c0, base + n + 1, hi, grid.palette)
      {
        ClearPrevious(c0, hi, n, cy);
        n := n - 1;
      }
    }

    /** Every cell of rows [from, to), row by row, left to right: the loop
        clearEOD and clearBOD share. */
    method ClearRows(from: int, to: int)
      requires Valid() && 0 <= from <= to <= grid.rows
      modifies grid
      ensures Valid() && Model() == old(Model()).(cells := grid.cells)
      ensures grid.cells == ClearRange(old(grid.cells), Index(grid.cols, 0, from), Index(grid.cols, 0, to), grid.palette)
    {
      ghost var c0 := grid.cells;
      ghost var lo := Index(grid.cols, 0, from);
      MulNonNegative(from, grid.cols);
      var y := from;
      while y < to
        invariant from <= y <= to
        invariant Model() == old(Model()).(cells := grid.cells)
        invariant grid.cells == ClearRange(c0, lo, Index(grid.cols, 0, y), grid.palette)
      {
        MulMonotonic(from, y, grid.cols);
        ClearRowAfter(c0, lo, y);
        y := y + 1;
      }
    }

    /** The inner loop of ClearRows: every cell of row y, left to right, once
        the cells from lo up to that row are cleared. */
    method ClearRowAfter(ghost c0: seq<Cell>, ghost lo: int, y: int)
      requires Valid() && 0 <= y < grid.rows && 0 <= lo <= Index(grid.cols, 0, y) && |c0| == |grid.cells|
      requires grid.cells == ClearRange(c0, lo, Index(grid.cols, 0, y), grid.palette)
      modifies grid
      ensures Valid() && Model() == old(Model()).(cells := grid.cells)
      ensures grid.cells == ClearRange(c0, lo, Index(grid.cols, 0, y + 1), grid.palette)
    {
      ghost var base := Index(grid.cols, 0, y);
      var x := 0;
      while x < grid.cols
        invariant 0 <= x <= grid.cols
        invariant Model() == old(Model()).(cells := grid.cells)
        invariant grid.cells == ClearRange(c0, lo, base + x, grid.palette)
      {
        ClearNext(c0, lo, x, y);
        x := x + 1;
      }
      NextRowStart(grid.cols, y);
    }

    /** clearEOD(): clearEOL, then every row below the cursor. */
    method ClearEOD()
      requires Valid()
      modifies grid
      ensures Valid() && Model() == ScreenStates.ClearEOD(old(Model()))
    {
      ScreenStates.ClearEODIsEOLThenRowsBelow(Model());
      ClearEOL();
      ClearRows(cy + 1, grid.rows);
    }

    /** clearBOD(): every row above the cursor, then clearBOL. */
    method ClearBOD()
      requires Valid()
      modifies grid
      ensures Valid() && Model() == ScreenStates.ClearBOD(old(Model()))
    {
      ScreenStates.ClearBODIsRowsAboveThenBOL(Model());
      ClearRows(0, cy);
      ClearBOL();
    }

    /** clear(): home the cursor, then clear to the end of the display. */
    method Clear()
      requires Valid()
      modifies this, grid
      ensures Valid() && Model() == ScreenStates.Clear(old(Model()))
    {
      SetCursorPos(0, 0);
      ClearEOD();
    }

    /** One pass of delChars' outer loop. */
    method DelCharPass()
      requires Valid()
      modifies grid
      ensures Valid() && Model() == ScreenStates.DelCharStep(old(Model()))
    {
      ghost var c0 := grid.cells;
      var cols := grid.cols;
      ghost var lo := Index(cols, cx, cy);
      ghost var last := Index(cols, cols - 1, cy);
      IndexInGrid(cols, grid.rows, cols - 1, cy);
      var x := cx;
      while x < cols - 1
        invariant cx <= x <= cols - 1
        invariant grid.cols == cols && grid.rows == old(grid.rows)
        invariant grid.cells == Copied(c0, lo, Index(cols, x, cy), 1)
      {
        var i := grid.IndexOf(x, cy);
        CopiedStepUp(c0, lo, i);
        var from := grid.cells[grid.IndexOf(x + 1, cy)];
        grid.cells := grid.cells[i := grid.cells[i].CopyFrom(from)];
        x := x + 1;
      }
      ghost var copied := grid.cells;
      var i := grid.IndexOf(cols - 1, cy);
      grid.cells := grid.cells[i := grid.cells[i].Cleared(grid.palette)];
      assert ClearRange(copied, last, last, grid.palette) == copied;
      ClearRangeStepUp(copied, last, last, grid.palette);
    }

    /** delChars(num): num passes, then a sync (which changes nothing here). */
    method DelChars(num: int)
      requires Valid()
      modifies grid
      ensures Valid() && Model() == ScreenStates.DelChars(old(Model()), num)
    {
      ghost var s0 := Model();
      var n := 0;
      while n < num
        invariant 0 <= n && (n <= num || n == 0)
        invariant Valid() && Model() == ScreenStates.DelChars(s0, n)
      {
        ghost var before := Model();
        DelCharPass();
        ScreenStates.DelCharsMore(s0, n, before, Model());
        n := n + 1;
      }
      assert n == num || num <= 0;
      SyncCells();
    }

    /** cells().sync() on a grid that already holds rows*cols cells. */
    method SyncCells()
      requires Valid()
      modifies grid
      ensures Valid() && Model() == old(Model())
    {
      SyncedIdempotent(grid.cells, grid.rows * grid.cols, grid.palette);
      grid.Sync();
    }

    /** One row of insLines' copy loop: row y takes the cells of row y-1. */
    method CopyRowFromAbove(ghost c0: seq<Cell>, y: int)
      requires Valid() && cy < y < grid.rows && |c0| == |grid.cells|
      requires grid.cells == DownCopying(c0, grid.cols, 0, grid.cols, cy, grid.rows - cy, y, 0)
      modifies grid
      ensures Valid() && Model() == old(Model()).(cells := grid.cells)
      ensures grid.cells == DownCopying(c0, grid.cols, 0, grid.cols, cy, grid.rows - cy, y - 1, 0)
    {
      var cols := grid.cols;
      ghost var height := grid.rows - cy;
      var x := 0;
      while x < cols
        invariant 0 <= x <= cols
        invariant grid.cols == cols && grid.rows == old(grid.rows)
        invariant grid.cells == DownCopying(c0, cols, 0, cols, cy, height, y, x)
      {
        IndexInGrid(cols, grid.rows, x, y);
        DownCopyStep(c0, cols, 0, cols, cy, height, y, x);
        var i := grid.IndexOf(x, y);
        assert grid.IndexOf(x, y - 1) == i - cols;
        var from := grid.cells[grid.IndexOf(x, y - 1)];
        grid.cells := grid.cells[i := grid.cells[i].CopyFrom(from)];
        x := x + 1;
      }
      DownRowDone(c0, cols, 0, cols, cy, height, y);
    }

    /** The cursor row, cleared left to right. */
    method ClearCursorRow()
      requires Valid()
      modifies grid
      ensures Valid() && Model() == old(Model()).(cells := grid.cells)
      ensures grid.cells == Clearing(old(grid.cells), grid.palette, grid.cols, 0, grid.cols, cy)
    {
      ghost var c1 := grid.cells;
      var x := 0;
      while x < grid.cols
        invariant 0 <= x <= grid.cols
        invariant Model() == old(Model()).(cells := grid.cells)
        invariant grid.cells == Clearing(c1, grid.palette, grid.cols, 0, x, cy)
      {
        IndexInGrid(grid.cols, grid.rows, x, cy);
        ClearStep(c1, grid.palette, grid.cols, 0, x, cy);
        var i := grid.IndexOf(x, cy);
        grid.cells := grid.cells[i := grid.cells[i].Cleared(grid.palette)];
        x := x + 1;
      }
    }

    /** One pass of insLines' outer loop: rows from the bottom up to just
        below the cursor take the row above, then the cursor row is cleared. */
    method InsLinePass()
      requires Valid()
      modifies grid
      ensures Valid() && Model() == ScreenStates.InsLineStep(old(Model()))
    {
      ghost var c0 := grid.cells;
      CopyRowsDown();
      ClearCursorRow();
      ScrolledDownByLoops(c0, grid.palette, grid.cols, grid.rows, 0, cy, grid.cols, grid.rows - cy);
    }

    /** The copy loop of one insLines pass: rows from the bottom up to just
        below the cursor take the row above. */
    method CopyRowsDown()
      requires Valid()
      modifies grid
      ensures Valid() && Model() == old(Model()).(cells := grid.cells)
      ensures grid.cells == DownCopying(old(grid.cells), grid.cols, 0, grid.cols, cy, grid.rows - cy, cy, 0)
    {
      ghost var c0 := grid.cells;
      var y := grid.rows - 1;
      while y > cy
        invariant cy <= y <= grid.rows - 1
        invariant Model() == old(Model()).(cells := grid.cells)
        invariant grid.cells == DownCopying(c0, grid.cols, 0, grid.cols, cy, grid.rows - cy, y, 0)
      {
        CopyRowFromAbove(c0, y);
        y := y - 1;
      }
    }

    /** insLines(num): num passes, then a sync (which changes nothing here). */
    method InsLines(num: int)
      requires Valid()
      modifies grid
      ensures Valid() && Model() == ScreenStates.InsLines(old(Model()), num)
    {
      ghost var s0 := Model();
      var n := 0;
      while n < num
        invariant 0 <= n && (n <= num || n == 0)
        invariant Valid() && Model() == ScreenStates.InsLines(s0, n)
      {
        ghost var before := Model();
        InsLinePass();
        ScreenStates.InsLinesMore(s0, n, before, Model());
        n := n + 1;
      }
      assert n == num || num <= 0;
      SyncCells();
    }

    /** putchar(c, x, y): a negative coordinate stands for the cursor's; the
        cell takes the character, then the colours, then the reverse flag. */
    method PutChar(c: byte, x: int, y: int)
      requires Valid()
      requires 0 <= Index(grid.cols, ScreenStates.PutColumn(Model(), x), ScreenStates.PutRow(Model(), y)) < |grid.cells|
      modifies grid
      ensures Valid() && Model() == ScreenStates.PutChar(old(Model()), c, x, y)
    {
      var px, py := x, y;
      if px < 0 { px := cx; }
      if py < 0 { py := cy; }
      var i := grid.IndexOf(px, py);
      grid.cells := grid.cells[i := grid.cells[i].SetCharacter(ScreenStates.Latin1Char(c))];
      grid.cells := grid.cells[i := grid.cells[i].SetBackgroundColor(bg)];
      grid.cells := grid.cells[i := grid.cells[i].SetForegroundColor(fg)];
      grid.cells := grid.cells[i := grid.cells[i].SetReverse(reverse)];
    }

    /** advanceCursor(): one column right unless on the last column. */
    method AdvanceCursor() returns (moved: bool)
      requires Valid()
      modifies this, grid
      ensures Valid() && (Model(), moved) == ScreenStates.AdvanceCursor(old(Model()))
    {
      if cx < grid.cols - 1 {
        SetCursorPos(cx + 1, cy);
        return true;
      }
      return false;
    }

    /** scrollUp(): scroll the whole grid, then put the cursor back. */
    method ScrollUp()
      requires Valid()
      modifies this, grid
      ensures Valid() && Model() == ScreenStates.ScrollUp(old(Model()))
    {
      var px, py := cx, cy;
      grid.ScrollGrid(ScrollMode.ScrollUp, 0, 0, grid.cols, grid.rows);
      SetCursorPos(px, py);
    }

    /** scrollDown(): scroll the whole grid, then put the cursor back. */
    method ScrollDown()
      requires Valid()
      modifies this, grid
      ensures Valid() && Model() == ScreenStates.ScrollDown(old(Model()))
    {
      var px, py := cx, cy;
      grid.ScrollGrid(ScrollMode.ScrollDown, 0, 0, grid.cols, grid.rows);
      SetCursorPos(px, py);
    }

    /** The selected characters of the first x cells of row y, appended to text. */
    method GatherRow(y: int, text0: seq<char>) returns (text: seq<char>)
      requires Valid() && 0 <= y < grid.rows
      ensures (IndexInGrid(grid.cols, grid.rows, 0, y);
        text == text0 + ScreenStates.SelectedChars(grid.cells[y * grid.cols..(y + 1) * grid.cols]))
    {
      IndexInGrid(grid.cols, grid.rows, 0, y);
      ghost var row := grid.cells[y * grid.cols..(y + 1) * grid.cols];
      text := text0;
      var x := 0;
      while x < grid.cols
        invariant 0 <= x <= grid.cols
        invariant text == text0 + ScreenStates.SelectedChars(row[..x])
      {
        IndexInGrid(grid.cols, grid.rows, x, y);
        var c := grid.CellAt(x, y);
        assert c == row[x];
        assert row[..x + 1][..x] == row[..x];
        if c.Select() {
          text := text + [c.character];
        }
        x := x + 1;
      }
      assert row[..x] == row;
    }

    /** selectedText(): gather the selected characters row by row, a newline
        after each row once there is text, deselect every cell, trim. */
    method SelectedText() returns (text: seq<char>)
      requires Valid()
      modifies grid
      ensures Valid() && (text, Model()) == ScreenStates.SelectedText(old(Model()))
    {
      text := [];
      var y := 0;
      while y < grid.rows
        invariant 0 <= y <= grid.rows
        invariant y * grid.cols <= |grid.cells|
        invariant Model() == old(Model())
        invariant text == ScreenStates.Gathered(grid.cells, grid.cols, y)
      {
        text := GatherRow(y, text);
        if |text| > 0 {
          text := text + ['\n'];
        }
        IndexInGrid(grid.cols, grid.rows, 0, y);
        y := y + 1;
      }
      grid.DeselectCells();
      text := ScreenStates.Trimmed(text);
    }

    /** setGrid(c, r): setCols then setRows. */
    method SetGrid(c: int, r: int)
      modifies grid
      ensures Model() == ScreenStates.SetGrid(old(Model()), c, r)
    {
      grid.SetGrid(c, r);
    }

    /** setCols(c). */
    method SetCols(c: int)
      modifies grid
      ensures Model() == ScreenStates.SetCols(old(Model()), c)
    {
      grid.SetCols(c);
    }
  }
}
