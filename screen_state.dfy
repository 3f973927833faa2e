/** The screen (CScreen) as a value: its cell grid, the cursor, the colours and
    attribute flags new characters are written with, and the default colours.
    Each screen operation is a function from one state to the next; the class
    in module Screens performs the same steps in place and is proved against
    these functions. */
module ScreenStates {
  import opened CharCells
  import opened CellArrays
  import Bytes

  datatype ScreenState = ScreenState(
    palette: Palette,
    cols: int, rows: int, cells: seq<Cell>,
    cx: int, cy: int,
    fg: Color, bg: Color,
    blink: bool, bold: bool, reverse: bool, underline: bool)

  /** A grid of rows*cols cells with the cursor on one of them. */
  predicate Good(s: ScreenState) {
    0 < s.cols && 0 < s.rows && |s.cells| == s.rows * s.cols &&
    0 <= s.cx < s.cols && 0 <= s.cy < s.rows
  }

  /** The flat position of the cursor cell. */
  function CursorIndex(s: ScreenState): (i: int)
    requires Good(s)
    ensures 0 <= i < |s.cells| && i == Index(s.cols, s.cx, s.cy)
  {
    IndexInGrid(s.cols, s.rows, s.cx, s.cy);
    Index(s.cols, s.cx, s.cy)
  }

  /** For a column inside the grid, the flat bound check of setCursorPos is
      exactly "row below the row count". */
  lemma IndexBelowCount(cols: int, rows: int, col: int, row: int)
    requires 0 <= col < cols && 0 <= row && 0 < rows
    ensures (Index(cols, col, row) < rows * cols) <==> row < rows
  {
    if row < rows {
      IndexInGrid(cols, rows, col, row);
    } else {
      MulMonotonic(rows, row, cols);
    }
  }

  /** Exactly one cell, the one under the cursor, carries the cursor bit. */
  predicate OneCursor(s: ScreenState)
    requires Good(s)
  {
    forall k :: 0 <= k < |s.cells| ==> (s.cells[k].Cursor() <==> k == CursorIndex(s))
  }

  /** No cell carries the cursor bit. */
  predicate NoCursor(cells: seq<Cell>) {
    forall k :: 0 <= k < |cells| ==> !cells[k].Cursor()
  }

  /** The two cell updates of setCursorPos: the cursor bit cleared at i,
      then set at j. */
  function MoveCursorBit(cells: seq<Cell>, i: int, j: int): (r: seq<Cell>)
    requires 0 <= i < |cells| && 0 <= j < |cells|
    ensures |r| == |cells|
    ensures r[j].Cursor() && (i != j ==> !r[i].Cursor())
    ensures forall k :: 0 <= k < |cells| && k != i && k != j ==> r[k] == cells[k]
  {
    var c1 := cells[i := cells[i].SetCursor(false, DefaultCursorStyle)];
    c1[j := c1[j].SetCursor(true, DefaultCursorStyle)]
  }

  /** setCursorPos(col, row): when the flat position is in the list, the old
      cursor cell loses the cursor bit, the new one gains it, and the cursor
      moves; otherwise nothing changes. */
  function SetCursorPos(s: ScreenState, col: int, row: int): (r: ScreenState)
    requires Good(s) && 0 <= col < s.cols && 0 <= row
    ensures Good(r)
    ensures (Index(s.cols, col, row) < |s.cells|) == (row < s.rows)
    ensures row < s.rows ==> 0 <= Index(s.cols, col, row) < |s.cells|
    ensures r == s.(cells := r.cells, cx := r.cx, cy := r.cy)
    ensures (r.cx, r.cy) == if row < s.rows then (col, row) else (s.cx, s.cy)
    ensures row >= s.rows ==> r == s
    ensures row < s.rows ==> r.cells[Index(s.cols, col, row)].Cursor()
    ensures row < s.rows && Index(s.cols, col, row) != CursorIndex(s) ==> !r.cells[CursorIndex(s)].Cursor()
    ensures |r.cells| == |s.cells|
    ensures forall k :: 0 <= k < |s.cells| && k != CursorIndex(s) && k != Index(s.cols, col, row) ==>
              r.cells[k] == s.cells[k]
  {
    IndexBelowCount(s.cols, s.rows, col, row);
    if Index(s.cols, col, row) < |s.cells| then
      s.(cells := MoveCursorBit(s.cells, CursorIndex(s), Index(s.cols, col, row)), cx := col, cy := row)
    else s
  }

  /** Moving the cursor keeps exactly one cursor cell. */
  lemma SetCursorPosKeepsOneCursor(s: ScreenState, col: int, row: int)
    requires Good(s) && 0 <= col < s.cols && 0 <= row && OneCursor(s)
    ensures OneCursor(SetCursorPos(s, col, row))
  {
    var r := SetCursorPos(s, col, row);
    if row < s.rows {
      assert CursorIndex(r) == Index(s.cols, col, row);
    }
  }

  /** Placing the cursor on a grid without any cursor bit leaves exactly one. */
  lemma SetCursorPosMakesOneCursor(s: ScreenState, col: int, row: int)
    requires Good(s) && 0 <= col < s.cols && 0 <= row < s.rows && NoCursor(s.cells)
    ensures OneCursor(SetCursorPos(s, col, row))
  {
    var r := SetCursorPos(s, col, row);
    assert CursorIndex(r) == Index(s.cols, col, row);
  }

  /** The flat range from the cursor to the end of its row is the set of
      positions in that row at or right of the cursor column. */
  lemma RowSuffixRange(cols: int, cx: int, cy: int, k: int)
    requires 0 <= cx < cols && 0 <= k
    ensures (Index(cols, cx, cy) <= k < Index(cols, 0, cy + 1)) <==> (k / cols == cy && cx <= k % cols)
  {
    DivMod(cols, k);
    RowsAreRanges(cols, k, cy, cy + 1);
    assert (cy + 1) * cols == cy * cols + cols;
  }

  /** The flat range from the start of the cursor row up to and including the
      cursor is the set of positions in that row at or left of the cursor column. */
  lemma RowPrefixRange(cols: int, cx: int, cy: int, k: int)
    requires 0 <= cx < cols && 0 <= k
    ensures (Index(cols, 0, cy) <= k < Index(cols, cx, cy) + 1) <==> (k / cols == cy && k % cols <= cx)
  {
    DivMod(cols, k);
    RowsAreRanges(cols, k, cy, cy + 1);
    assert (cy + 1) * cols == cy * cols + cols;
  }

  /** clearEOL(): clear from the cursor to the end of its row. */
  function ClearEOL(s: ScreenState): (r: ScreenState)
    requires Good(s)
    ensures Good(r) && r == s.(cells := r.cells)
  {
    IndexInGrid(s.cols, s.rows, 0, s.cy);
    s.(cells := ClearRange(s.cells, CursorIndex(s), Index(s.cols, 0, s.cy + 1), s.palette))
  }

  /** clearBOL(): clear from the start of the cursor row to the cursor. */
  function ClearBOL(s: ScreenState): (r: ScreenState)
    requires Good(s)
    ensures Good(r) && r == s.(cells := r.cells)
  {
    s.(cells := ClearRange(s.cells, Index(s.cols, 0, s.cy), CursorIndex(s) + 1, s.palette))
  }

  /** clearEOD(): clear from the cursor to the end of the display. */
  function ClearEOD(s: ScreenState): (r: ScreenState)
    requires Good(s)
    ensures Good(r) && r == s.(cells := r.cells)
  {
    s.(cells := ClearRange(s.cells, CursorIndex(s), |s.cells|, s.palette))
  }

  /** clearBOD(): clear from the start of the display to the cursor. */
  function ClearBOD(s: ScreenState): (r: ScreenState)
    requires Good(s)
    ensures Good(r) && r == s.(cells := r.cells)
  {
    s.(cells := ClearRange(s.cells, 0, CursorIndex(s) + 1, s.palette))
  }

  /** clear(): home the cursor, then clear to the end of the display. */
  function Clear(s: ScreenState): (r: ScreenState)
    requires Good(s)
    ensures Good(r)
  {
    ClearEOD(SetCursorPos(s, 0, 0))
  }

  /** clearEOL resets columns [cursorX, cols) of the cursor row and no other cell. */
  lemma ClearEOLClearsRowSuffix(s: ScreenState, k: int)
    requires Good(s) && 0 <= k < |s.cells|
    ensures ClearEOL(s).cells[k] ==
      if k / s.cols == s.cy && s.cx <= k % s.cols then s.cells[k].Cleared(s.palette) else s.cells[k]
  {
    RowSuffixRange(s.cols, s.cx, s.cy, k);
  }

  /** clearBOL resets columns [0, cursorX] of the cursor row and no other cell. */
  lemma ClearBOLClearsRowPrefix(s: ScreenState, k: int)
    requires Good(s) && 0 <= k < |s.cells|
    ensures ClearBOL(s).cells[k] ==
      if k / s.cols == s.cy && k % s.cols <= s.cx then s.cells[k].Cleared(s.palette) else s.cells[k]
  {
    RowPrefixRange(s.cols, s.cx, s.cy, k);
  }

  /** clearEOD is clearEOL followed by clearing every row below the cursor. */
  lemma ClearEODIsEOLThenRowsBelow(s: ScreenState)
    requires Good(s)
    ensures (IndexInGrid(s.cols, s.rows, 0, s.cy);
      ClearEOD(s).cells == ClearRange(ClearEOL(s).cells, Index(s.cols, 0, s.cy + 1), |s.cells|, s.palette))
  {
    IndexInGrid(s.cols, s.rows, 0, s.cy);
    var a := ClearEOD(s).cells;
    var b := ClearRange(ClearEOL(s).cells, Index(s.cols, 0, s.cy + 1), |s.cells|, s.palette);
    assert forall k :: 0 <= k < |a| ==> a[k] == b[k];
  }

  /** clearBOD is clearing every row above the cursor followed by clearBOL. */
  lemma ClearBODIsRowsAboveThenBOL(s: ScreenState)
    requires Good(s)
    ensures ClearBOD(s) ==
      ClearBOL(s.(cells := ClearRange(s.cells, 0, Index(s.cols, 0, s.cy), s.palette)))
  {
    var a := ClearBOD(s).cells;
    var b := ClearBOL(s.(cells := ClearRange(s.cells, 0, Index(s.cols, 0, s.cy), s.palette))).cells;
    assert forall k :: 0 <= k < |a| ==> a[k] == b[k];
  }

  /** clear() leaves the cursor at the origin and every cell in the cleared
      state: no attributes, a blank, the default colours. */
  lemma ClearLeavesDefaults(s: ScreenState)
    requires Good(s)
    ensures var r := Clear(s);
      r.cx == 0 && r.cy == 0 &&
      forall k :: 0 <= k < |r.cells| ==> r.cells[k] == NewCell(s.palette).(cursorStyle := CursorStyle.Underline)
  {
  }

  /** The flat position of the last column of the cursor row. */
  function LastInRow(s: ScreenState): (i: int)
    requires Good(s)
    ensures CursorIndex(s) <= i < |s.cells| && i == Index(s.cols, s.cols - 1, s.cy)
  {
    IndexInGrid(s.cols, s.rows, s.cols - 1, s.cy);
    Index(s.cols, s.cols - 1, s.cy)
  }

  /** One pass of delChars: from the cursor to the next-to-last column each
      cell takes a copy of its right neighbour, then the last column is cleared. */
  function DelCharStep(s: ScreenState): (r: ScreenState)
    requires Good(s)
    ensures Good(r) && r == s.(cells := r.cells)
  {
    var lo, last := CursorIndex(s), LastInRow(s);
    s.(cells := ClearRange(Copied(s.cells, lo, last, 1), last, last + 1, s.palette))
  }

  /** delChars(num): num passes (none when num <= 0). */
  function DelChars(s: ScreenState, num: int): (r: ScreenState)
    requires Good(s)
    ensures Good(r) && r == s.(cells := r.cells)
    decreases num
  {
    if num <= 0 then s else DelCharStep(DelChars(s, num - 1))
  }

  /** One more pass after the first n. */
  lemma DelCharsMore(s: ScreenState, n: nat, before: ScreenState, after: ScreenState)
    requires Good(s) && before == DelChars(s, n) && after == DelCharStep(before)
    ensures after == DelChars(s, n + 1)
  {
  }

  /** One pass of delChars, column by column on the cursor row. */
  lemma DelCharStepShiftsRow(s: ScreenState, x: int)
    requires Good(s) && 0 <= x < s.cols
    ensures (IndexInGrid(s.cols, s.rows, x, s.cy);
      var r := DelCharStep(s).cells;
      var i := Index(s.cols, x, s.cy);
      r[i] == if x < s.cx then s.cells[i]
              else if x < s.cols - 1 then s.cells[i].CopyFrom(s.cells[i + 1])
              else s.cells[i].Cleared(s.palette))
  {
    IndexInGrid(s.cols, s.rows, x, s.cy);
  }

  /** delChars changes only the cells from the cursor to the end of its row,
      whatever the count. */
  lemma {:induction false} DelCharsKeepsOtherCells(s: ScreenState, num: int, k: int)
    requires Good(s) && 0 <= k < |s.cells| && !(CursorIndex(s) <= k <= LastInRow(s))
    ensures DelChars(s, num).cells[k] == s.cells[k]
    decreases num
  {
    if num > 0 {
      DelCharsKeepsOtherCells(s, num - 1, k);
    }
  }

  /** After at least one pass the last column of the cursor row is cleared. */
  lemma DelCharsClearsLastColumn(s: ScreenState, num: int)
    requires Good(s) && num >= 1
    ensures DelChars(s, num).cells[LastInRow(s)] == s.cells[LastInRow(s)].Cleared(s.palette)
  {
  }

  /** One pass of insLines: every row below the cursor row takes a copy of the
      row above it, then the cursor row is cleared; margins play no part. */
  function InsLineStep(s: ScreenState): (r: ScreenState)
    requires Good(s)
    ensures Good(r) && r == s.(cells := r.cells)
  {
    s.(cells := ScrolledDown(s.cells, s.palette, s.cols, s.rows, 0, s.cy, s.cols, s.rows - s.cy))
  }

  /** insLines(num): num passes (none when num <= 0). */
  function InsLines(s: ScreenState, num: int): (r: ScreenState)
    requires Good(s)
    ensures Good(r) && r == s.(cells := r.cells)
    decreases num
  {
    if num <= 0 then s else InsLineStep(InsLines(s, num - 1))
  }

  /** One more pass after the first n. */
  lemma InsLinesMore(s: ScreenState, n: nat, before: ScreenState, after: ScreenState)
    requires Good(s) && before == InsLines(s, n) && after == InsLineStep(before)
    ensures after == InsLines(s, n + 1)
  {
  }

  /** One pass of insLines, cell by cell. */
  lemma InsLineStepShiftsDown(s: ScreenState, k: int)
    requires Good(s) && 0 <= k < |s.cells|
    ensures var r := InsLineStep(s).cells;
      r[k] == if k / s.cols < s.cy then s.cells[k]
              else if k / s.cols == s.cy then s.cells[k].Cleared(s.palette)
              else s.cells[k].CopyFrom(s.cells[k - s.cols])
  {
    RowOfPosition(s.cols, s.rows, k);
    if k / s.cols > s.cy {
      MulMonotonic(1, k / s.cols, s.cols);
    }
  }

  /** insLines never changes the rows above the cursor. */
  lemma {:induction false} InsLinesKeepsRowsAbove(s: ScreenState, num: int, k: int)
    requires Good(s) && 0 <= k < |s.cells| && k / s.cols < s.cy
    ensures InsLines(s, num).cells[k] == s.cells[k]
    decreases num
  {
    if num > 0 {
      InsLinesKeepsRowsAbove(s, num - 1, k);
      InsLineStepShiftsDown(InsLines(s, num - 1), k);
    }
  }

  /** The Latin-1 character a byte stands for. */
  function Latin1Char(b: Bytes.byte): (c: char)
    ensures c as int == b as int
  {
    b as int as char
  }

  /** The column and row putchar writes at: a negative coordinate stands for
      the cursor's. */
  function PutColumn(s: ScreenState, x: int): int { if x < 0 then s.cx else x }
  function PutRow(s: ScreenState, y: int): int { if y < 0 then s.cy else y }

  /** putchar(c, x, y): the target cell takes the character, the current
      background and foreground colours and the current reverse flag. */
  function PutChar(s: ScreenState, c: Bytes.byte, x: int, y: int): (r: ScreenState)
    requires Good(s) && 0 <= Index(s.cols, PutColumn(s, x), PutRow(s, y)) < |s.cells|
    ensures Good(r) && r == s.(cells := r.cells) && |r.cells| == |s.cells|
  {
    var i := Index(s.cols, PutColumn(s, x), PutRow(s, y));
    s.(cells := s.cells[i := s.cells[i].SetCharacter(Latin1Char(c))
                                      .SetBackgroundColor(s.bg)
                                      .SetForegroundColor(s.fg)
                                      .SetReverse(s.reverse)])
  }

  /** What putchar leaves in the target cell, and that no other cell changes. */
  lemma PutCharStores(s: ScreenState, c: Bytes.byte, x: int, y: int)
    requires Good(s) && 0 <= Index(s.cols, PutColumn(s, x), PutRow(s, y)) < |s.cells|
    ensures var i := Index(s.cols, PutColumn(s, x), PutRow(s, y));
      var r := PutChar(s, c, x, y).cells;
      r[i].character as int == c as int && r[i].foreground == s.fg && r[i].background == s.bg &&
      r[i].Reverse() == s.reverse &&
      r[i].Cursor() == s.cells[i].Cursor() && r[i].Select() == s.cells[i].Select() &&
      (forall k :: 0 <= k < |r| && k != i ==> r[k] == s.cells[k])
  {
    var i := Index(s.cols, PutColumn(s, x), PutRow(s, y));
    SetReverseKeepsOtherFlags(s.cells[i].SetCharacter(Latin1Char(c)).SetBackgroundColor(s.bg).SetForegroundColor(s.fg), s.reverse);
  }

  /** advanceCursor(): move one column right unless on the last column; the
      result says whether it moved. */
  function AdvanceCursor(s: ScreenState): (res: (ScreenState, bool))
    requires Good(s)
    ensures Good(res.0)
  {
    if s.cx < s.cols - 1 then (SetCursorPos(s, s.cx + 1, s.cy), true) else (s, false)
  }

  /** advanceCursor moves exactly when the cursor is left of the last column,
      and then by one column on the same row. */
  lemma AdvanceCursorMoves(s: ScreenState)
    requires Good(s)
    ensures var (r, moved) := AdvanceCursor(s);
      moved == (s.cx < s.cols - 1) &&
      (moved ==> r.cx == s.cx + 1 && r.cy == s.cy) &&
      (!moved ==> r == s)
  {
  }

  /** scrollUp(): scroll the whole grid up one row, then put the cursor back
      where it was. */
  function ScrollUp(s: ScreenState): (r: ScreenState)
    requires Good(s)
    ensures Good(r) && r.cx == s.cx && r.cy == s.cy
    ensures r == s.(cells := r.cells)
  {
    var moved := s.(cells := Scrolled(ScrollMode.ScrollUp, s.cells, s.palette, s.cols, s.rows, 0, 0, s.cols, s.rows));
    SetCursorPos(moved, s.cx, s.cy)
  }

  /** scrollDown(): scroll the whole grid down one row, then put the cursor
      back where it was. */
  function ScrollDown(s: ScreenState): (r: ScreenState)
    requires Good(s)
    ensures Good(r) && r.cx == s.cx && r.cy == s.cy
    ensures r == s.(cells := r.cells)
  {
    var moved := s.(cells := Scrolled(ScrollMode.ScrollDown, s.cells, s.palette, s.cols, s.rows, 0, 0, s.cols, s.rows));
    SetCursorPos(moved, s.cx, s.cy)
  }

  /** A full-screen scroll rewrites every cell by copy or clear, so no cursor
      bit survives it; putting the cursor back leaves exactly one, under the
      unchanged cursor position. */
  lemma ScrollUpKeepsOneCursor(s: ScreenState)
    requires Good(s)
    ensures OneCursor(ScrollUp(s))
  {
    var moved := s.(cells := Scrolled(ScrollMode.ScrollUp, s.cells, s.palette, s.cols, s.rows, 0, 0, s.cols, s.rows));
    forall k | 0 <= k < |moved.cells| ensures !moved.cells[k].Cursor() {
      FullScrollUpRewrites(s.cells, s.palette, s.cols, s.rows, k);
    }
    SetCursorPosMakesOneCursor(moved, s.cx, s.cy);
  }

  lemma ScrollDownKeepsOneCursor(s: ScreenState)
    requires Good(s)
    ensures OneCursor(ScrollDown(s))
  {
    var moved := s.(cells := Scrolled(ScrollMode.ScrollDown, s.cells, s.palette, s.cols, s.rows, 0, 0, s.cols, s.rows));
    forall k | 0 <= k < |moved.cells| ensures !moved.cells[k].Cursor() {
      FullScrollDownRewrites(s.cells, s.palette, s.cols, s.rows, k);
    }
    SetCursorPosMakesOneCursor(moved, s.cx, s.cy);
  }

  /** QChar::isSpace: the ASCII controls TAB..CR, the space, NEL, NBSP and the
      Unicode space, line and paragraph separators. */
  predicate IsSpace(c: char) {
    var u := c as int;
    (9 <= u <= 13) || u == 0x20 || u == 0x85 || u == 0xA0 || u == 0x1680 ||
    (0x2000 <= u <= 0x200A) || u == 0x2028 || u == 0x2029 || u == 0x202F ||
    u == 0x205F || u == 0x3000
  }

  function TrimStart(s: seq<char>): (r: seq<char>)
    ensures |r| <= |s| && r == s[|s| - |r|..]
    ensures forall k :: 0 <= k < |s| - |r| ==> IsSpace(s[k])
    ensures r == [] || !IsSpace(r[0])
  {
    if s != [] && IsSpace(s[0]) then TrimStart(s[1..]) else s
  }

  function TrimEnd(s: seq<char>): (r: seq<char>)
    ensures |r| <= |s| && r == s[..|r|]
    ensures forall k :: |r| <= k < |s| ==> IsSpace(s[k])
    ensures r == [] || !IsSpace(r[|r| - 1])
  {
    if s != [] && IsSpace(s[|s| - 1]) then TrimEnd(s[..|s| - 1]) else s
  }

  /** QString::trimmed: whitespace removed from both ends. */
  function Trimmed(s: seq<char>): (r: seq<char>)
  {
    TrimEnd(TrimStart(s))
  }

  /** The trimmed text is a contiguous part of the original, with only
      whitespace cut off either end and no whitespace left at either end. */
  lemma TrimmedIsCore(s: seq<char>)
    ensures var r := Trimmed(s); var i := |s| - |TrimStart(s)|;
      0 <= i && i + |r| <= |s| && r == s[i..i + |r|] &&
      (forall k :: 0 <= k < i ==> IsSpace(s[k])) &&
      (forall k :: i + |r| <= k < |s| ==> IsSpace(s[k])) &&
      (r == [] || (!IsSpace(r[0]) && !IsSpace(r[|r| - 1])))
  {
    var t := TrimStart(s);
    var r := TrimEnd(t);
    CoreOfSuffix(s, |s| - |t|, t, r);
  }

  /** A prefix r of the suffix t of s from i, where t has only whitespace
      after r and none at its start, is the slice of s from i, followed in s
      by whitespace only. */
  lemma CoreOfSuffix(s: seq<char>, i: nat, t: seq<char>, r: seq<char>)
    requires i <= |s| && t == s[i..] && |r| <= |t| && r == t[..|r|]
    requires forall k :: |r| <= k < |t| ==> IsSpace(t[k])
    requires t == [] || !IsSpace(t[0])
    ensures i + |r| <= |s| && r == s[i..i + |r|]
    ensures forall k :: i + |r| <= k < |s| ==> IsSpace(s[k])
    ensures r == [] || !IsSpace(r[0])
  {
    forall k | i + |r| <= k < |s| ensures IsSpace(s[k]) {
      assert s[k] == t[k - i];
    }
  }

  /** Trimming is idempotent. */
  lemma TrimmedIdempotent(s: seq<char>)
    ensures Trimmed(Trimmed(s)) == Trimmed(s)
  {
    TrimmedIsCore(s);
    var r := Trimmed(s);
    assert TrimStart(r) == r;
  }

  /** The selected characters of a run of cells, in order. */
  function SelectedChars(cs: seq<Cell>): (r: seq<char>)
    ensures |r| <= |cs|
    ensures (forall k :: 0 <= k < |cs| ==> !cs[k].Select()) ==> r == []
  {
    if cs == [] then []
    else SelectedChars(cs[..|cs| - 1]) + (if cs[|cs| - 1].Select() then [cs[|cs| - 1].character] else [])
  }

  /** The text selectedText has gathered after its first y rows: each row's
      selected characters, with a newline after the row once any text exists. */
  function Gathered(cells: seq<Cell>, cols: int, y: int): (r: seq<char>)
    requires 0 < cols && 0 <= y && y * cols <= |cells|
    ensures (forall k :: 0 <= k < y * cols ==> !cells[k].Select()) ==> r == []
    decreases y
  {
    if y == 0 then []
    else
      MulMonotonic(y - 1, y, cols);
      MulNonNegative(y - 1, cols);
      var before := Gathered(cells, cols, y - 1);
      var row := cells[(y - 1) * cols..y * cols];
      assert forall k :: 0 <= k < |row| ==> row[k] == cells[(y - 1) * cols + k];
      var t := before + SelectedChars(row);
      if |t| > 0 then t + ['\n'] else t
  }

  /** selectedText(): the gathered text trimmed, and every cell deselected. */
  function SelectedText(s: ScreenState): (res: (seq<char>, ScreenState))
    requires Good(s)
    ensures Good(res.1) && res.1 == s.(cells := res.1.cells)
  {
    (Trimmed(Gathered(s.cells, s.cols, s.rows)), s.(cells := Deselected(s.cells)))
  }

  /** selectedText leaves no cell selected and changes nothing else in the
      cells; with nothing selected it returns the empty text. */
  lemma SelectedTextDeselects(s: ScreenState)
    requires Good(s)
    ensures var (text, r) := SelectedText(s);
      (forall k :: 0 <= k < |r.cells| ==>
         !r.cells[k].Select() && r.cells[k] == s.cells[k].(attributes := r.cells[k].attributes)) &&
      ((forall k :: 0 <= k < |s.cells| ==> !s.cells[k].Select()) ==> text == [])
  {
  }

  /** setGrid(c, r) on the screen: columns then rows, each followed by a sync. */
  function SetGrid(s: ScreenState, c: int, r: int): (res: ScreenState)
    ensures res == s.(cols := c, rows := r, cells := res.cells)
    ensures c > 0 && r > 0 ==> |res.cells| == r * c
  {
    s.(cols := c, rows := r, cells := Synced(Synced(s.cells, s.rows * c, s.palette), r * c, s.palette))
  }

  /** setCols(c) on the screen. */
  function SetCols(s: ScreenState, c: int): (res: ScreenState)
    ensures res == s.(cols := c, cells := res.cells)
    ensures c > 0 && s.rows > 0 ==> |res.cells| == s.rows * c
  {
    s.(cols := c, cells := Synced(s.cells, s.rows * c, s.palette))
  }

  /** Once the cursor lies inside the new dimensions, a resized screen is good. */
  lemma SetGridGood(s: ScreenState, c: int, r: int)
    requires 0 < c && 0 < r && 0 <= s.cx < c && 0 <= s.cy < r
    ensures Good(SetGrid(s, c, r))
  {
  }
}
