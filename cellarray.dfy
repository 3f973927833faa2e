/** The cell grid (CCellArray): a flat, row-major list of cells together with
    its column and row counts. The list grows and shrinks at its tail; every
    operation on a region of the grid is stated pointwise over the flat list. */
module CellArrays {
  import opened CharCells

  /** indexOf(col, row): the row-major position of a cell in the flat list. */
  function Index(cols: int, col: int, row: int): int { row * cols + col }

  /** The column and row of a flat position are recovered by division. */
  lemma {:induction false} IndexCoordinates(cols: int, col: int, row: int)
    requires 0 <= col < cols
    ensures Index(cols, col, row) / cols == row
    ensures Index(cols, col, row) % cols == col
  {
    var k := Index(cols, col, row);
    var q, r := k / cols, k % cols;
    var d := q - row;
    assert d * cols == col - r;
    if d >= 1 {
      MulMonotonic(1, d, cols);
    } else if d <= -1 {
      MulMonotonic(d, -1, cols);
    }
  }

  lemma {:induction false} MulNonNegative(a: int, b: int)
    requires 0 <= a && 0 <= b
    ensures 0 <= a * b
  {
    if b > 0 {
      MulNonNegative(a, b - 1);
      assert a * b == a * (b - 1) + a;
    }
  }

  /** The next row starts one row width further on. */
  lemma NextRowStart(cols: int, row: int)
    ensures Index(cols, 0, row + 1) == Index(cols, 0, row) + cols
  {
    assert (row + 1) * cols == row * cols + cols;
  }

  lemma MulMonotonic(a: int, b: int, c: int)
    requires a <= b && 0 <= c
    ensures a * c <= b * c
  {
    MulNonNegative(b - a, c);
    assert (b - a) * c == b * c - a * c;
  }

  /** A cell inside the grid has a position inside a list of rows*cols cells. */
  lemma IndexInGrid(cols: int, rows: int, col: int, row: int)
    requires 0 <= col < cols && 0 <= row < rows
    ensures 0 <= Index(cols, col, row) < rows * cols
    ensures (row + 1) * cols <= rows * cols
  {
    MulNonNegative(row, cols);
    MulMonotonic(row + 1, rows, cols);
    assert row * cols + cols == (row + 1) * cols;
  }

  /** Every position of a list of rows*cols cells lies in a row of the grid. */
  lemma RowOfPosition(cols: int, rows: int, k: int)
    requires 0 < cols && 0 <= k < rows * cols
    ensures 0 <= k / cols < rows && 0 <= k % cols < cols
    ensures k == Index(cols, k % cols, k / cols)
  {
    var y := k / cols;
    if y >= rows {
      MulMonotonic(rows, y, cols);
    } else if y < 0 {
      MulMonotonic(y, -1, cols);
    }
  }

  /** isValidCell(col, row): only the upper bound of the flat position is
      checked, not the column or the sign. */
  predicate IsValidCell(cols: int, count: int, col: int, row: int) {
    Index(cols, col, row) < count
  }

  /** On any grid of two or more rows the bound check admits positions that
      are not in the grid: a column past the last one still names a cell of
      the next row, and a negative position passes. */
  lemma IsValidCellHasNoColumnCheck(cols: int, rows: int)
    requires 0 < cols && 1 < rows
    ensures IsValidCell(cols, rows * cols, cols, 0) && !(0 <= cols < cols)
    ensures IsValidCell(cols, rows * cols, 0, -1)
  {
    MulMonotonic(2, rows, cols);
  }

  /** The list sync() leaves: resized to n cells at its tail when n > 0,
      appending new default cells or dropping the last ones. */
  function Synced(s: seq<Cell>, n: int, p: Palette): (r: seq<Cell>)
    ensures n > 0 ==> |r| == n
    ensures n <= 0 ==> r == s
    ensures forall k :: 0 <= k < |r| && k < |s| ==> r[k] == s[k]
    ensures forall k :: |s| <= k < |r| ==> r[k] == NewCell(p)
  {
    if n <= 0 then s
    else if n <= |s| then s[..n]
    else s + seq(n - |s|, _ => NewCell(p))
  }

  /** Resizing to the current size changes nothing, and sync is idempotent. */
  lemma SyncedIdempotent(s: seq<Cell>, n: int, p: Palette)
    ensures Synced(Synced(s, n, p), n, p) == Synced(s, n, p)
    ensures n == |s| ==> Synced(s, n, p) == s
  {
  }

  /** Every cell in [lo, hi) cleared, every other cell kept. */
  function ClearRange(s: seq<Cell>, lo: int, hi: int, p: Palette): (r: seq<Cell>)
    ensures |r| == |s|
    ensures forall k :: 0 <= k < |s| && lo <= k < hi ==> r[k] == s[k].Cleared(p)
    ensures forall k :: 0 <= k < |s| && !(lo <= k < hi) ==> r[k] == s[k]
  {
    seq(|s|, k requires 0 <= k < |s| => if lo <= k < hi then s[k].Cleared(p) else s[k])
  }

  /** Every cell in [lo, hi) a copy of the ORIGINAL cell d positions away,
      every other cell kept: what a copy loop leaves when it runs so that each
      source cell is read before it is overwritten. */
  function Copied(s: seq<Cell>, lo: int, hi: int, d: int): (r: seq<Cell>)
    requires lo >= hi || (0 <= lo + d && hi + d <= |s|)
    ensures |r| == |s|
    ensures forall k :: 0 <= k < |s| && lo <= k < hi ==> r[k] == s[k].CopyFrom(s[k + d])
    ensures forall k :: 0 <= k < |s| && !(lo <= k < hi) ==> r[k] == s[k]
  {
    seq(|s|, k requires 0 <= k < |s| => if lo <= k < hi then s[k].CopyFrom(s[k + d]) else s[k])
  }

  /** Clearing one more cell at the top end of a range. */
  lemma ClearRangeStepUp(s: seq<Cell>, lo: int, hi: int, p: Palette)
    requires 0 <= lo <= hi < |s|
    ensures ClearRange(s, lo, hi + 1, p) == ClearRange(s, lo, hi, p)[hi := s[hi].Cleared(p)]
  {
  }

  /** Clearing one more cell at the bottom end of a range. */
  lemma ClearRangeStepDown(s: seq<Cell>, lo: int, hi: int, p: Palette)
    requires 0 < lo <= hi <= |s|
    ensures ClearRange(s, lo - 1, hi, p) == ClearRange(s, lo, hi, p)[lo - 1 := s[lo - 1].Cleared(p)]
  {
  }

  /** A loop that has cleared [lo, hi) and now clears the cell at hi has
      cleared [lo, hi + 1). */
  lemma ClearOneAbove(s: seq<Cell>, lo: int, hi: int, p: Palette, before: seq<Cell>, after: seq<Cell>)
    requires 0 <= lo <= hi < |s| && before == ClearRange(s, lo, hi, p)
    requires after == before[hi := before[hi].Cleared(p)]
    ensures after == ClearRange(s, lo, hi + 1, p)
  {
    ClearRangeStepUp(s, lo, hi, p);
  }

  /** A loop that has cleared [lo, hi) and now clears the cell at lo - 1 has
      cleared [lo - 1, hi). */
  lemma ClearOneBelow(s: seq<Cell>, lo: int, hi: int, p: Palette, before: seq<Cell>, after: seq<Cell>)
    requires 0 < lo <= hi <= |s| && before == ClearRange(s, lo, hi, p)
    requires after == before[lo - 1 := before[lo - 1].Cleared(p)]
    ensures after == ClearRange(s, lo - 1, hi, p)
  {
    ClearRangeStepDown(s, lo, hi, p);
  }

  /** Clearing two adjacent ranges is clearing their union. */
  lemma ClearRangeJoin(s: seq<Cell>, a: int, b: int, c: int, p: Palette)
    requires a <= b <= c
    ensures ClearRange(ClearRange(s, a, b, p), b, c, p) == ClearRange(s, a, c, p)
  {
  }

  /** A left-to-right copy loop taking each cell from its right neighbour:
      one more step, and the neighbour it reads is still the original. */
  lemma CopiedStepUp(s: seq<Cell>, lo: int, hi: int)
    requires 0 <= lo <= hi && hi + 1 < |s|
    ensures Copied(s, lo, hi + 1, 1) == Copied(s, lo, hi, 1)[hi := s[hi].CopyFrom(s[hi + 1])]
    ensures Copied(s, lo, hi, 1)[hi + 1] == s[hi + 1]
  {
  }

  /** A right-to-left copy loop taking each cell from its left neighbour:
      one more step, and the neighbour it reads is still the original. */
  lemma CopiedStepDown(s: seq<Cell>, lo: int, hi: int)
    requires 2 <= lo <= hi <= |s|
    ensures Copied(s, lo - 1, hi, -1) == Copied(s, lo, hi, -1)[lo - 1 := s[lo - 1].CopyFrom(s[lo - 2])]
    ensures Copied(s, lo, hi, -1)[lo - 2] == s[lo - 2]
  {
  }

  /** operator= / copy between two cells of the list: assigning a cell to
      itself changes nothing, assigning another cell copies it. */
  function AssignCell(s: seq<Cell>, i: int, j: int): (r: seq<Cell>)
    requires 0 <= i < |s| && 0 <= j < |s|
    ensures |r| == |s|
    ensures i == j ==> r == s
    ensures i != j ==> r == s[i := s[i].CopyFrom(s[j])]
  {
    if i == j then s else s[i := s[i].CopyFrom(s[j])]
  }

  /** After assigning a cell from another, the target never carries the
      cursor bit and shows the source's character. */
  lemma AssignCellNeverCarriesCursor(s: seq<Cell>, i: int, j: int)
    requires 0 <= i < |s| && 0 <= j < |s| && i != j
    ensures !AssignCell(s, i, j)[i].Cursor() && AssignCell(s, i, j)[i].character == s[j].character
  {
  }

  datatype ScrollMode = ScrollUp | ScrollDown

  /** What scrollGrid demands so that every cell it touches is in the list:
      the region starts in the grid, its columns are [col, width), and for an
      upward scroll its last row, which is cleared without a check, exists. A
      downward scroll may reach past the last row: those rows fail the
      isValidCell check and are skipped. */
  predicate ScrollArgs(mode: ScrollMode, cols: int, rows: int, col: int, row: int, width: int, height: int) {
    0 <= col && width <= cols && 0 <= row && 1 <= height &&
    (mode == ScrollUp ==> row + height <= rows) &&
    (mode == ScrollDown ==> row < rows)
  }

  /** scrollGrid(ScrollUp, ...): in columns [col, width), each cell of rows
      [row, row+height) whose lower neighbour is in the list takes a copy of
      that neighbour as it was before the scroll, and then row row+height-1 is
      cleared. */
  function ScrolledUp(s: seq<Cell>, p: Palette, cols: int, rows: int,
                      col: int, row: int, width: int, height: int): (r: seq<Cell>)
    requires 0 < cols && |s| == rows * cols
    requires ScrollArgs(ScrollUp, cols, rows, col, row, width, height)
    ensures |r| == |s|
  {
    seq(|s|, k requires 0 <= k < |s| =>
      if col <= k % cols < width && k / cols == row + height - 1 then s[k].Cleared(p)
      else if col <= k % cols < width && row <= k / cols < row + height && k + cols < |s|
      then s[k].CopyFrom(s[k + cols])
      else s[k])
  }

  /** scrollGrid(ScrollDown, ...): in columns [col, width), each cell of rows
      (row, row+height) takes a copy of the cell above it as it was before the
      scroll, and then row row is cleared. */
  function ScrolledDown(s: seq<Cell>, p: Palette, cols: int, rows: int,
                        col: int, row: int, width: int, height: int): (r: seq<Cell>)
    requires 0 < cols && |s| == rows * cols
    requires ScrollArgs(ScrollDown, cols, rows, col, row, width, height)
    ensures |r| == |s|
  {
    seq(|s|, k requires 0 <= k < |s| =>
      if col <= k % cols < width && k / cols == row then s[k].Cleared(p)
      else if col <= k % cols < width && row < k / cols < row + height && cols <= k
      then s[k].CopyFrom(s[k - cols])
      else s[k])
  }

  /** Division recovers the column and row of any position. */
  lemma DivMod(cols: int, k: int)
    requires 0 < cols
    ensures k == Index(cols, k % cols, k / cols) && 0 <= k % cols < cols
  {
  }

  /** The cells the upward copy loop has visited when it is at (x, y). */
  ghost predicate UpVisited(cols: int, col: int, width: int, row: int, y: int, x: int, k: int)
    requires 0 < cols
  {
    col <= k % cols < width && (row <= k / cols < y || (k / cols == y && k % cols < x))
  }

  /** The list while the upward copy loop is at (x, y). */
  ghost function UpCopying(s: seq<Cell>, cols: int, col: int, width: int, row: int, y: int, x: int): (r: seq<Cell>)
    requires 0 < cols
    ensures |r| == |s|
  {
    seq(|s|, k requires 0 <= k < |s| =>
      if UpVisited(cols, col, width, row, y, x, k) && k + cols < |s| then s[k].CopyFrom(s[k + cols]) else s[k])
  }

  /** The cells the downward copy loop has visited when it is at (x, y). */
  ghost predicate DownVisited(cols: int, col: int, width: int, row: int, height: int, y: int, x: int, k: int)
    requires 0 < cols
  {
    col <= k % cols < width && (y < k / cols < row + height || (k / cols == y && k % cols < x))
  }

  /** The list while the downward copy loop is at (x, y). */
  ghost function DownCopying(s: seq<Cell>, cols: int, col: int, width: int, row: int, height: int, y: int, x: int): (r: seq<Cell>)
    requires 0 < cols
    ensures |r| == |s|
  {
    seq(|s|, k requires 0 <= k < |s| =>
      if DownVisited(cols, col, width, row, height, y, x, k) && cols <= k then s[k].CopyFrom(s[k - cols]) else s[k])
  }

  /** The list while a loop clearing columns [col, x) of row y is at x. */
  ghost function Clearing(s: seq<Cell>, p: Palette, cols: int, col: int, x: int, y: int): (r: seq<Cell>)
    requires 0 < cols
    ensures |r| == |s|
  {
    seq(|s|, k requires 0 <= k < |s| => if col <= k % cols < x && k / cols == y then s[k].Cleared(p) else s[k])
  }

  /** One step of the upward copy loop visits exactly the cell at (x, y). */
  lemma UpVisitedStep(cols: int, col: int, width: int, row: int, y: int, x: int, k: int)
    requires 0 < cols && col <= x < width && 0 <= x < cols && row <= y
    ensures UpVisited(cols, col, width, row, y, x + 1, k) <==>
            UpVisited(cols, col, width, row, y, x, k) || k == Index(cols, x, y)
  {
    IndexCoordinates(cols, x, y);
    DivMod(cols, k);
  }

  lemma UpCopyStep(s: seq<Cell>, cols: int, col: int, width: int, row: int, y: int, x: int)
    requires 0 < cols && col <= x < width && 0 <= x < cols && row <= y
    requires 0 <= Index(cols, x, y) < |s|
    ensures var i := Index(cols, x, y);
      UpCopying(s, cols, col, width, row, y, x + 1) ==
        if i + cols < |s| then UpCopying(s, cols, col, width, row, y, x)[i := s[i].CopyFrom(s[i + cols])]
        else UpCopying(s, cols, col, width, row, y, x)
  {
    var i := Index(cols, x, y);
    var a := UpCopying(s, cols, col, width, row, y, x);
    var b := UpCopying(s, cols, col, width, row, y, x + 1);
    forall k | 0 <= k < |s|
      ensures b[k] == if k == i && i + cols < |s| then s[i].CopyFrom(s[i + cols]) else a[k]
    {
      UpVisitedStep(cols, col, width, row, y, x, k);
    }
  }

  /** The cell the upward copy loop reads at (x, y) has not been written yet. */
  lemma UpSourceUnchanged(s: seq<Cell>, cols: int, col: int, width: int, row: int, y: int, x: int)
    requires 0 < cols && 0 <= x < cols
    requires 0 <= Index(cols, x, y) && Index(cols, x, y) + cols < |s|
    ensures UpCopying(s, cols, col, width, row, y, x)[Index(cols, x, y) + cols] == s[Index(cols, x, y) + cols]
  {
    IndexCoordinates(cols, x, y + 1);
    assert Index(cols, x, y + 1) == Index(cols, x, y) + cols;
  }

  lemma UpRowDone(s: seq<Cell>, cols: int, col: int, width: int, row: int, y: int)
    requires 0 < cols && row <= y
    ensures UpCopying(s, cols, col, width, row, y, if width < col then col else width) ==
            UpCopying(s, cols, col, width, row, y + 1, col)
  {
  }

  lemma DownCopyStep(s: seq<Cell>, cols: int, col: int, width: int, row: int, height: int, y: int, x: int)
    requires 0 < cols && col <= x < width && 0 <= x < cols && 0 <= row < y < row + height
    ensures var i := Index(cols, x, y);
      cols <= i &&
      DownCopying(s, cols, col, width, row, height, y, x + 1) ==
        if i < |s| then DownCopying(s, cols, col, width, row, height, y, x)[i := s[i].CopyFrom(s[i - cols])]
        else DownCopying(s, cols, col, width, row, height, y, x)
    ensures Index(cols, x, y) < |s| ==>
      DownCopying(s, cols, col, width, row, height, y, x)[Index(cols, x, y) - cols] == s[Index(cols, x, y) - cols]
  {
    var i := Index(cols, x, y);
    IndexCoordinates(cols, x, y);
    IndexCoordinates(cols, x, y - 1);
    assert Index(cols, x, y - 1) == i - cols;
    MulMonotonic(1, y, cols);
    var a := DownCopying(s, cols, col, width, row, height, y, x);
    var b := DownCopying(s, cols, col, width, row, height, y, x + 1);
    forall k | 0 <= k < |s|
      ensures b[k] == if k == i then s[i].CopyFrom(s[i - cols]) else a[k]
    {
      if k != i {
        DivMod(cols, k);
        assert !(k / cols == y && k % cols == x);
      }
    }
  }

  /** One turn of the downward copy loop at (x, y), stated on the list
      before and after it: the cell is copied from the row above when both
      positions pass the bound check, and kept otherwise. */
  lemma DownCopyCell(s: seq<Cell>, cols: int, col: int, width: int, row: int, height: int, y: int, x: int,
                     before: seq<Cell>, after: seq<Cell>, done: bool)
    requires 0 < cols && col <= x < width && 0 <= x < cols && 0 <= row < y < row + height
    requires before == DownCopying(s, cols, col, width, row, height, y, x)
    requires done == (Index(cols, x, y - 1) < |before| && Index(cols, x, y) < |before|)
    requires done ==> after == before[Index(cols, x, y) := before[Index(cols, x, y)].CopyFrom(before[Index(cols, x, y - 1)])]
    requires !done ==> after == before
    ensures after == DownCopying(s, cols, col, width, row, height, y, x + 1)
  {
    DownCopyStep(s, cols, col, width, row, height, y, x);
    IndexCoordinates(cols, x, y);
    IndexCoordinates(cols, x, y - 1);
    assert Index(cols, x, y - 1) == Index(cols, x, y) - cols;
  }

  lemma DownRowDone(s: seq<Cell>, cols: int, col: int, width: int, row: int, height: int, y: int)
    requires 0 < cols && y < row + height
    ensures DownCopying(s, cols, col, width, row, height, y, if width < col then col else width) ==
            DownCopying(s, cols, col, width, row, height, y - 1, col)
  {
  }

  lemma ClearStep(s: seq<Cell>, p: Palette, cols: int, col: int, x: int, y: int)
    requires 0 < cols && col <= x && 0 <= x < cols
    requires 0 <= Index(cols, x, y) < |s|
    ensures var i := Index(cols, x, y);
      Clearing(s, p, cols, col, x + 1, y) == Clearing(s, p, cols, col, x, y)[i := s[i].Cleared(p)]
  {
    IndexCoordinates(cols, x, y);
    forall k | 0 <= k < |s|
      ensures (col <= k % cols < x + 1 && k / cols == y) <==>
              (col <= k % cols < x && k / cols == y) || k == Index(cols, x, y)
    {
      DivMod(cols, k);
    }
  }

  /** The upward scroll is what its two loops leave. */
  lemma ScrolledUpByLoops(s: seq<Cell>, p: Palette, cols: int, rows: int,
                          col: int, row: int, width: int, height: int)
    requires 0 < cols && |s| == rows * cols
    requires ScrollArgs(ScrollUp, cols, rows, col, row, width, height)
    ensures ScrolledUp(s, p, cols, rows, col, row, width, height) ==
            Clearing(UpCopying(s, cols, col, width, row, row + height, col), p, cols, col, width, row + height - 1)
  {
  }

  /** The downward scroll is what its two loops leave. */
  lemma ScrolledDownByLoops(s: seq<Cell>, p: Palette, cols: int, rows: int,
                            col: int, row: int, width: int, height: int)
    requires 0 < cols && |s| == rows * cols
    requires ScrollArgs(ScrollDown, cols, rows, col, row, width, height)
    ensures ScrolledDown(s, p, cols, rows, col, row, width, height) ==
            Clearing(DownCopying(s, cols, col, width, row, height, row, col), p, cols, col, width, row)
  {
  }

  function Scrolled(mode: ScrollMode, s: seq<Cell>, p: Palette, cols: int, rows: int,
                    col: int, row: int, width: int, height: int): (r: seq<Cell>)
    requires 0 < cols && |s| == rows * cols
    requires ScrollArgs(mode, cols, rows, col, row, width, height)
    ensures |r| == |s|
  {
    if mode == ScrollUp then ScrolledUp(s, p, cols, rows, col, row, width, height)
    else ScrolledDown(s, p, cols, rows, col, row, width, height)
  }

  /** Cells in rows outside [row, row+height) are never modified by a scroll. */
  lemma ScrollKeepsOtherRows(mode: ScrollMode, s: seq<Cell>, p: Palette, cols: int, rows: int,
                             col: int, row: int, width: int, height: int, k: int)
    requires 0 < cols && |s| == rows * cols
    requires ScrollArgs(mode, cols, rows, col, row, width, height)
    requires 0 <= k < |s| && !(row <= k / cols < row + height)
    ensures Scrolled(mode, s, p, cols, rows, col, row, width, height)[k] == s[k]
  {
  }

  /** Cells in columns outside [col, width) are never modified by a scroll. */
  lemma ScrollKeepsOtherColumns(mode: ScrollMode, s: seq<Cell>, p: Palette, cols: int, rows: int,
                                col: int, row: int, width: int, height: int, k: int)
    requires 0 < cols && |s| == rows * cols
    requires ScrollArgs(mode, cols, rows, col, row, width, height)
    requires 0 <= k < |s| && !(col <= k % cols < width)
    ensures Scrolled(mode, s, p, cols, rows, col, row, width, height)[k] == s[k]
  {
  }

  /** With the full width, an upward scroll of rows [row, row+height) is a
      copy of the flat range one row below followed by clearing the last row
      of the region. */
  lemma {:induction false} ScrolledUpFullWidth(s: seq<Cell>, p: Palette, cols: int, rows: int, row: int, height: int)
    requires 0 < cols && |s| == rows * cols
    requires ScrollArgs(ScrollUp, cols, rows, 0, row, cols, height)
    ensures (IndexInGrid(cols, rows, 0, row + height - 1);
      ScrolledUp(s, p, cols, rows, 0, row, cols, height) ==
      ClearRange(Copied(s, row * cols, (row + height - 1) * cols, cols),
                 (row + height - 1) * cols, (row + height) * cols, p))
  {
    IndexInGrid(cols, rows, 0, row + height - 1);
    var a := ScrolledUp(s, p, cols, rows, 0, row, cols, height);
    var b := ClearRange(Copied(s, row * cols, (row + height - 1) * cols, cols),
                        (row + height - 1) * cols, (row + height) * cols, p);
    forall k | 0 <= k < |s| ensures a[k] == b[k] {
      ScrolledUpFullWidthAt(s, p, cols, rows, row, height, k);
    }
  }

  /** ScrolledUpFullWidth at one position. */
  lemma ScrolledUpFullWidthAt(s: seq<Cell>, p: Palette, cols: int, rows: int, row: int, height: int, k: int)
    requires 0 < cols && |s| == rows * cols && 0 <= k < |s|
    requires ScrollArgs(ScrollUp, cols, rows, 0, row, cols, height)
    requires 0 <= (row + height - 1) * cols <= (row + height) * cols <= |s|
    ensures ScrolledUp(s, p, cols, rows, 0, row, cols, height)[k] ==
      ClearRange(Copied(s, row * cols, (row + height - 1) * cols, cols),
                 (row + height - 1) * cols, (row + height) * cols, p)[k]
  {
    RowOfPosition(cols, rows, k);
    RowsAreRanges(cols, k, row, (row + height - 1));
    RowsAreRanges(cols, k, (row + height - 1), row + height);
    var last := row + height - 1;
    assert last * cols + cols == (row + height) * cols;
    var c := Copied(s, row * cols, last * cols, cols);
    if k / cols == last {
      assert !(row * cols <= k < last * cols) && c[k] == s[k];
    } else if row <= k / cols < last {
      assert k + cols < |s| && c[k] == s[k].CopyFrom(s[k + cols]);
    } else {
      assert !(row * cols <= k < (row + height) * cols);
    }
  }

  /** A full-width upward scroll rewrites every row of its region: the last
      row is cleared and every other cell is a copy of the one below it. */
  lemma RegionScrollUpRewrites(s: seq<Cell>, p: Palette, cols: int, rows: int, row: int, height: int, k: int)
    requires 0 < cols && |s| == rows * cols && 0 <= k < |s|
    requires ScrollArgs(ScrollUp, cols, rows, 0, row, cols, height)
    requires row <= k / cols < row + height
    ensures k / cols != row + height - 1 ==> k + cols < |s|
    ensures ScrolledUp(s, p, cols, rows, 0, row, cols, height)[k] ==
      if k / cols == row + height - 1 then s[k].Cleared(p) else s[k].CopyFrom(s[k + cols])
  {
    RowOfPosition(cols, rows, k);
    if k / cols != row + height - 1 {
      IndexInGrid(cols, rows, k % cols, k / cols + 1);
      assert Index(cols, k % cols, k / cols + 1) == k + cols;
    }
  }

  /** A full-width downward scroll rewrites every row of its region that
      lies in the grid: the first row is cleared and every other cell is a
      copy of the one above it. */
  lemma RegionScrollDownRewrites(s: seq<Cell>, p: Palette, cols: int, rows: int, row: int, height: int, k: int)
    requires 0 < cols && |s| == rows * cols && 0 <= k < |s|
    requires ScrollArgs(ScrollDown, cols, rows, 0, row, cols, height)
    requires row <= k / cols < row + height
    ensures k / cols != row ==> cols <= k
    ensures ScrolledDown(s, p, cols, rows, 0, row, cols, height)[k] ==
      if k / cols == row then s[k].Cleared(p) else s[k].CopyFrom(s[k - cols])
  {
    RowOfPosition(cols, rows, k);
    if k / cols != row {
      MulMonotonic(1, k / cols, cols);
    }
  }

  /** A full-grid upward scroll rewrites every cell: the last row is cleared
      and every other cell is a copy of the one below it. */
  lemma FullScrollUpRewrites(s: seq<Cell>, p: Palette, cols: int, rows: int, k: int)
    requires 0 < cols && 0 < rows && |s| == rows * cols && 0 <= k < |s|
    ensures k / cols != rows - 1 ==> k + cols < |s|
    ensures ScrolledUp(s, p, cols, rows, 0, 0, cols, rows)[k] ==
      if k / cols == rows - 1 then s[k].Cleared(p) else s[k].CopyFrom(s[k + cols])
  {
    RowOfPosition(cols, rows, k);
    if k / cols < rows - 1 {
      IndexInGrid(cols, rows, k % cols, k / cols + 1);
      assert Index(cols, k % cols, k / cols + 1) == k + cols;
    }
  }

  /** A full-grid downward scroll rewrites every cell: the first row is
      cleared and every other cell is a copy of the one above it. */
  lemma FullScrollDownRewrites(s: seq<Cell>, p: Palette, cols: int, rows: int, k: int)
    requires 0 < cols && 0 < rows && |s| == rows * cols && 0 <= k < |s|
    ensures k / cols != 0 ==> cols <= k
    ensures ScrolledDown(s, p, cols, rows, 0, 0, cols, rows)[k] ==
      if k / cols == 0 then s[k].Cleared(p) else s[k].CopyFrom(s[k - cols])
  {
    RowOfPosition(cols, rows, k);
    if k / cols != 0 {
      MulMonotonic(1, k / cols, cols);
    }
  }

  /** Row membership of a flat position is membership of a flat range. */
  lemma RowsAreRanges(cols: int, k: int, lo: int, hi: int)
    requires 0 < cols && 0 <= k
    ensures (lo <= k / cols < hi) <==> (lo * cols <= k < hi * cols)
  {
    var y := k / cols;
    assert k == y * cols + k % cols && 0 <= k % cols < cols;
    if lo <= y {
      MulMonotonic(lo, y, cols);
    } else {
      MulMonotonic(y + 1, lo, cols);
    }
    if y < hi {
      MulMonotonic(y + 1, hi, cols);
    } else {
      MulMonotonic(hi, y, cols);
    }
  }

  /** What deselectCells does to one cell: a selected cell loses its select
      bit, every other attribute bit, the character, the colours and the
      cursor style stay as they were. */
  function Unselected(c: Cell): (r: Cell)
    ensures !r.Select()
    ensures r.attributes & !AttrSelect == c.attributes & !AttrSelect
    ensures r == c.(attributes := r.attributes)
  {
    if c.Select() then c.SetSelect(false) else c
  }

  /** deselectCells: every cell of the list unselected. */
  function Deselected(s: seq<Cell>): (r: seq<Cell>)
    ensures |r| == |s|
    ensures forall k :: 0 <= k < |s| ==> r[k] == Unselected(s[k])
  {
    seq(|s|, k requires 0 <= k < |s| => Unselected(s[k]))
  }

  /** Deselecting twice is deselecting once. */
  lemma DeselectedIdempotent(s: seq<Cell>)
    ensures Deselected(Deselected(s)) == Deselected(s)
  {
  }

  class CellArray {
    /** the screen's default colours, which new and cleared cells take */
    const palette: Palette
    var cols: int
    var rows: int
    var cells: seq<Cell>

    /** An empty grid: no columns, no rows, no cells. */
    constructor (p: Palette)
      ensures palette == p && cols == 0 && rows == 0 && cells == []
    {
      palette := p;
      cols := 0;
      rows := 0;
      cells := [];
    }

    /** The grid holds exactly rows*cols cells. */
    predicate Valid()
      reads this
    {
      0 < cols && 0 < rows && |cells| == rows * cols
    }

    function Count(): nat
      reads this
    {
      |cells|
    }

    function IndexOf(col: int, row: int): int
      reads this
    {
      Index(cols, col, row)
    }

    predicate IsValid(col: int, row: int)
      reads this
    {
      IsValidCell(cols, |cells|, col, row)
    }

    /** cell(col, row): addresses the list at indexOf(col, row). */
    function CellAt(col: int, row: int): Cell
      reads this
      requires 0 <= IndexOf(col, row) < |cells|
    {
      cells[IndexOf(col, row)]
    }

    /** cell(col, row).clear() on the cell at flat position i: that cell
        takes the palette's defaults and nothing else changes. */
    method ClearAt(i: int)
      requires 0 <= i < |cells|
      modifies this
      ensures cols == old(cols) && rows == old(rows)
      ensures cells == old(cells)[i := old(cells)[i].Cleared(palette)]
    {
      cells := cells[i := cells[i].Cleared(palette)];
    }

    /** sync(): grow or shrink the list at its tail to rows*cols cells. */
    method Sync()
      modifies this
      ensures cols == old(cols) && rows == old(rows)
      ensures cells == Synced(old(cells), rows * cols, palette)
    {
      var n := rows * cols;
      if n > 0 {
        var diff := n - |cells|;
        ghost var c0 := cells;
        while diff != 0
          invariant cols == old(cols) && rows == old(rows)
          invariant |cells| + diff == n
          invariant cells == Synced(c0, |cells|, palette)
          invariant diff > 0 ==> |c0| <= |cells|
          invariant diff < 0 ==> 0 < n <= |cells| <= |c0|
          decreases if diff > 0 then diff else -diff
        {
          if diff > 0 {
            cells := cells + [NewCell(palette)];
            diff := diff - 1;
          } else {
            cells := cells[..|cells| - 1];
            diff := diff + 1;
          }
        }
      }
    }

    method SetCols(c: int)
      modifies this
      ensures cols == c && rows == old(rows)
      ensures cells == Synced(old(cells), old(rows) * c, palette)
    {
      cols := c;
      Sync();
    }

    method SetRows(r: int)
      modifies this
      ensures cols == old(cols) && rows == r
      ensures cells == Synced(old(cells), r * old(cols), palette)
    {
      rows := r;
      Sync();
    }

    /** setGrid(c, r): setCols(c) then setRows(r). */
    method SetGrid(c: int, r: int)
      modifies this
      ensures cols == c && rows == r
      ensures cells == Synced(Synced(old(cells), old(rows) * c, palette), r * c, palette)
      ensures c > 0 && r > 0 ==> Valid()
    {
      SetCols(c);
      SetRows(r);
      if c > 0 && r > 0 {
        MulMonotonic(1, r, c);
      }
    }

    /** scrollGrid(mode, col, row, width, height), the final sync included
        (it changes nothing on a grid of rows*cols cells). */
    method ScrollGrid(mode: ScrollMode, col: int, row: int, width: int, height: int)
      requires Valid() && ScrollArgs(mode, cols, rows, col, row, width, height)
      modifies this
      ensures Valid() && cols == old(cols) && rows == old(rows)
      ensures cells == Scrolled(mode, old(cells), palette, cols, rows, col, row, width, height)
    {
      if mode == ScrollUp {
        ScrollUpLoops(col, row, width, height);
      } else {
        ScrollDownLoops(col, row, width, height);
      }
      Sync();
    }

    method ScrollUpLoops(col: int, row: int, width: int, height: int)
      requires Valid() && ScrollArgs(ScrollUp, cols, rows, col, row, width, height)
      modifies this
      ensures Valid() && cols == old(cols) && rows == old(rows)
      ensures cells == ScrolledUp(old(cells), palette, cols, rows, col, row, width, height)
    {
      ghost var c0 := cells;
      /* copy region up */
      var y := row;
      while y < row + height
        invariant row <= y <= row + height
        invariant Valid() && cols == old(cols) && rows == old(rows)
        invariant cells == UpCopying(c0, cols, col, width, row, y, col)
      {
        CopyRowUp(c0, col, row, width, y);
        y := y + 1;
      }
      /* new up the bottom row */
      ClearRow(col, width, row + height - 1);
      ScrolledUpByLoops(c0, palette, cols, rows, col, row, width, height);
    }

    /** One row of the upward copy: columns [col, width) of row y take the
        cells of row y+1 where both are in the list. */
    method CopyRowUp(ghost c0: seq<Cell>, col: int, row: int, width: int, y: int)
      requires Valid() && 0 <= col && width <= cols && 0 <= row <= y < rows
      requires cells == UpCopying(c0, cols, col, width, row, y, col)
      modifies this
      ensures Valid() && cols == old(cols) && rows == old(rows)
      ensures cells == UpCopying(c0, cols, col, width, row, y + 1, col)
    {
      var x := col;
      while x < width
        invariant col <= x && (x <= width || x == col)
        invariant Valid() && cols == old(cols) && rows == old(rows)
        invariant cells == UpCopying(c0, cols, col, width, row, y, x)
      {
        CopyCellUp(c0, col, row, width, y, x);
        x := x + 1;
      }
      UpRowDone(c0, cols, col, width, row, y);
    }

    /** One turn of the upward copy: cell (x, y) takes the cell of row y+1
        when both pass the bound check. */
    method CopyCellUp(ghost c0: seq<Cell>, col: int, row: int, width: int, y: int, x: int)
      requires Valid() && 0 <= col <= x < width <= cols && 0 <= row <= y < rows
      requires cells == UpCopying(c0, cols, col, width, row, y, x)
      modifies this
      ensures Valid() && cols == old(cols) && rows == old(rows)
      ensures cells == UpCopying(c0, cols, col, width, row, y, x + 1)
    {
      IndexInGrid(cols, rows, x, y);
      UpCopyStep(c0, cols, col, width, row, y, x);
      assert Index(cols, x, y + 1) == Index(cols, x, y) + cols;
      if IsValid(x, y + 1) && IsValid(x, y) {
        UpSourceUnchanged(c0, cols, col, width, row, y, x);
        var i := IndexOf(x, y);
        var from := cells[IndexOf(x, y + 1)];
        cells := cells[i := cells[i].CopyFrom(from)];
      }
    }

    /** clear() applied to columns [col, width) of row y. */
    method ClearRow(col: int, width: int, y: int)
      requires Valid() && 0 <= col && width <= cols && 0 <= y < rows
      modifies this
      ensures Valid() && cols == old(cols) && rows == old(rows)
      ensures cells == Clearing(old(cells), palette, cols, col, width, y)
    {
      ghost var c1 := cells;
      var x := col;
      while x < width
        invariant col <= x && (x <= width || x == col)
        invariant Valid() && cols == old(cols) && rows == old(rows)
        invariant cells == Clearing(c1, palette, cols, col, x, y)
      {
        IndexInGrid(cols, rows, x, y);
        ClearStep(c1, palette, cols, col, x, y);
        var i := IndexOf(x, y);
        cells := cells[i := cells[i].Cleared(palette)];
        x := x + 1;
      }
    }

    method ScrollDownLoops(col: int, row: int, width: int, height: int)
      requires Valid() && ScrollArgs(ScrollDown, cols, rows, col, row, width, height)
      modifies this
      ensures Valid() && cols == old(cols) && rows == old(rows)
      ensures cells == ScrolledDown(old(cells), palette, cols, rows, col, row, width, height)
    {
      ghost var c0 := cells;
      /* copy region down, from the bottom of the region up */
      var y := row + height - 1;
      while y > row
        invariant row <= y <= row + height - 1
        invariant Valid() && cols == old(cols) && rows == old(rows)
        invariant cells == DownCopying(c0, cols, col, width, row, height, y, col)
      {
        CopyRowDown(c0, col, row, width, height, y);
        y := y - 1;
      }
      /* new up the top row */
      ClearRow(col, width, row);
      ScrolledDownByLoops(c0, palette, cols, rows, col, row, width, height);
    }

    /** One row of the downward copy: columns [col, width) of row y take the
        cells of row y-1 where both are in the list. */
    method CopyRowDown(ghost c0: seq<Cell>, col: int, row: int, width: int, height: int, y: int)
      requires Valid() && 0 <= col && width <= cols && 0 <= row < y < row + height
      requires cells == DownCopying(c0, cols, col, width, row, height, y, col)
      modifies this
      ensures Valid() && cols == old(cols) && rows == old(rows)
      ensures cells == DownCopying(c0, cols, col, width, row, height, y - 1, col)
    {
      var x := col;
      while x < width
        invariant col <= x && (x <= width || x == col)
        invariant Valid() && cols == old(cols) && rows == old(rows)
        invariant cells == DownCopying(c0, cols, col, width, row, height, y, x)
      {
        CopyCellDown(c0, col, row, width, height, y, x);
        x := x + 1;
      }
      DownRowDone(c0, cols, col, width, row, height, y);
    }

    /** One turn of the downward copy: cell (x, y) takes the cell of row y-1
        when both pass the bound check. */
    method CopyCellDown(ghost c0: seq<Cell>, col: int, row: int, width: int, height: int, y: int, x: int)
      requires Valid() && 0 <= col <= x < width <= cols && 0 <= row < y < row + height
      requires cells == DownCopying(c0, cols, col, width, row, height, y, x)
      modifies this
      ensures Valid() && cols == old(cols) && rows == old(rows)
      ensures cells == DownCopying(c0, cols, col, width, row, height, y, x + 1)
    {
      ghost var before := cells;
      var done := IsValid(x, y - 1) && IsValid(x, y);
      if done {
        var i := IndexOf(x, y);
        var from := cells[IndexOf(x, y - 1)];
        cells := cells[i := cells[i].CopyFrom(from)];
      }
      DownCopyCell(c0, cols, col, width, row, height, y, x, before, cells, done);
    }

    /** deselectCells(): clear the select bit of every selected cell. */
    method DeselectCells()
      requires Valid()
      modifies this
      ensures Valid() && cols == old(cols) && rows == old(rows)
      ensures cells == Deselected(old(cells))
    {
      ghost var c0 := cells;
      var y := 0;
      while y < rows
        invariant 0 <= y <= rows
        invariant Valid() && cols == old(cols) && rows == old(rows) && |cells| == |c0|
        invariant forall k :: 0 <= k < |c0| ==>
          cells[k] == (if k < y * cols then Deselected(c0)[k] else c0[k])
      {
        var x := 0;
        while x < cols
          invariant 0 <= x <= cols
          invariant Valid() && cols == old(cols) && rows == old(rows) && |cells| == |c0|
          invariant forall k :: 0 <= k < |c0| ==>
            cells[k] == (if k < y * cols + x then Deselected(c0)[k] else c0[k])
        {
          IndexInGrid(cols, rows, x, y);
          var i := IndexOf(x, y);
          var c := cells[i];
          if c.Select() {
            cells := cells[i := c.SetSelect(false)];
          }
          x := x + 1;
        }
        assert y * cols + cols == (y + 1) * cols;
        y := y + 1;
      }
      assert y * cols == |c0|;
    }
  }

  /** setGrid with positive dimensions leaves exactly cols*rows cells. */
  lemma SetGridCount(s: seq<Cell>, oldRows: int, c: int, r: int, p: Palette)
    requires c > 0 && r > 0
    ensures |Synced(Synced(s, oldRows * c, p), r * c, p)| == c * r
  {
  }
}
