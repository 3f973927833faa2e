# komport2 VT102 terminal engine in Dafny

This project models the terminal-emulation core of komport2, a serial
terminal program. Bytes arriving from the serial line go through a VT102
decoder. The decoder edits a grid of character cells and sends answers
(reports, key sequences) back to the line. The model covers four layers:

- **cells and the cell grid** (`CCharCell`, `CCellArray`): modules `CharCells`
  and `CellArrays`. A cell is a value with a 16-bit attribute set, a character,
  two colours and a cursor style. The grid is a row-major flat list that grows
  and shrinks at its tail; it is the class `CellArray`, whose methods run the
  source's loops (sync, scrollGrid, deselectCells) in place.
- **the screen** (`CScreen`): module `ScreenStates` states each screen operation
  as a function on a `ScreenState` value; the class `Screens.Screen` runs the
  source's loops on its `CellArray` and is proved to leave `Model()` equal to
  that function.
- **the emulation** (`CEmulation` with the `CEmulationVT102` overrides): module
  `Terminal` states every operation as a function on a `Term` value. That
  value holds the screen, the twelve mode flags, the saved cursor, the
  margins, the pending control code, the final byte, the bytes sent, the
  events reported and a fault flag. Where `CEmulation` calls a virtual
  operation, the function calls the VT102 version, so the engine's dispatch
  is reproduced. The class `Emulation.Vt102` holds the same fields and drives
  a `Screen`. Each of its methods is proved to leave `Model()` equal to the
  `Terminal` function.
- **parameters and keys**: module `Params` holds `attributes()`'s parameter
  splitter, the two integer conversions it relies on, and the rendering the
  splitter reads back. Module `Keys` holds the key table of `keyPressEvent`.

Module `TerminalLemmas` proves the decoder's and the commands' properties on
the `Terminal` functions.

Where the source would index its cell list out of range, or would leave the
cursor outside the grid, the model performs no step and sets `fault`. This
happens in four places:
- a region scroll whose margins do not lie in the grid;
- the insert loop of `doChar` starting past the list;
- `?3` or a restore leaving the cursor right of the last column;
- `setGrid` with an empty grid or the cursor outside it.

## Where the model follows the code rather than the description

- SGR 43 sets the foreground colour (src/cemulationVT102.cpp:393), not the
  background.
- `setGrid` sets the bottom margin to `rows`, one past the last row. In origin
  mode a newline on the last row then reaches the region scroll, whose clear
  of row `rows` is out of range; `TerminalLemmas.DefaultMarginInOriginModeFaults`
  states this.
- When the cursor cannot advance and autoWrap is set, `doAdvanceCursor` does a
  carriage return and then a newline only when the carriage return did not
  already do one. Exactly one newline follows, whatever autoNewLine is; the
  description's "carriage return followed by newline" would give two with
  autoNewLine.
- `insLines` ignores the margins and shifts every row below the cursor.
- `doCursorTo` ignores a target outside the grid rather than clamping it. In
  origin mode CSI A does not move a cursor at or above the top margin, and
  CSI B does not move one at or below the bottom margin; a cursor beyond the
  other margin moves toward the region.
- CSI J, K, L and P read their parameter with `QByteArray::toInt` on the whole
  parameter text, so a list such as `1;2` reads as 0.
- ESC c calls the reset stub, which changes nothing.
- The insert loop of `doChar` starts at column `rows()-1`, and `scrollGrid`'s
  column loop runs to `width`, not `col+width`. Both are kept.
- A grid cell is not bounds-checked by `cell()`. Out-of-range use is the fault
  described above.
- `copy` reads the other cell's colours through the reversing accessors, so a
  reversed cell's colours are stored swapped in the copy.

## Model

| member | source | states |
|---|---|---|
| `Bytes.Decimal` | src/cemulationVT102.cpp:284 | the text `%d` writes for a natural number is at least one byte long and made only of digits |
| `Bytes.DecimalRoundTrip` | src/cemulationVT102.cpp:284 | reading back the decimal text written for n gives n |
| `Bytes.UntilNul` | src/cemulationVT102.cpp:890 | the C string seen by `sendAsciiString` is the longest NUL-free prefix, and it stops exactly at the first NUL |
| `Bytes.Text` | src/cemulationVT102.cpp:279-318 | the Latin-1 bytes of a reply string: one byte per character, with the same code |
| `Bytes.DigitByte` | src/cemulationVT102.cpp:284 | the byte written for a decimal digit is a digit byte whose value is that digit |
| `CharCells.FlagsAreDistinctBits` | src/ccharcell.h:46-51 | the six attribute flags are the single bits 1<<0 .. 1<<5 and together make 0x3F |
| `CharCells.PredicatesTestOwnBit` | src/ccharcell.h:59-64 | each of the six predicates tests exactly its own bit |
| `CharCells.AccessorsSwapExactlyWhenReversed` | src/ccharcell.h:69-70 | the colour accessors return the stored colours when reverse is clear and the two swapped when it is set |
| `CharCells.NewCell` | src/ccharcell.cpp:32-50 | a new cell has no attribute, a blank, the default colours and the block-invert style |
| `CharCells.Cell.WithBit` | src/ccharcell.cpp:73-95 | the shared setter pattern: the named bit is set iff b, every other bit and every other field is kept |
| `CharCells.Cell.SetSelect` | src/ccharcell.cpp:73-77 | select reads b afterwards; every other bit and field is kept |
| `CharCells.Cell.SetBold` | src/ccharcell.cpp:79-83 | bold reads b afterwards; every other bit and field is kept |
| `CharCells.Cell.SetReverse` | src/ccharcell.cpp:85-89 | reverse reads b afterwards; every other bit and field is kept |
| `CharCells.Cell.SetUnderline` | src/ccharcell.cpp:91-95 | underline reads b afterwards; every other bit and field is kept |
| `CharCells.Cell.SetBlink` | src/ccharcell.cpp:295-312 | blink reads b afterwards; every other bit and field is kept |
| `CharCells.Cell.SetCursor` | src/ccharcell.cpp:275-293 | the cursor bit reads b and the style is the one given; every other bit and field is kept |
| `CharCells.SetBoldKeepsOtherFlags` | src/ccharcell.cpp:79-83 | setBold leaves the other five flags as they were |
| `CharCells.SetReverseKeepsOtherFlags` | src/ccharcell.cpp:85-89 | setReverse leaves the other five flags as they were |
| `CharCells.SetSelectKeepsOtherFlags` | src/ccharcell.cpp:73-77 | setSelect leaves the other five flags as they were |
| `CharCells.SetCursorKeepsOtherFlags` | src/ccharcell.cpp:275-293 | setCursor leaves the other five flags, the character and the colours as they were |
| `CharCells.Cell.Cleared` | src/ccharcell.cpp:143-151 | clear() leaves no attribute bit (cursor and select included), the underline style, a blank and the palette's colours |
| `CharCells.Cell.CopyFrom` | src/ccharcell.cpp:164-184 | copy takes the other's character and attributes minus the cursor bit, its colours as the accessors show them, and the default style |
| `CharCells.CopyColours` | src/ccharcell.cpp:177-180 | a copy stores the other's colours when reverse is clear and swapped when it is set, so a reversed copy is drawn the other way round |
| `CharCells.CopyTwice` | src/ccharcell.cpp:164-184 | copying twice gives back the original cell minus its cursor bit and with the default style |
| `CellArrays.IndexCoordinates` | src/ccellarray.h:48 | indexOf is row-major: dividing a flat position by cols gives back the row and the remainder the column |
| `CellArrays.IsValidCellHasNoColumnCheck` | src/ccellarray.h:49 | on every grid of two or more rows isValidCell accepts a column past the last one and a negative position |
| `CellArrays.Synced` | src/ccellarray.cpp:103-131 | with n > 0 the list has n cells, the kept prefix is unchanged and the added cells are new default cells; with n <= 0 nothing changes |
| `CellArrays.SyncedIdempotent` | src/ccellarray.cpp:107-112 | a second sync changes nothing, and a sync to the current size changes nothing |
| `CellArrays.ClearRange` | src/ccellarray.cpp:190-195 | the list keeps its length, the cells in the flat range are cleared with the palette and every other cell is kept |
| `CellArrays.Copied` | src/ccellarray.cpp:178-189 | the list keeps its length, each cell in the range becomes a copy of the original cell d positions away, every other cell is kept |
| `CellArrays.AssignCell` | src/ccharcell.cpp:154-161 | assigning a cell of the list to itself changes nothing; assigning another copies it into the target only |
| `CellArrays.AssignCellNeverCarriesCursor` | src/ccharcell.cpp:170-184 | after an assignment from another cell the target has no cursor bit and the source's character |
| `CellArrays.ScrolledUp` | src/ccellarray.cpp:175-196 | the upward scroll keeps the list length |
| `CellArrays.ScrolledDown` | src/ccellarray.cpp:197-218 | the downward scroll keeps the list length |
| `CellArrays.ScrolledUpByLoops` | src/ccellarray.cpp:175-196 | the upward scroll is what the copy loop and then the clear loop of the last region row leave |
| `CellArrays.ScrolledDownByLoops` | src/ccellarray.cpp:197-218 | the downward scroll is what the bottom-up copy loop and then the clear loop of the first region row leave |
| `CellArrays.Scrolled` | src/ccellarray.cpp:173-220 | scrollGrid in either direction keeps the list length |
| `CellArrays.ScrollKeepsOtherRows` | src/ccellarray.cpp:178-218 | a scroll never changes a cell outside rows [row, row+height) |
| `CellArrays.ScrollKeepsOtherColumns` | src/ccellarray.cpp:180-218 | a scroll never changes a cell outside columns [col, width) |
| `CellArrays.ScrolledUpFullWidth` | src/ccellarray.cpp:175-196 | with the full width, the upward scroll copies the flat range one row below and then clears the region's last row |
| `CellArrays.RegionScrollUpRewrites` | src/ccellarray.cpp:175-196 | a full-width upward scroll clears the region's last row and makes every other cell of the region a copy of the one below it |
| `CellArrays.FullScrollUpRewrites` | src/ccellarray.cpp:175-196 | a full-grid upward scroll clears the last row and makes every other cell a copy of the one below it |
| `CellArrays.FullScrollDownRewrites` | src/ccellarray.cpp:197-218 | a full-grid downward scroll clears the first row and makes every other cell a copy of the one above it |
| `CellArrays.RegionScrollDownRewrites` | src/ccellarray.cpp:197-218 | a full-width downward scroll clears the region's first row and makes every other cell of the region in the grid a copy of the one above it |
| `CellArrays.Unselected` | src/ccellarray.cpp:250-253 | a cell loses its select bit and keeps every other bit and field |
| `CellArrays.Deselected` | src/ccellarray.cpp:244-258 | every cell of the list is unselected, in place, with the same length |
| `CellArrays.DeselectedIdempotent` | src/ccellarray.cpp:244-258 | deselecting twice is deselecting once |
| `CellArrays.SetGridCount` | src/ccellarray.h:57 | setCols then setRows with positive dimensions leaves exactly cols*rows cells |
| `CellArrays.CellArray.constructor` | src/ccellarray.cpp:25-31 | a new grid has no columns, no rows and no cells |
| `CellArrays.CellArray.ClearAt` | src/ccellarray.cpp:194 | one cell is cleared with the palette and nothing else changes |
| `CellArrays.CellArray.Sync` | src/ccellarray.cpp:103-131 | the append/take-last loop leaves the list of Synced with the dimensions unchanged |
| `CellArrays.CellArray.SetCols` | src/ccellarray.cpp:82-87 | the column count becomes c and the list is synced to rows*c |
| `CellArrays.CellArray.SetRows` | src/ccellarray.cpp:93-98 | the row count becomes r and the list is synced to r*cols |
| `CellArrays.CellArray.SetGrid` | src/ccellarray.h:57 | setCols then setRows: both syncs in order, and a valid grid when both are positive |
| `CellArrays.CellArray.ScrollGrid` | src/ccellarray.cpp:173-220 | the grid stays valid and its list becomes Scrolled of the old list |
| `CellArrays.CellArray.ScrollUpLoops` | src/ccellarray.cpp:175-196 | the two nested loops leave ScrolledUp of the old list |
| `CellArrays.CellArray.CopyRowUp` | src/ccellarray.cpp:180-188 | one row of the upward copy loop advances the loop state by one row |
| `CellArrays.CellArray.CopyCellUp` | src/ccellarray.cpp:182-187 | one cell of the upward copy loop advances the loop state by one cell |
| `CellArrays.CellArray.ClearRow` | src/ccellarray.cpp:190-194 | the clear loop clears columns [col, width) of one row |
| `CellArrays.CellArray.ScrollDownLoops` | src/ccellarray.cpp:197-218 | the two nested loops leave ScrolledDown of the old list |
| `CellArrays.CellArray.CopyRowDown` | src/ccellarray.cpp:202-210 | one row of the downward copy loop advances the loop state by one row |
| `CellArrays.CellArray.CopyCellDown` | src/ccellarray.cpp:204-209 | one cell of the downward copy loop advances the loop state by one cell |
| `CellArrays.CellArray.DeselectCells` | src/ccellarray.cpp:244-258 | the nested loops leave Deselected of the old list and keep the dimensions |
| `ScreenStates.CursorIndex` | src/ccellarray.h:48 | the cursor cell's flat position lies in the list |
| `ScreenStates.SetCursorPos` | src/cscreen.cpp:133-144 | the move happens iff the flat position is below the count (for a column in the grid, iff row < rows); then the new cell gains the cursor bit, the old one loses it, no other cell and no other field changes |
| `ScreenStates.SetCursorPosKeepsOneCursor` | src/cscreen.cpp:133-144 | after a move exactly one cell, the one under the cursor, carries the cursor bit |
| `ScreenStates.SetCursorPosMakesOneCursor` | src/cscreen.cpp:133-144 | placing the cursor on a grid with no cursor bit leaves exactly one |
| `ScreenStates.ClearEOL` | src/cscreen.cpp:147-153 | only the cells change |
| `ScreenStates.ClearBOL` | src/cscreen.cpp:156-162 | only the cells change |
| `ScreenStates.ClearEOD` | src/cscreen.cpp:165-175 | only the cells change |
| `ScreenStates.ClearBOD` | src/cscreen.cpp:179-189 | only the cells change |
| `ScreenStates.Clear` | src/cscreen.cpp:192-196 | the screen stays good |
| `ScreenStates.ClearEOLClearsRowSuffix` | src/cscreen.cpp:147-153 | clearEOL clears exactly the cells of the cursor row at or right of the cursor column |
| `ScreenStates.ClearBOLClearsRowPrefix` | src/cscreen.cpp:156-162 | clearBOL clears exactly the cells of the cursor row at or left of the cursor column |
| `ScreenStates.ClearEODIsEOLThenRowsBelow` | src/cscreen.cpp:165-175 | clearEOD is clearEOL followed by clearing every row below the cursor |
| `ScreenStates.ClearBODIsRowsAboveThenBOL` | src/cscreen.cpp:179-189 | clearBOD is clearing every row above the cursor followed by clearBOL |
| `ScreenStates.ClearLeavesDefaults` | src/cscreen.cpp:192-196 | clear() leaves the cursor at (0,0) and every cell in the cleared default state |
| `ScreenStates.DelCharStep` | src/cscreen.cpp:201-209 | one pass changes only the cells |
| `ScreenStates.DelChars` | src/cscreen.cpp:199-211 | num passes change only the cells |
| `ScreenStates.DelCharsMore` | src/cscreen.cpp:201-209 | one more pass of delChars is one more DelCharStep |
| `ScreenStates.DelCharStepShiftsRow` | src/cscreen.cpp:201-209 | in one pass the cursor row left of the cursor is kept, each later cell takes its right neighbour and the last column is cleared |
| `ScreenStates.DelCharsKeepsOtherCells` | src/cscreen.cpp:199-211 | whatever the count, no cell outside the cursor-to-end-of-row range changes |
| `ScreenStates.DelCharsClearsLastColumn` | src/cscreen.cpp:199-211 | after at least one pass the last column of the cursor row is cleared |
| `ScreenStates.InsLineStep` | src/cscreen.cpp:216-230 | one pass changes only the cells |
| `ScreenStates.InsLines` | src/cscreen.cpp:214-232 | num passes change only the cells |
| `ScreenStates.InsLinesMore` | src/cscreen.cpp:216-230 | one more pass of insLines is one more InsLineStep |
| `ScreenStates.InsLineStepShiftsDown` | src/cscreen.cpp:216-230 | in one pass rows above the cursor are kept, the cursor row is cleared and each lower row takes the row above |
| `ScreenStates.InsLinesKeepsRowsAbove` | src/cscreen.cpp:214-232 | whatever the count, the rows above the cursor never change |
| `ScreenStates.PutChar` | src/cscreen.cpp:235-243 | only the cells change and the list keeps its length |
| `ScreenStates.PutCharStores` | src/cscreen.cpp:235-243 | the target cell gets the character, the pen colours and the reverse flag, keeps its cursor and select bits, and no other cell changes |
| `ScreenStates.AdvanceCursor` | src/cscreen.cpp:246-254 | the screen stays good |
| `ScreenStates.AdvanceCursorMoves` | src/cscreen.cpp:246-254 | it moves one column right and returns true iff the cursor is left of the last column; otherwise nothing changes |
| `ScreenStates.ScrollUp` | src/cscreen.cpp:257-262 | the cursor position and every field but the cells are kept |
| `ScreenStates.ScrollDown` | src/cscreen.cpp:265-270 | the cursor position and every field but the cells are kept |
| `ScreenStates.ScrollUpKeepsOneCursor` | src/cscreen.cpp:257-262 | after a full upward scroll exactly one cell, under the cursor, carries the cursor bit |
| `ScreenStates.ScrollDownKeepsOneCursor` | src/cscreen.cpp:265-270 | after a full downward scroll exactly one cell, under the cursor, carries the cursor bit |
| `ScreenStates.TrimmedIsCore` | src/cscreen.cpp:125 | the trimmed text is a contiguous part of the original, only whitespace is cut off either end, and none is left at either end |
| `ScreenStates.TrimmedIdempotent` | src/cscreen.cpp:125 | trimming twice is trimming once |
| `ScreenStates.TrimStart` | src/cscreen.cpp:125 | a suffix of the text: everything cut off is whitespace and the result does not start with whitespace |
| `ScreenStates.TrimEnd` | src/cscreen.cpp:125 | a prefix of the text: everything cut off is whitespace and the result does not end with whitespace |
| `ScreenStates.SelectedChars` | src/cscreen.cpp:113-121 | no more characters than cells, and none when no cell is selected |
| `ScreenStates.Gathered` | src/cscreen.cpp:109-123 | nothing is gathered when no cell of the rows read is selected |
| `ScreenStates.SelectedText` | src/cscreen.cpp:107-126 | only the cells change |
| `ScreenStates.SelectedTextDeselects` | src/cscreen.cpp:107-126 | afterwards no cell is selected and nothing but the select bit changed; with nothing selected the text is empty |
| `ScreenStates.SetGrid` | src/cscreen.h:72 | columns and rows become c and r, and the list holds r*c cells when both are positive |
| `ScreenStates.SetCols` | src/cscreen.h:73 | the column count becomes c, and the list holds rows*c cells when both are positive |
| `ScreenStates.SetGridGood` | src/cscreen.h:72 | once the cursor lies inside new positive dimensions, the resized screen is good |
| `Screens.Screen.constructor` | src/cscreen.cpp:24-35 | a screen with an empty grid, the cursor at the origin, white on black, no attributes |
| `Screens.Screen.SetCursorPos` | src/cscreen.cpp:133-144 | the method leaves the state of ScreenStates.SetCursorPos |
| `Screens.Screen.ClearEOL` | src/cscreen.cpp:147-153 | the loop leaves the state of ScreenStates.ClearEOL |
| `Screens.Screen.ClearNext` | src/cscreen.cpp:151 | clearing one more cell extends the cleared range by that cell and changes nothing else |
| `Screens.Screen.ClearBOL` | src/cscreen.cpp:156-162 | the loop leaves the state of ScreenStates.ClearBOL |
| `Screens.Screen.ClearPrevious` | src/cscreen.cpp:160 | clearing one more cell extends the cleared range downwards by that cell and changes nothing else |
| `Screens.Screen.ClearRows` | src/cscreen.cpp:168-174 | the nested loops clear exactly the rows [from, to) |
| `Screens.Screen.ClearRowAfter` | src/cscreen.cpp:170-173 | the inner loop extends the cleared range by one whole row |
| `Screens.Screen.ClearEOD` | src/cscreen.cpp:165-175 | the loops leave the state of ScreenStates.ClearEOD |
| `Screens.Screen.ClearBOD` | src/cscreen.cpp:179-189 | the loops leave the state of ScreenStates.ClearBOD |
| `Screens.Screen.Clear` | src/cscreen.cpp:192-196 | the method leaves the state of ScreenStates.Clear |
| `Screens.Screen.DelCharPass` | src/cscreen.cpp:201-209 | one pass of the outer loop leaves the state of ScreenStates.DelCharStep |
| `Screens.Screen.DelChars` | src/cscreen.cpp:199-211 | the loops leave the state of ScreenStates.DelChars |
| `Screens.Screen.SyncCells` | src/cscreen.cpp:210 | a sync of a grid that holds rows*cols cells changes nothing |
| `Screens.Screen.CopyRowFromAbove` | src/cscreen.cpp:218-225 | one row of insLines' copy loop takes the row above |
| `Screens.Screen.CopyRowsDown` | src/cscreen.cpp:218-225 | the loop copies every row below the cursor, bottom-up, from the row above it as it was before the pass |
| `Screens.Screen.ClearCursorRow` | src/cscreen.cpp:226-229 | the cursor row is cleared left to right |
| `Screens.Screen.InsLinePass` | src/cscreen.cpp:216-230 | one pass of the outer loop leaves the state of ScreenStates.InsLineStep |
| `Screens.Screen.InsLines` | src/cscreen.cpp:214-232 | the loops leave the state of ScreenStates.InsLines |
| `Screens.Screen.PutChar` | src/cscreen.cpp:235-243 | the method leaves the state of ScreenStates.PutChar |
| `Screens.Screen.AdvanceCursor` | src/cscreen.cpp:246-254 | the method leaves the state and result of ScreenStates.AdvanceCursor |
| `Screens.Screen.ScrollUp` | src/cscreen.cpp:257-262 | the method leaves the state of ScreenStates.ScrollUp |
| `Screens.Screen.ScrollDown` | src/cscreen.cpp:265-270 | the method leaves the state of ScreenStates.ScrollDown |
| `Screens.Screen.GatherRow` | src/cscreen.cpp:111-121 | the inner loop appends the selected characters of one row |
| `Screens.Screen.SelectedText` | src/cscreen.cpp:107-126 | the method returns the text and leaves the state of ScreenStates.SelectedText |
| `Screens.Screen.SetGrid` | src/cscreen.h:72 | the method leaves the state of ScreenStates.SetGrid |
| `Screens.Screen.SetCols` | src/cscreen.h:73 | the method leaves the state of ScreenStates.SetCols |
| `Params.DigitsToInt` | src/cemulationVT102.cpp:64 | QString::toInt on a digit run: its value when it fits an int, 0 when it is empty or too large |
| `Params.DigitRun` | src/cemulationVT102.cpp:58-62 | the longest run of digits at the start of the text |
| `Params.Fields` | src/cemulationVT102.cpp:51-79 | no more fields than bytes, and no fields exactly when there is no text |
| `Params.Ordinaries` | src/cemulationVT102.cpp:68-76 | the list of ordinary values has no more entries than there are fields |
| `Params.Extendeds` | src/cemulationVT102.cpp:56-66 | the list of extended values has no more entries than there are fields |
| `Params.SplitCountsFields` | src/cemulationVT102.cpp:51-79 | every field goes to exactly one of the two lists |
| `Params.Attributes` | src/cemulationVT102.cpp:51-79 | the result is true iff a list is non-empty, iff there is any text |
| `Params.FieldsAtQuestion` | src/cemulationVT102.cpp:56-66 | a '?' at n with digits up to m is one extended field, and the fields go on after the byte past the digits |
| `Params.FieldsAtOrdinary` | src/cemulationVT102.cpp:67-76 | any other byte at n starts an ordinary field made of the digits up to m, and the fields go on after the byte past the digits |
| `Params.ValuesAtQuestion` | src/cemulationVT102.cpp:56-66 | from a '?' field on, the extended values are its value followed by those after it, and the ordinary values are those after it |
| `Params.ValuesAtOrdinary` | src/cemulationVT102.cpp:67-76 | from an ordinary field on, the ordinary values are its value followed by those after it, and the extended values are those after it |
| `Params.ReadNothing` | src/cemulationVT102.cpp:53-54 | before the loop nothing is read and every field is still ahead |
| `Params.QuestionStep` | src/cemulationVT102.cpp:56-66 | reading a '?' field appends its value to the extended list and keeps the loop state, one byte past the digits |
| `Params.OrdinaryStep` | src/cemulationVT102.cpp:67-76 | reading an ordinary field appends its value to the ordinary list and keeps the loop state, one byte past the digits |
| `Params.ReadQuestion` | src/cemulationVT102.cpp:56-66 | the '?' step stated at the position and lists the loop goes on with |
| `Params.ReadOrdinary` | src/cemulationVT102.cpp:67-76 | the ordinary step stated at the position and lists the loop goes on with |
| `Params.ReadAll` | src/cemulationVT102.cpp:77-78 | at the end of the text the two lists and the result are those of Attributes |
| `Params.FieldsRender` | src/cemulationVT102.cpp:51-79 | reading back a rendered parameter list gives the same list |
| `Params.AttributesRender` | src/cemulationVT102.cpp:51-79 | the round trip stated on the two lists attributes() fills |
| `Params.ByteArrayToInt` | src/cemulationVT102.cpp:614 | QByteArray::toInt always gives a 32-bit int |
| `Params.ByteArrayToIntOfDigits` | src/cemulationVT102.cpp:614 | on a non-empty digit run QByteArray::toInt agrees with QString::toInt |
| `Params.ByteArrayToIntPadded` | src/cemulationVT102.cpp:614 | digits between blanks read as the value of the digits |
| `Params.ByteArrayToIntDecimal` | src/cemulationVT102.cpp:614 | reading back the decimal text of a value up to 2^31-1 gives the value |
| `Params.ByteArrayToIntPlain` | src/cemulationVT102.cpp:614 | "2" reads 2 |
| `Params.ByteArrayToIntNegative` | src/cemulationVT102.cpp:614 | "-3" reads -3 |
| `Params.ByteArrayToIntRejects` | src/cemulationVT102.cpp:614 | a parameter list "1;2" reads 0 |
| `Params.ByteArrayToIntRejectsJunk` | src/cemulationVT102.cpp:614 | digits followed by a byte that is neither a digit nor whitespace are not a number and read 0 |
| `Params.ByteArrayToIntRejectsQuestion` | src/cemulationVT102.cpp:614 | a '?' parameter reads 0 |
| `Params.ByteArrayToIntStopsAtNul` | src/cemulationVT102.cpp:614 | the text ends at its first NUL |
| `Params.AttributesTwoValues` | src/cemulationVT102.cpp:51-79 | "10;5" gives the ordinary parameters [10, 5] |
| `Params.AttributesExtended` | src/cemulationVT102.cpp:51-79 | "?25" gives the extended parameter [25] |
| `Params.AttributesEmptyFields` | src/cemulationVT102.cpp:51-79 | empty fields read as 0, and no text gives no parameters and false |
| `Keys.Sequence` | src/cemulationVT102.cpp:847-884 | a recognised key answers ESC and its suffix, any other key nothing |
| `Keys.SequenceShape` | src/cemulationVT102.cpp:847-884 | every answer is ESC, '[' or 'O', and ends in '~' or a letter; arrows are exactly the three-byte answers |
| `Keys.ModeAffectsOnlyArrows` | src/cemulationVT102.cpp:847-884 | only the arrows depend on the cursor-key mode, where 'O' replaces '[' |
| `Keys.SequenceInjective` | src/cemulationVT102.cpp:847-884 | different keys send different sequences in either mode |
| `Terminal.CodeNotHandled` | src/cemulationVT102.cpp:91-108 | one Unhandled event is added, showing the code and the final byte, and nothing else changes |
| `Terminal.MoveTo` | src/cscreen.cpp:133-144 | only the screen changes and the state stays sized with the cursor inside |
| `Terminal.CursorTo` | src/cemulationVT102.cpp:111-125 | only the screen changes |
| `Terminal.BaseCursorUp` | src/cemulation.cpp:57-65 | only the screen changes |
| `Terminal.BaseCursorDown` | src/cemulation.cpp:68-76 | only the screen changes |
| `Terminal.BaseCursorLeft` | src/cemulation.cpp:79-86 | only the screen changes |
| `Terminal.BaseCursorRight` | src/cemulation.cpp:89-96 | only the screen changes |
| `Terminal.ClearLine` | src/cemulation.cpp:98-118 | only the screen changes |
| `Terminal.ClearScreen` | src/cemulation.cpp:120-133 | only the screen changes |
| `Terminal.DeleteCharacters` | src/cemulation.cpp:137-140 | only the screen changes |
| `Terminal.InsertLines` | src/cemulation.cpp:143-146 | only the screen changes |
| `Terminal.SaveCursorPos` | src/cemulation.cpp:149-153 | the state stays sized with the cursor inside |
| `Terminal.RestoreCursorPos` | src/cemulation.cpp:156-159 | only the screen and the fault flag change |
| `Terminal.Flash` | src/cemulation.cpp:165-171 | one flash keeps the number of cells |
| `Terminal.FlashedUpTo` | src/cemulation.cpp:165-171 | a flash part way has the full flash at the end and the original at the start |
| `Terminal.VisualBell` | src/cemulation.cpp:162-176 | only the cells change |
| `Terminal.Bell` | src/cemulation.cpp:179-189 | only the screen and the events change |
| `Terminal.ScrollUp` | src/cemulationVT102.cpp:194-204 | only the cells and the fault flag change |
| `Terminal.ScrollDown` | src/cemulationVT102.cpp:207-217 | only the cells and the fault flag change |
| `Terminal.BaseNewLine` | src/cemulation.cpp:204-215 | only the screen and the fault flag change |
| `Terminal.NewLine` | src/cemulationVT102.cpp:220-238 | only the screen and the fault flag change |
| `Terminal.BaseReverseNewLine` | src/cemulation.cpp:218-229 | only the screen and the fault flag change |
| `Terminal.ReverseNewLine` | src/cemulationVT102.cpp:241-259 | only the screen and the fault flag change |
| `Terminal.CarriageReturn` | src/cemulation.cpp:232-240 | only the screen and the fault flag change |
| `Terminal.AdvanceCursor` | src/cemulation.cpp:243-253 | only the screen and the fault flag change |
| `Terminal.InsertShift` | src/cemulation.cpp:258-266 | only the cells and the fault flag change |
| `Terminal.DoChar` | src/cemulation.cpp:256-269 | only the screen and the fault flag change |
| `Terminal.SetGrid` | src/cemulationVT102.cpp:261-266 | a state without fault is sized with the cursor inside |
| `Terminal.SetCols` | src/cemulation.h:111 | only the screen and the fault flag change |
| `Terminal.Count` | src/cemulationVT102.cpp:128-140 | a move count is at least one |
| `Terminal.UpStep` | src/cemulationVT102.cpp:128-140 | only the screen changes |
| `Terminal.UpTimes` | src/cemulationVT102.cpp:128-140 | only the screen changes |
| `Terminal.DownStep` | src/cemulationVT102.cpp:143-155 | only the screen changes |
| `Terminal.DownTimes` | src/cemulationVT102.cpp:143-155 | only the screen changes |
| `Terminal.LeftTimes` | src/cemulationVT102.cpp:158-167 | only the screen changes |
| `Terminal.RightTimes` | src/cemulationVT102.cpp:170-179 | only the screen changes |
| `Terminal.CursorUp` | src/cemulationVT102.cpp:128-140 | the state stays sized with the cursor inside |
| `Terminal.CursorDown` | src/cemulationVT102.cpp:143-155 | the state stays sized with the cursor inside |
| `Terminal.CursorLeft` | src/cemulationVT102.cpp:158-167 | the state stays sized with the cursor inside |
| `Terminal.CursorRight` | src/cemulationVT102.cpp:170-179 | the state stays sized with the cursor inside |
| `Terminal.Sgr` | src/cemulationVT102.cpp:338-409 | only the pen of the screen and the events change |
| `Terminal.SgrAll` | src/cemulationVT102.cpp:336-410 | only the screen and the events change |
| `Terminal.SgrAllStep` | src/cemulationVT102.cpp:333-410 | applying one more value of the list is one more pass of the loop |
| `Terminal.Graphics` | src/cemulationVT102.cpp:327-412 | the state stays sized with the cursor inside |
| `Terminal.Mode` | src/cemulationVT102.cpp:449-469 | only the modes and the events change |
| `Terminal.ExtMode` | src/cemulationVT102.cpp:470-496 | only the modes, the events, the screen and the fault flag change |
| `Terminal.ModeAll` | src/cemulationVT102.cpp:447-470 | only the modes and the events change |
| `Terminal.ExtModeAll` | src/cemulationVT102.cpp:470-497 | only the modes, the events, the screen and the fault flag change |
| `Terminal.SetModes` | src/cemulationVT102.cpp:442-557 | the state stays sized with the cursor inside |
| `Terminal.Report` | src/cemulationVT102.cpp:269-305 | only the output and the events change |
| `Terminal.ReportStatus` | src/cemulationVT102.cpp:274-292 | the ordinary parameter part of the report changes only the output and the events |
| `Terminal.ReportExtended` | src/cemulationVT102.cpp:293-304 | the extended parameter part of the report changes only the output and the events |
| `Terminal.DeviceAttributes` | src/cemulationVT102.cpp:308-324 | only the output and the events change |
| `Terminal.SetScrollRegion` | src/cemulationVT102.cpp:560-572 | only the margins and the events change |
| `Terminal.CursorPosition` | src/cemulationVT102.cpp:576-589 | only the screen changes |
| `Terminal.EraseInDisplay` | src/cemulationVT102.cpp:612-628 | only the screen changes, and any value but 0, 1 and 2 changes nothing |
| `Terminal.EraseInLine` | src/cemulationVT102.cpp:632-648 | any value but 0, 1 and 2 changes nothing |
| `Terminal.Csi` | src/cemulationVT102.cpp:592-688 | the state stays sized with the cursor inside |
| `Terminal.EscAction` | src/cemulationVT102.cpp:724-762 | the state stays sized with the cursor inside |
| `Terminal.LeadIn` | src/cemulationVT102.cpp:691-799 | the pending code keeps its shape (at most 25 bytes between bytes), and the byte is either swallowed (NUL returned) or passed on with the state untouched |
| `Terminal.Control` | src/cemulationVT102.cpp:806-833 | the state stays sized with the cursor inside |
| `Terminal.Receive` | src/cemulationVT102.cpp:802-835 | the code keeps its shape and the final byte is forgotten |
| `Terminal.ReceiveAll` | src/cemulationVT102.cpp:893-897 | the state stays valid over any run of bytes |
| `Terminal.KeyPress` | src/cemulationVT102.cpp:838-902 | the state stays valid |
| `Emulation.ScanDigits` | src/cemulationVT102.cpp:59-63 | the digit loop stops at the end of a maximal run of digits, never past the text, and collects exactly the digits it passed |
| `Emulation.ParseAttributes` | src/cemulationVT102.cpp:51-79 | the loop returns exactly Params.Attributes of the code |
| `Emulation.Vt102.constructor` | src/cemulationVT102.cpp:36-44 | a fresh screen and the state Terminal.Initial: the constructors' flag defaults, margins 0, nothing pending |
| `Emulation.Vt102.CursorTo` | src/cemulationVT102.cpp:111-125 | leaves the state of Terminal.CursorTo |
| `Emulation.Vt102.BaseCursorUp` | src/cemulation.cpp:57-65 | leaves the state of Terminal.BaseCursorUp |
| `Emulation.Vt102.BaseCursorDown` | src/cemulation.cpp:68-76 | leaves the state of Terminal.BaseCursorDown |
| `Emulation.Vt102.BaseCursorLeft` | src/cemulation.cpp:79-86 | leaves the state of Terminal.BaseCursorLeft |
| `Emulation.Vt102.BaseCursorRight` | src/cemulation.cpp:89-96 | leaves the state of Terminal.BaseCursorRight |
| `Emulation.Vt102.ClearLine` | src/cemulation.cpp:98-118 | leaves the state of Terminal.ClearLine |
| `Emulation.Vt102.ClearScreen` | src/cemulation.cpp:120-133 | leaves the state of Terminal.ClearScreen |
| `Emulation.Vt102.EraseInDisplay` | src/cemulationVT102.cpp:615-626 | the switch leaves the state of Terminal.EraseInDisplay |
| `Emulation.Vt102.EraseInLine` | src/cemulationVT102.cpp:635-646 | the switch leaves the state of Terminal.EraseInLine |
| `Emulation.Vt102.DeleteCharacters` | src/cemulation.cpp:137-140 | leaves the state of Terminal.DeleteCharacters |
| `Emulation.Vt102.InsertLines` | src/cemulation.cpp:143-146 | leaves the state of Terminal.InsertLines |
| `Emulation.Vt102.SaveCursorPos` | src/cemulation.cpp:149-153 | leaves the state of Terminal.SaveCursorPos |
| `Emulation.Vt102.RestoreCursorPos` | src/cemulation.cpp:156-159 | leaves the state of Terminal.RestoreCursorPos |
| `Emulation.Vt102.FlashRow` | src/cemulation.cpp:167-170 | the inner loop flips the reverse bit of one row |
| `Emulation.Vt102.FlashPass` | src/cemulation.cpp:165-171 | the nested loops flip the reverse bit of every cell |
| `Emulation.Vt102.VisualBell` | src/cemulation.cpp:162-176 | leaves the state of Terminal.VisualBell |
| `Emulation.Vt102.Bell` | src/cemulation.cpp:179-189 | leaves the state of Terminal.Bell |
| `Emulation.Vt102.ScrollUp` | src/cemulationVT102.cpp:194-204 | leaves the state of Terminal.ScrollUp |
| `Emulation.Vt102.ScrollDown` | src/cemulationVT102.cpp:207-217 | leaves the state of Terminal.ScrollDown |
| `Emulation.Vt102.BaseNewLine` | src/cemulation.cpp:204-215 | leaves the state of Terminal.BaseNewLine |
| `Emulation.Vt102.NewLine` | src/cemulationVT102.cpp:220-238 | leaves the state of Terminal.NewLine |
| `Emulation.Vt102.BaseReverseNewLine` | src/cemulation.cpp:218-229 | leaves the state of Terminal.BaseReverseNewLine |
| `Emulation.Vt102.ReverseNewLine` | src/cemulationVT102.cpp:241-259 | leaves the state of Terminal.ReverseNewLine |
| `Emulation.Vt102.CarriageReturn` | src/cemulation.cpp:232-240 | leaves the state of Terminal.CarriageReturn |
| `Emulation.Vt102.AdvanceCursor` | src/cemulation.cpp:243-253 | leaves the state of Terminal.AdvanceCursor |
| `Emulation.Vt102.ShiftCells` | src/cemulation.cpp:260-265 | the insert loop gives each cell from rows()-1 down to the cursor's right neighbour a copy of its original left neighbour |
| `Emulation.Vt102.InsertShift` | src/cemulation.cpp:258-266 | leaves the state of Terminal.InsertShift |
| `Emulation.Vt102.DoChar` | src/cemulation.cpp:256-269 | leaves the state of Terminal.DoChar |
| `Emulation.Vt102.SetGrid` | src/cemulationVT102.cpp:261-266 | leaves the state of Terminal.SetGrid |
| `Emulation.Vt102.SetCols` | src/cemulation.h:111 | leaves the state of Terminal.SetCols |
| `Emulation.Vt102.Send` | src/cemulationVT102.cpp:279 | appends ESC and the string to the output |
| `Emulation.Vt102.CodeNotHandled` | src/cemulationVT102.cpp:91-108 | leaves the state of Terminal.CodeNotHandled |
| `Emulation.Vt102.Attributes` | src/cemulationVT102.cpp:51-79 | returns the two lists of Params.Attributes of the pending code |
| `Emulation.Vt102.UpStep` | src/cemulationVT102.cpp:135-138 | one guarded step leaves the state of Terminal.UpStep |
| `Emulation.Vt102.MoveUp` | src/cemulationVT102.cpp:133-139 | the loop leaves the state of count steps up, Terminal.UpTimes |
| `Emulation.Vt102.DownStep` | src/cemulationVT102.cpp:150-153 | one guarded step leaves the state of Terminal.DownStep |
| `Emulation.Vt102.MoveDown` | src/cemulationVT102.cpp:148-154 | the loop leaves the state of count steps down, Terminal.DownTimes |
| `Emulation.Vt102.MoveLeft` | src/cemulationVT102.cpp:163-166 | the loop leaves the state of count steps left, Terminal.LeftTimes |
| `Emulation.Vt102.MoveRight` | src/cemulationVT102.cpp:175-178 | the loop leaves the state of count steps right, Terminal.RightTimes |
| `Emulation.Vt102.CursorUp` | src/cemulationVT102.cpp:128-140 | the loop leaves the state of Terminal.CursorUp |
| `Emulation.Vt102.CursorDown` | src/cemulationVT102.cpp:143-155 | the loop leaves the state of Terminal.CursorDown |
| `Emulation.Vt102.CursorLeft` | src/cemulationVT102.cpp:158-167 | the loop leaves the state of Terminal.CursorLeft |
| `Emulation.Vt102.CursorRight` | src/cemulationVT102.cpp:170-179 | the loop leaves the state of Terminal.CursorRight |
| `Emulation.Vt102.Sgr` | src/cemulationVT102.cpp:338-409 | leaves the state of Terminal.Sgr |
| `Emulation.Vt102.Graphics` | src/cemulationVT102.cpp:327-412 | the loop leaves the state of Terminal.Graphics |
| `Emulation.Vt102.SgrEach` | src/cemulationVT102.cpp:333-410 | the loop over the values leaves the state of Terminal.SgrAll |
| `Emulation.Vt102.Mode` | src/cemulationVT102.cpp:449-469 | leaves the state of Terminal.Mode |
| `Emulation.Vt102.ExtMode` | src/cemulationVT102.cpp:470-496 | leaves the state of Terminal.ExtMode |
| `Emulation.Vt102.ModeAll` | src/cemulationVT102.cpp:447-470 | the loop leaves the state of Terminal.ModeAll |
| `Emulation.Vt102.ExtModeAll` | src/cemulationVT102.cpp:470-497 | the loop leaves the state of Terminal.ExtModeAll |
| `Emulation.Vt102.SetModes` | src/cemulationVT102.cpp:442-557 | leaves the state of Terminal.SetModes |
| `Emulation.Vt102.Report` | src/cemulationVT102.cpp:269-305 | leaves the state of Terminal.Report |
| `Emulation.Vt102.ReportStatus` | src/cemulationVT102.cpp:274-292 | leaves the state of Terminal.ReportStatus |
| `Emulation.Vt102.ReportExtended` | src/cemulationVT102.cpp:293-304 | leaves the state of Terminal.ReportExtended |
| `Emulation.Vt102.DeviceAttributes` | src/cemulationVT102.cpp:308-324 | leaves the state of Terminal.DeviceAttributes |
| `Emulation.Vt102.SetScrollRegion` | src/cemulationVT102.cpp:560-572 | leaves the state of Terminal.SetScrollRegion |
| `Emulation.Vt102.CursorPosition` | src/cemulationVT102.cpp:576-589 | leaves the state of Terminal.CursorPosition |
| `Emulation.Vt102.Csi` | src/cemulationVT102.cpp:592-688 | leaves the state of Terminal.Csi |
| `Emulation.Vt102.EscAction` | src/cemulationVT102.cpp:724-762 | leaves the state of Terminal.EscAction |
| `Emulation.Vt102.LeadIn` | src/cemulationVT102.cpp:691-799 | returns the byte and leaves the state of Terminal.LeadIn |
| `Emulation.Vt102.ReceiveChar` | src/cemulationVT102.cpp:802-835 | leaves the state of Terminal.Receive |
| `Emulation.Vt102.ReceiveAll` | src/cemulationVT102.cpp:893-897 | the echo loop leaves the state of Terminal.ReceiveAll |
| `Emulation.Vt102.KeyPress` | src/cemulationVT102.cpp:838-902 | leaves the state of Terminal.KeyPress |
| `TerminalLemmas.EscStartsSequence` | src/cemulationVT102.cpp:693-704 | ESC, whatever is pending, leaves a lone ESC pending and is swallowed |
| `TerminalLemmas.CsiByteStartsSequence` | src/cemulationVT102.cpp:705-717 | 0x9B, whatever is pending, leaves ESC '[' pending and is swallowed |
| `TerminalLemmas.PassesThroughIffIdle` | src/cemulationVT102.cpp:691-799 | a byte is passed on unchanged, with the state untouched, iff nothing is pending and it is neither ESC nor 0x9B |
| `TerminalLemmas.AfterEsc` | src/cemulationVT102.cpp:718-763 | after a lone ESC, '[', '(' and ')' extend the code; any other byte runs its one-shot action and leaves nothing pending |
| `TerminalLemmas.EscActionKeepsLastChar` | src/cemulationVT102.cpp:724-762 | the one-shot actions do not change the final byte |
| `TerminalLemmas.EscUnknownReported` | src/cemulationVT102.cpp:758-761 | a byte without a one-shot action is reported with that byte as its text and changes nothing else; ESC c changes nothing |
| `TerminalLemmas.CsiLetterDispatches` | src/cemulationVT102.cpp:768-776 | while a CSI accumulates, a letter strips ESC '[', runs doCSI and leaves nothing pending |
| `TerminalLemmas.CsiAccumulates` | src/cemulationVT102.cpp:777-786 | any other byte is appended, and the code is dropped once it would pass 25 bytes |
| `TerminalLemmas.CharsetDesignatorDiscards` | src/cemulationVT102.cpp:788-793 | the byte after ESC ( or ESC ) is discarded with the code |
| `TerminalLemmas.NoParameters` | src/cemulationVT102.cpp:51-79 | an empty code has no parameters of either kind |
| `TerminalLemmas.ReceivePending` | src/cemulationVT102.cpp:802-835 | with a sequence pending the byte only feeds the decoder |
| `TerminalLemmas.ReceiveIdle` | src/cemulationVT102.cpp:806-833 | with nothing pending NUL, ENQ, SO and SI are ignored, BEL rings, BS moves left, LF is a newline, CR a carriage return and any other byte goes to doChar |
| `TerminalLemmas.CursorToTargets` | src/cemulationVT102.cpp:111-125 | the cursor moves to the target iff it lies in the grid; otherwise nothing changes |
| `TerminalLemmas.CursorDownFromLastRow` | src/cemulation.cpp:68-76 | down from the last row changes nothing |
| `TerminalLemmas.UpTimesStops` | src/cemulationVT102.cpp:128-140 | n steps up reach max(row-n, floor) in the same column; the floor is 0, or in origin mode max(top margin, 0) for a cursor at or below the top margin and the cursor's own row for one above it |
| `TerminalLemmas.UpStepEffect` | src/cemulationVT102.cpp:135-138 | one step up moves one row up unless at row 0 or, in origin mode, at or above the top margin; the column and dimensions stay |
| `TerminalLemmas.DownTimesStops` | src/cemulationVT102.cpp:143-155 | n steps down reach min(row+n, ceiling) in the same column; the ceiling is the last row, or in origin mode min(bottom margin, last row) for a cursor at or above the bottom margin and the cursor's own row for one below it |
| `TerminalLemmas.DownStepEffect` | src/cemulationVT102.cpp:150-153 | one step down moves one row down unless at the last row or, in origin mode, at or below the bottom margin; the column and dimensions stay |
| `TerminalLemmas.DownGuardIsCeiling` | src/cemulationVT102.cpp:150 | the guard of the down loop holds exactly while the cursor is short of the ceiling |
| `TerminalLemmas.LeftTimesStops` | src/cemulationVT102.cpp:158-167 | n steps left reach max(col-n, 0) on the same row |
| `TerminalLemmas.RightTimesStops` | src/cemulationVT102.cpp:170-179 | n steps right reach min(col+n, cols-1) on the same row |
| `TerminalLemmas.CsiCursorPosition` | src/cemulationVT102.cpp:576-589 | CSI H and f aim at (p0-1, p1-1) with exactly two parameters and at the origin otherwise; a target outside the grid is ignored |
| `TerminalLemmas.CsiSetScrollRegion` | src/cemulationVT102.cpp:673-677 | CSI r turns origin mode on, sets the margins only for two parameters p0 < p1 (else one report), and homes the cursor |
| `TerminalLemmas.CsiEraseInDisplay` | src/cemulationVT102.cpp:612-628 | CSI J erases in the display with the value its parameter text reads, 0 when there is none |
| `TerminalLemmas.CsiEraseInLine` | src/cemulationVT102.cpp:632-648 | CSI K erases in the line with the value its parameter text reads, 0 when there is none |
| `TerminalLemmas.EraseArgOfList` | src/cemulationVT102.cpp:614 | the parameter list "1;2" reads as the value 0 |
| `TerminalLemmas.CsiEraseDefault` | src/cemulationVT102.cpp:612-648 | J without parameters is clearEOD and K is clearEOL |
| `TerminalLemmas.CsiInsertLinesCount` | src/cemulationVT102.cpp:649-654 | L inserts one line by default, or as many as its text reads |
| `TerminalLemmas.CsiDeleteCharactersCount` | src/cemulationVT102.cpp:667-672 | P deletes one character by default, or as many as its text reads |
| `TerminalLemmas.CsiUnknownReported` | src/cemulationVT102.cpp:684-686 | a final letter without a case is reported with the code and the letter, and nothing else changes |
| `TerminalLemmas.NewLineScrollsOnlyRegion` | src/cemulationVT102.cpp:194-238 | in origin mode a newline on or below the bottom margin copies each region row but the bottom one from the row below, clears the bottom row, and keeps every cell outside the region, the cursor and the fault flag |
| `TerminalLemmas.NewLineInRegion` | src/cemulationVT102.cpp:194-238 | a newline on or below the bottom margin in origin mode is the full-width upward scroll of rows top..bottom, with the cursor and the fault flag kept |
| `TerminalLemmas.ReverseNewLineScrollsOnlyRegion` | src/cemulationVT102.cpp:207-259 | in origin mode a reverse newline on or above the top margin copies each region row in the grid but the top one from the row above, clears the top row, and keeps every cell outside the region, the cursor and the fault flag |
| `TerminalLemmas.ReverseNewLineInRegion` | src/cemulationVT102.cpp:207-259 | a reverse newline on or above the top margin in origin mode is the full-width downward scroll of rows top..bottom, with the cursor and the fault flag kept |
| `TerminalLemmas.DefaultMarginInOriginModeFaults` | src/cemulationVT102.cpp:261-266 | with setGrid's bottom margin of rows, a newline on the last row in origin mode is out of range |
| `TerminalLemmas.NewLineMoves` | src/cemulation.cpp:204-215 | outside origin mode, on the last row the whole screen scrolls and the cursor stays; otherwise it moves one row down in the same column |
| `TerminalLemmas.ReverseNewLineMoves` | src/cemulation.cpp:218-229 | outside origin mode, on row 0 the whole screen scrolls down; otherwise the cursor moves one row up |
| `TerminalLemmas.CarriageReturnHomesColumn` | src/cemulation.cpp:232-240 | column 0 of the same row, then a newline exactly when autoNewLine is set |
| `TerminalLemmas.AdvanceCursorWraps` | src/cemulation.cpp:243-253 | one column right before the last column; on it, with autoWrap, column 0 and exactly one newline; without autoWrap no change |
| `TerminalLemmas.DoCharWritesThenAdvances` | src/cemulation.cpp:256-269 | without insert mode the cursor cell gets the character, pen colours and reverse flag, and the cursor moves one right |
| `TerminalLemmas.InsertShiftShifts` | src/cemulation.cpp:258-266 | the cells from the cursor's right neighbour to column rows()-1 take their left neighbour, the cursor cell is cleared, nothing else changes; a start past the list is a fault |
| `TerminalLemmas.SaveRestoreRoundTrip` | src/cemulation.cpp:149-159 | a restore after a save puts the cursor back and neither changes the saved position |
| `TerminalLemmas.ReverseBitRoundTrip` | src/ccharcell.cpp:85-88 | setting the reverse bit where it was clear and clearing it again gives back the attribute word, and the other way round |
| `TerminalLemmas.FlipTwice` | src/cemulation.cpp:165-171 | flipping a cell's reverse bit twice gives back the cell |
| `TerminalLemmas.FlashTwiceIsIdentity` | src/cemulation.cpp:162-176 | two flashes leave every cell as it was |
| `TerminalLemmas.BellEffect` | src/cemulation.cpp:179-189 | the visual bell leaves the state unchanged; the audible one adds one Beep |
| `TerminalLemmas.ClearWholeLine` | src/cemulation.cpp:109-115 | erase-line AOL blanks the cursor row, keeps the cursor with its bit, and changes no other row |
| `TerminalLemmas.ClearWholeScreen` | src/cemulation.cpp:129-131 | erase-display AOD leaves the cursor at the origin and every cell cleared |
| `TerminalLemmas.SgrReports` | src/cemulationVT102.cpp:338-409 | a value with a case adds no event; one without is reported and changes nothing else |
| `TerminalLemmas.SgrFlags` | src/cemulationVT102.cpp:338-360 | 0 restores the default pen; 1, 4, 5, 7 set bold, underline, blink, reverse; 8 does nothing |
| `TerminalLemmas.SgrColours` | src/cemulationVT102.cpp:361-405 | 30-37 set the foreground from the table, 40-47 the background except 43 which sets the foreground, 38/39 and 48/49 restore a default |
| `TerminalLemmas.SgrAllEffect` | src/cemulationVT102.cpp:336-410 | a run of values changes only the pen and appends one report per value without a case |
| `TerminalLemmas.SgrEndingInResetResets` | src/cemulationVT102.cpp:340-347 | a run ending in 0 leaves the default pen whatever came before |
| `TerminalLemmas.GraphicsWithoutParametersResets` | src/cemulationVT102.cpp:327-336 | ESC [ m with no parameter is SGR 0 |
| `TerminalLemmas.ModeEffect` | src/cemulationVT102.cpp:449-469 | 2, 4, 12, 20 switch exactly their flag and add no event; any other value is reported and changes nothing else |
| `TerminalLemmas.ExtModeEffect` | src/cemulationVT102.cpp:470-496 | ?1, ?4, ?5, ?6, ?7, ?25 switch exactly their flag; ?3 resizes to 132 or 80 columns; any other value is reported |
| `TerminalLemmas.ModeAllSwitches` | src/cemulationVT102.cpp:447-470 | after a list of ordinary values each named flag has the new value and every other keeps its old one |
| `TerminalLemmas.ExtModeAllSwitches` | src/cemulationVT102.cpp:470-497 | after a list of '?' values each named flag has the new value and every other keeps its old one |
| `TerminalLemmas.PositionReportReadsBack` | src/cemulationVT102.cpp:281-286 | the position report is '[' row+1 ';' col+1 'R' and its parameters read back as [row+1, col+1] |
| `TerminalLemmas.ReportAnswers` | src/cemulationVT102.cpp:269-305 | 6n sends the cursor position, 5n ESC [3n, ?15n ESC [?10n, and no parameter nothing |
| `TerminalLemmas.ReportEvents` | src/cemulationVT102.cpp:269-305 | one report per list whose first value is not recognised |
| `TerminalLemmas.DeviceAttributesAnswer` | src/cemulationVT102.cpp:308-324 | no parameter or 0 sends ESC [?6c and adds no event; anything else is reported and sends nothing |
| `TerminalLemmas.IdentificationReadsBack` | src/cemulationVT102.cpp:318 | the identification's parameter reads as the single '?' value 6 |
| `TerminalLemmas.InitialDefaults` | src/cemulation.cpp:22-36 | visual bell, jump scroll and cursor on, every other flag off, saved cursor (0,0), nothing pending, sent or reported |
| `TerminalLemmas.KeyPressEffect` | src/cemulationVT102.cpp:838-902 | a locked keyboard ignores keys; a recognised key sends ESC and its suffix only; without local echo other keys send their text up to NUL, and nothing without text |

## Left out

- Serial I/O, device lock files, the widget layer (rendering, `draw`, `paintEvent`, `update`/`repaint`, `setRect`, pixel geometry, `selectCells`), Qt timers and the cursor and blink toggling they drive, mouse and resize events: outside the engine; the calls into the renderer are no-ops.
- `QApplication::beep` is an appended `Beep` event, and the printing of `doCodeNotHandled` is an appended `Unhandled` event carrying the text it would print.
- `sendAsciiChar`/`sendAsciiString` are appends to the output sequence; the signal/slot wiring is not modelled.
- `doReset` is a stub that only prints; ESC c changes nothing.
- The `mSyncBusy` re-entrancy guard: sync is never re-entered in a single-threaded model.
- `QKeyEvent` is a key enumeration plus the key's Latin-1 text bytes; `accept`/`ignore` are not modelled beyond their effect on what is sent.
- `ASCII_CSI` is taken to be 0x9B; the header that defines it is not part of this model.
- `Params.ByteArrayToInt`: follows the Qt 5 `QByteArray::toInt`, which accepts whitespace after the digits. Qt 4 reads such a text as 0, so under Qt 4 `ESC [ 2 SP J` would erase with 0 rather than 2. The Qt version the program is built against is not part of this model.
- An out-of-range `QList::at`, or a cursor column outside the grid, is a `fault` flag with the step skipped, not a crash.
- Colours are RGB triples; the default palette is a parameter.
- `setForegroundColor`/`setBackgroundColor` of the screen are field updates done directly by the rendition functions.
- `Terminal.SetGrid`: a grid without cells, or one the cursor would lie outside, is recorded as a fault rather than leaving an unusable grid.
- `Terminal.ReceiveAll`, `Terminal.KeyPress`, `Terminal.Csi`, `Terminal.Control`, `Terminal.SetModes`, `Terminal.Graphics`, `Terminal.CursorUp`..`CursorRight`, `Terminal.EraseInLine` and `Terminal.EscAction`: their own contracts only keep the invariant; what they do is stated by the lemmas of `TerminalLemmas` and by the class methods proved equal to them.
- The whole-output property that local echo never removes sent bytes is not stated.
