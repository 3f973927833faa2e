/** The VT102 emulation (CEmulation with the CEmulationVT102 overrides) as a
    value: the screen, the mode flags, the saved cursor, the scroll margins,
    the pending control code, and what the emulation has sent or reported.
    Each operation is a function from one state to the next; where CEmulation
    calls a virtual operation, the function calls the VT102 version, so the
    dispatch of the VT102 engine is reproduced. The class in module Emulation
    performs the same steps in place and is proved against these functions.

    Where the source would index the cell list out of range (or leave the
    cursor outside the grid), the step is skipped and fault is set. */
module Terminal {
  import opened Bytes
  import opened CharCells
  import opened CellArrays
  import opened Params
  import Keys
  import S = ScreenStates

  /** What the emulation reports besides the bytes it sends: a control code
      it does not handle (codeNotHandled, with the text doCodeNotHandled
      shows) and the audible bell. */
  datatype Event = Unhandled(text: seq<byte>) | Beep

  datatype Modes = Modes(
    visualBell: bool, localEcho: bool, autoWrap: bool, autoNewLine: bool,
    autoInsert: bool, cursorOn: bool, keyboardLock: bool, jumpScroll: bool,
    reverseVideo: bool, relativeCoordinates: bool,
    applicationCursorKeys: bool, originMode: bool)

  /** The flags as the two constructors leave them. */
  const InitialModes: Modes := Modes(
    visualBell := true, localEcho := false, autoWrap := false, autoNewLine := false,
    autoInsert := false, cursorOn := true, keyboardLock := false, jumpScroll := true,
    reverseVideo := false, relativeCoordinates := false,
    applicationCursorKeys := false, originMode := false)

  datatype Term = Term(
    scr: S.ScreenState, modes: Modes,
    saveX: int, saveY: int,
    top: int, bottom: int,
    code: seq<byte>, lastChar: byte,
    output: seq<byte>, events: seq<Event>,
    fault: bool)

  /** A freshly constructed screen: no grid yet, the cursor at (0,0), white
      on black, no attributes. */
  function InitialScreen(p: Palette): S.ScreenState {
    S.ScreenState(p, 0, 0, [], 0, 0, Rgb(255, 255, 255), Rgb(0, 0, 0), false, false, false, false)
  }

  function Initial(p: Palette): Term {
    Term(InitialScreen(p), InitialModes, 0, 0, 0, 0, [], NUL, [], [], false)
  }

  /** What holds of every state, the unsized initial one included. */
  predicate Placed(t: Term) {
    0 <= t.scr.cx && 0 <= t.scr.cy && 0 <= t.saveX && 0 <= t.saveY && t.top <= t.bottom
  }

  /** A sized grid with the cursor inside it. */
  predicate Inv(t: Term) {
    S.Good(t.scr) && Placed(t)
  }

  /** The pending control code between bytes: nothing, a lone ESC, ESC and a
      charset designator, or ESC '[' and at most 23 parameter bytes, none of
      them a letter, ESC or CSI. */
  predicate CodeShape(code: seq<byte>) {
    code == [] || code == [ESC] ||
    (|code| == 2 && code[0] == ESC && (code[1] == Latin1('(') || code[1] == Latin1(')'))) ||
    (2 <= |code| <= 25 && code[0] == ESC && code[1] == Latin1('[') &&
     forall i :: 2 <= i < |code| ==> !IsLetter(code[i]) && code[i] != ESC && code[i] != CSI)
  }

  predicate Valid(t: Term) {
    Inv(t) && CodeShape(t.code)
  }

  function Faulted(t: Term): Term { t.(fault := true) }

  /** The text doCodeNotHandled shows: the whole code and the final byte, or
      the final byte alone when the code is at most one byte long. */
  function NotHandledText(t: Term): seq<byte> {
    if |t.code| > 1 then t.code + [t.lastChar] else [t.lastChar]
  }

  function CodeNotHandled(t: Term): (r: Term)
    ensures r == t.(events := t.events + [Event.Unhandled(NotHandledText(t))])
  {
    t.(events := t.events + [Event.Unhandled(NotHandledText(t))])
  }

  /** The bytes sendAsciiChar(ESC) and sendAsciiString(s) send. */
  function Send(t: Term, s: seq<byte>): Term {
    t.(output := t.output + [ESC] + s)
  }

  /** screen()->setCursorPos(col, row). */
  function MoveTo(t: Term, col: int, row: int): (r: Term)
    requires Inv(t) && 0 <= col < t.scr.cols && 0 <= row
    ensures Inv(r) && r == t.(scr := r.scr)
  {
    t.(scr := S.SetCursorPos(t.scr, col, row))
  }

  // ------------------------------------------------------------------
  // CEmulation

  /** doCursorTo. */
  function CursorTo(t: Term, col: int, row: int): (r: Term)
    requires Inv(t)
    ensures Inv(r) && r == t.(scr := r.scr)
  {
    if 0 <= col < t.scr.cols && 0 <= row < t.scr.rows then MoveTo(t, col, row) else t
  }

  /** CEmulation::doCursorUp. */
  function BaseCursorUp(t: Term): (r: Term)
    requires Inv(t)
    ensures Inv(r) && r == t.(scr := r.scr)
  {
    if t.scr.cy > 0 then MoveTo(t, t.scr.cx, t.scr.cy - 1) else t
  }

  /** CEmulation::doCursorDown: the test is against the row count, so from the
      last row the move is attempted and setCursorPos rejects it. */
  function BaseCursorDown(t: Term): (r: Term)
    requires Inv(t)
    ensures Inv(r) && r == t.(scr := r.scr)
  {
    if t.scr.cy < t.scr.rows then MoveTo(t, t.scr.cx, t.scr.cy + 1) else t
  }

  /** CEmulation::doCursorLeft. */
  function BaseCursorLeft(t: Term): (r: Term)
    requires Inv(t)
    ensures Inv(r) && r == t.(scr := r.scr)
  {
    if t.scr.cx > 0 then MoveTo(t, t.scr.cx - 1, t.scr.cy) else t
  }

  /** CEmulation::doCursorRight. */
  function BaseCursorRight(t: Term): (r: Term)
    requires Inv(t)
    ensures Inv(r) && r == t.(scr := r.scr)
  {
    if t.scr.cx < t.scr.cols - 1 then MoveTo(t, t.scr.cx + 1, t.scr.cy) else t
  }

  datatype ClearLineMode = ClearLineEOL | ClearLineBOL | ClearLineAOL
  datatype ClearScreenMode = ClearScreenEOD | ClearScreenBOD | ClearScreenAOD

  /** doClearEOL: the whole line is cleared by moving to column 0, clearing
      to the end of the line and moving back. */
  function ClearLine(t: Term, mode: ClearLineMode): (r: Term)
    requires Inv(t)
    ensures Inv(r) && r == t.(scr := r.scr)
  {
    match mode
    case ClearLineEOL => t.(scr := S.ClearEOL(t.scr))
    case ClearLineBOL => t.(scr := S.ClearBOL(t.scr))
    case ClearLineAOL =>
      var t1 := MoveTo(t, 0, t.scr.cy);
      var t2 := t1.(scr := S.ClearEOL(t1.scr));
      MoveTo(t2, t.scr.cx, t.scr.cy)
  }

  /** doClearScreen. */
  function ClearScreen(t: Term, mode: ClearScreenMode): (r: Term)
    requires Inv(t)
    ensures Inv(r) && r == t.(scr := r.scr)
  {
    match mode
    case ClearScreenEOD => t.(scr := S.ClearEOD(t.scr))
    case ClearScreenBOD => t.(scr := S.ClearBOD(t.scr))
    case ClearScreenAOD => t.(scr := S.Clear(t.scr))
  }

  /** doDeleteCharacters. */
  function DeleteCharacters(t: Term, num: int): (r: Term)
    requires Inv(t)
    ensures Inv(r) && r == t.(scr := r.scr)
  {
    t.(scr := S.DelChars(t.scr, num))
  }

  /** doInsertLines. */
  function InsertLines(t: Term, num: int): (r: Term)
    requires Inv(t)
    ensures Inv(r) && r == t.(scr := r.scr)
  {
    t.(scr := S.InsLines(t.scr, num))
  }

  /** doSaveCursorPos. */
  function SaveCursorPos(t: Term): (r: Term)
    requires Inv(t)
    ensures Inv(r)
  {
    t.(saveX := t.scr.cx, saveY := t.scr.cy)
  }

  /** doRestoreCursorPos: setCursorPos with the saved position. A saved
      column beyond the grid that still names a cell would put the cursor
      outside the grid: that is a fault. */
  function RestoreCursorPos(t: Term): (r: Term)
    requires Inv(t)
    ensures Inv(r) && r == t.(scr := r.scr, fault := r.fault)
  {
    if t.saveX < t.scr.cols then MoveTo(t, t.saveX, t.saveY)
    else if Index(t.scr.cols, t.saveX, t.saveY) < |t.scr.cells| then Faulted(t)
    else t
  }

  /** One flash of the visual bell: every cell's reverse bit flipped. */
  function Flash(cells: seq<Cell>): (r: seq<Cell>)
    ensures |r| == |cells|
  {
    seq(|cells|, k requires 0 <= k < |cells| => cells[k].SetReverse(!cells[k].Reverse()))
  }

  /** A flash part way: the cells before position k flipped, the rest as
      they were. */
  function FlashedUpTo(cells: seq<Cell>, k: int): (r: seq<Cell>)
    ensures |r| == |cells|
    ensures k >= |cells| ==> r == Flash(cells)
    ensures k <= 0 ==> r == cells
  {
    seq(|cells|, j requires 0 <= j < |cells| => if j < k then cells[j].SetReverse(!cells[j].Reverse()) else cells[j])
  }

  /** doVisualBell: two flashes. */
  function VisualBell(t: Term): (r: Term)
    requires Inv(t)
    ensures Inv(r) && r == t.(scr := t.scr.(cells := r.scr.cells))
  {
    t.(scr := t.scr.(cells := Flash(Flash(t.scr.cells))))
  }

  /** doBell: the visual bell, or the audible one. */
  function Bell(t: Term): (r: Term)
    requires Inv(t)
    ensures Inv(r) && r == t.(scr := r.scr, events := r.events)
  {
    if t.modes.visualBell then VisualBell(t) else t.(events := t.events + [Beep])
  }

  // ------------------------------------------------------------------
  // the margin-aware scrolls and the newlines that call them

  /** The rows of the scroll region. */
  function RegionHeight(t: Term): int { t.bottom - t.top + 1 }

  /** CEmulationVT102::doScrollUp: in origin mode the region between the
      margins, with the cursor left where it is; otherwise the whole screen.
      The region scroll clears its last row without a bound check, so a
      region that does not lie inside the grid is a fault. */
  function ScrollUp(t: Term): (r: Term)
    requires Inv(t)
    ensures Inv(r) && r == t.(scr := t.scr.(cells := r.scr.cells), fault := r.fault)
  {
    if t.modes.originMode then
      if 0 <= t.top && t.bottom < t.scr.rows then
        t.(scr := t.scr.(cells := Scrolled(ScrollMode.ScrollUp, t.scr.cells, t.scr.palette, t.scr.cols, t.scr.rows,
                                           0, t.top, t.scr.cols, RegionHeight(t))))
      else Faulted(t)
    else
      var s := S.ScrollUp(t.scr);
      t.(scr := t.scr.(cells := s.cells))
  }

  /** CEmulationVT102::doScrollDown: as ScrollUp; the region scroll clears its
      first row without a bound check. */
  function ScrollDown(t: Term): (r: Term)
    requires Inv(t)
    ensures Inv(r) && r == t.(scr := t.scr.(cells := r.scr.cells), fault := r.fault)
  {
    if t.modes.originMode then
      if 0 <= t.top < t.scr.rows then
        t.(scr := t.scr.(cells := Scrolled(ScrollMode.ScrollDown, t.scr.cells, t.scr.palette, t.scr.cols, t.scr.rows,
                                           0, t.top, t.scr.cols, RegionHeight(t))))
      else Faulted(t)
    else
      var s := S.ScrollDown(t.scr);
      t.(scr := t.scr.(cells := s.cells))
  }

  /** CEmulation::doNewLine, whose scroll is the VT102 one. */
  function BaseNewLine(t: Term): (r: Term)
    requires Inv(t)
    ensures Inv(r) && r == t.(scr := r.scr, fault := r.fault)
  {
    if t.scr.cy >= t.scr.rows - 1 then ScrollUp(t) else MoveTo(t, t.scr.cx, t.scr.cy + 1)
  }

  /** CEmulationVT102::doNewLine. */
  function NewLine(t: Term): (r: Term)
    requires Inv(t)
    ensures Inv(r) && r == t.(scr := r.scr, fault := r.fault)
  {
    if t.modes.originMode && t.scr.cy >= t.bottom then ScrollUp(t) else BaseNewLine(t)
  }

  /** CEmulation::doReverseNewLine, whose scroll is the VT102 one. */
  function BaseReverseNewLine(t: Term): (r: Term)
    requires Inv(t)
    ensures Inv(r) && r == t.(scr := r.scr, fault := r.fault)
  {
    if t.scr.cy < 1 then ScrollDown(t) else MoveTo(t, t.scr.cx, t.scr.cy - 1)
  }

  /** CEmulationVT102::doReverseNewLine. */
  function ReverseNewLine(t: Term): (r: Term)
    requires Inv(t)
    ensures Inv(r) && r == t.(scr := r.scr, fault := r.fault)
  {
    if t.modes.originMode && t.scr.cy <= t.top then ScrollDown(t) else BaseReverseNewLine(t)
  }

  /** doCarriageReturn. */
  function CarriageReturn(t: Term): (r: Term)
    requires Inv(t)
    ensures Inv(r) && r == t.(scr := r.scr, fault := r.fault)
  {
    var t1 := MoveTo(t, 0, t.scr.cy);
    if t.modes.autoNewLine then NewLine(t1) else t1
  }

  /** doAdvanceCursor: when the cursor cannot advance and autoWrap is set, a
      carriage return and, unless that already did one, a newline. */
  function AdvanceCursor(t: Term): (r: Term)
    requires Inv(t)
    ensures Inv(r) && r == t.(scr := r.scr, fault := r.fault)
  {
    var t1 := t.(scr := S.AdvanceCursor(t.scr).0);
    if !S.AdvanceCursor(t.scr).1 && t.modes.autoWrap then
      var t2 := CarriageReturn(t1);
      if !t.modes.autoNewLine then NewLine(t2) else t2
    else t1
  }

  /** The flat position of the last cell the insert loop of doChar writes:
      column rows()-1 of the cursor row. */
  function InsertEnd(s: S.ScreenState): int { Index(s.cols, s.rows - 1, s.cy) }

  /** The insert step of doChar: from column rows()-1 down to the column after
      the cursor, each cell takes a copy of its left neighbour; then the
      cursor cell is cleared. A loop start outside the cell list is a fault,
      and the loop is skipped. */
  function InsertShift(t: Term): (r: Term)
    requires Inv(t)
    ensures Inv(r) && r == t.(scr := t.scr.(cells := r.scr.cells), fault := r.fault)
  {
    var s := t.scr;
    var here := S.CursorIndex(s);
    var t1 :=
      if s.rows - 1 <= s.cx then t
      else if InsertEnd(s) >= |s.cells| then Faulted(t)
      else t.(scr := s.(cells := Copied(s.cells, here + 1, InsertEnd(s) + 1, -1)));
    t1.(scr := s.(cells := t1.scr.cells[here := t1.scr.cells[here].Cleared(s.palette)]))
  }

  /** doChar: the optional insert step, putchar at the cursor, advance. */
  function DoChar(t: Term, ch: byte): (r: Term)
    requires Inv(t)
    ensures Inv(r) && r == t.(scr := r.scr, fault := r.fault)
  {
    var t1 := if t.modes.autoInsert then InsertShift(t) else t;
    IndexInGrid(t1.scr.cols, t1.scr.rows, t1.scr.cx, t1.scr.cy);
    var t2 := t1.(scr := S.PutChar(t1.scr, ch, t1.scr.cx, t1.scr.cy));
    AdvanceCursor(t2)
  }

  /** CEmulationVT102::setGrid: margins 0 and rows, then the screen's
      setGrid. A grid with no cells, or one the cursor would lie outside, is
      a fault. */
  function SetGrid(t: Term, c: int, r: int): (res: Term)
    requires Placed(t)
    ensures Placed(res)
    ensures !res.fault ==> Inv(res)
  {
    if c < 1 || r < 1 || t.scr.cx >= c || t.scr.cy >= r then Faulted(t)
    else
      S.SetGridGood(t.scr, c, r);
      t.(top := 0, bottom := r, scr := S.SetGrid(t.scr, c, r))
  }

  /** setCols on a sized grid; a cursor column beyond the new width is a fault. */
  function SetCols(t: Term, c: int): (r: Term)
    requires Inv(t) && c > 0
    ensures Inv(r) && r == t.(scr := r.scr, fault := r.fault)
  {
    if t.scr.cx >= c then Faulted(t) else t.(scr := S.SetCols(t.scr, c))
  }

  // ------------------------------------------------------------------
  // CEmulationVT102: parameters and the counted cursor moves

  function Attrs(t: Term): seq<int> { Attributes(t.code).0 }
  function ExtAttrs(t: Term): seq<int> { Attributes(t.code).1 }

  /** How often A, B, C and D move: the first parameter when it is
      positive, else once. */
  function Count(attrs: seq<int>): (n: nat)
    ensures n >= 1
  {
    if |attrs| > 0 && attrs[0] > 0 then attrs[0] else 1
  }

  /** One step of CEmulationVT102::doCursorUp: in origin mode only below the
      top margin. */
  function UpStep(t: Term): (r: Term)
    requires Inv(t)
    ensures Inv(r) && r == t.(scr := r.scr)
  {
    if !t.modes.originMode || t.scr.cy > t.top then BaseCursorUp(t) else t
  }

  function UpTimes(t: Term, n: nat): (r: Term)
    requires Inv(t)
    ensures Inv(r) && r == t.(scr := r.scr)
  {
    if n == 0 then t else UpStep(UpTimes(t, n - 1))
  }

  /** One step of CEmulationVT102::doCursorDown: in origin mode only above
      the bottom margin. */
  function DownStep(t: Term): (r: Term)
    requires Inv(t)
    ensures Inv(r) && r == t.(scr := r.scr)
  {
    if !t.modes.originMode || t.scr.cy < t.bottom then BaseCursorDown(t) else t
  }

  function DownTimes(t: Term, n: nat): (r: Term)
    requires Inv(t)
    ensures Inv(r) && r == t.(scr := r.scr)
  {
    if n == 0 then t else DownStep(DownTimes(t, n - 1))
  }

  function LeftTimes(t: Term, n: nat): (r: Term)
    requires Inv(t)
    ensures Inv(r) && r == t.(scr := r.scr)
  {
    if n == 0 then t else BaseCursorLeft(LeftTimes(t, n - 1))
  }

  function RightTimes(t: Term, n: nat): (r: Term)
    requires Inv(t)
    ensures Inv(r) && r == t.(scr := r.scr)
  {
    if n == 0 then t else BaseCursorRight(RightTimes(t, n - 1))
  }

  function CursorUp(t: Term): (r: Term)
    requires Inv(t)
    ensures Inv(r)
  {
    UpTimes(t, Count(Attrs(t)))
  }

  function CursorDown(t: Term): (r: Term)
    requires Inv(t)
    ensures Inv(r)
  {
    DownTimes(t, Count(Attrs(t)))
  }

  function CursorLeft(t: Term): (r: Term)
    requires Inv(t)
    ensures Inv(r)
  {
    LeftTimes(t, Count(Attrs(t)))
  }

  function CursorRight(t: Term): (r: Term)
    requires Inv(t)
    ensures Inv(r)
  {
    RightTimes(t, Count(Attrs(t)))
  }

  // ------------------------------------------------------------------
  // graphics rendition

  /** The colour table of SGR 30-37 and 40-47. */
  function TableColor(i: int): Color
    requires 0 <= i < 8
  {
    if i == 0 then Rgb(0, 0, 0)
    else if i == 1 then Rgb(255, 0, 0)
    else if i == 2 then Rgb(0, 255, 0)
    else if i == 3 then Rgb(240, 240, 10)
    else if i == 4 then Rgb(0, 0, 255)
    else if i == 5 then Rgb(215, 15, 230)
    else if i == 6 then Rgb(10, 240, 230)
    else Rgb(255, 255, 255)
  }

  /** One rendition value: it changes the pen of the screen, or is not
      handled. */
  function Sgr(t: Term, v: int): (r: Term)
    requires Inv(t)
    ensures Inv(r) && r == t.(scr := r.scr, events := r.events)
    ensures r.scr == t.scr.(fg := r.scr.fg, bg := r.scr.bg, blink := r.scr.blink,
                            bold := r.scr.bold, reverse := r.scr.reverse, underline := r.scr.underline)
  {
    var s := t.scr;
    if v == 0 then
      t.(scr := s.(bg := s.palette.background, fg := s.palette.foreground,
                   blink := false, bold := false, reverse := false, underline := false))
    else if v == 1 then t.(scr := s.(bold := true))
    else if v == 4 then t.(scr := s.(underline := true))
    else if v == 5 then t.(scr := s.(blink := true))
    else if v == 7 then t.(scr := s.(reverse := true))
    else if v == 8 then t
    else if 30 <= v <= 37 then t.(scr := s.(fg := TableColor(v - 30)))
    else if v == 38 || v == 39 then t.(scr := s.(fg := s.palette.foreground))
    else if v == 43 then t.(scr := s.(fg := TableColor(3)))
    else if 40 <= v <= 47 then t.(scr := s.(bg := TableColor(v - 40)))
    else if v == 48 || v == 49 then t.(scr := s.(bg := s.palette.background))
    else CodeNotHandled(t)
  }

  /** The rendition values applied in order. */
  function SgrAll(t: Term, vs: seq<int>): (r: Term)
    requires Inv(t)
    ensures Inv(r) && r == t.(scr := r.scr, events := r.events)
  {
    if vs == [] then t else Sgr(SgrAll(t, vs[..|vs| - 1]), vs[|vs| - 1])
  }

  /** One more value handled after the first n. */
  lemma SgrAllStep(t: Term, vs: seq<int>, n: nat, before: Term, after: Term)
    requires Inv(t) && n < |vs| && before == SgrAll(t, vs[..n])
    requires after == Sgr(before, vs[n])
    ensures after == SgrAll(t, vs[..n + 1])
  {
    PrefixStep(vs, n);
    SgrAllUnfold(t, vs[..n + 1]);
  }

  lemma PrefixStep(vs: seq<int>, n: nat)
    requires n < |vs|
    ensures vs[..n + 1] != [] && vs[..n + 1][..n] == vs[..n] && vs[..n + 1][n] == vs[n]
    ensures |vs[..n + 1]| - 1 == n
  {
  }

  lemma SgrAllUnfold(t: Term, w: seq<int>)
    requires Inv(t) && w != []
    ensures SgrAll(t, w) == Sgr(SgrAll(t, w[..|w| - 1]), w[|w| - 1])
  {
  }

  /** The values doGraphics works through: the ordinary parameters, or a
      single 0 when there are none. */
  function GraphicsValues(t: Term): seq<int> {
    if |Attrs(t)| == 0 then [0] else Attrs(t)
  }

  /** doGraphics. */
  function Graphics(t: Term): (r: Term)
    requires Inv(t)
    ensures Inv(r)
  {
    SgrAll(t, GraphicsValues(t))
  }

  // ------------------------------------------------------------------
  // modes

  /** The ordinary mode parameters that switch a flag. */
  predicate IsModeFlag(v: int) { v == 2 || v == 4 || v == 12 || v == 20 }

  /** The '?' mode parameters that switch a flag. */
  predicate IsExtFlag(v: int) { v == 1 || v == 4 || v == 5 || v == 6 || v == 7 || v == 25 }

  /** The flag named by an ordinary mode parameter, switched. */
  function ModeFlag(m: Modes, v: int, on: bool): Modes
    requires IsModeFlag(v)
  {
    if v == 2 then m.(keyboardLock := on)
    else if v == 4 then m.(autoInsert := on)
    else if v == 12 then m.(localEcho := on)
    else m.(autoNewLine := on)
  }

  /** The flag named by a '?' mode parameter, switched. */
  function ExtFlag(m: Modes, v: int, on: bool): Modes
    requires IsExtFlag(v)
  {
    if v == 1 then m.(applicationCursorKeys := on)
    else if v == 4 then m.(jumpScroll := on)
    else if v == 5 then m.(reverseVideo := on)
    else if v == 6 then m.(originMode := on)
    else if v == 7 then m.(autoWrap := on)
    else m.(cursorOn := on)
  }

  /** One ordinary mode parameter; an unknown one is reported. */
  function Mode(t: Term, v: int, on: bool): (r: Term)
    requires Inv(t)
    ensures Inv(r) && r == t.(modes := r.modes, events := r.events)
  {
    if IsModeFlag(v) then t.(modes := ModeFlag(t.modes, v, on))
    else CodeNotHandled(t)
  }

  /** One '?' mode parameter; ?3 resizes to 132 or 80 columns. */
  function ExtMode(t: Term, v: int, on: bool): (r: Term)
    requires Inv(t)
    ensures Inv(r) && r == t.(modes := r.modes, events := r.events, scr := r.scr, fault := r.fault)
  {
    if v == 3 then SetCols(t, if on then 132 else 80)
    else if IsExtFlag(v) then t.(modes := ExtFlag(t.modes, v, on))
    else CodeNotHandled(t)
  }

  function ModeAll(t: Term, vs: seq<int>, on: bool): (r: Term)
    requires Inv(t)
    ensures Inv(r) && r == t.(modes := r.modes, events := r.events)
  {
    if vs == [] then t else Mode(ModeAll(t, vs[..|vs| - 1], on), vs[|vs| - 1], on)
  }

  function ExtModeAll(t: Term, vs: seq<int>, on: bool): (r: Term)
    requires Inv(t)
    ensures Inv(r) && r == t.(modes := r.modes, events := r.events, scr := r.scr, fault := r.fault)
  {
    if vs == [] then t else ExtMode(ExtModeAll(t, vs[..|vs| - 1], on), vs[|vs| - 1], on)
  }

  /** doSetModes (on) and doResetModes (off): the ordinary parameters, then
      the '?' ones. */
  function SetModes(t: Term, on: bool): (r: Term)
    requires Inv(t)
    ensures Inv(r)
  {
    ExtModeAll(ModeAll(t, Attrs(t), on), ExtAttrs(t), on)
  }

  // ------------------------------------------------------------------
  // reports, margins, positioning

  /** The cursor position report: ESC [ row ; col R, counted from 1. */
  function PositionReport(col: int, row: int): seq<byte>
    requires 0 <= col && 0 <= row
  {
    [Latin1('[')] + Decimal(row + 1) + [Latin1(';')] + Decimal(col + 1) + [Latin1('R')]
  }

  /** doReport: the first ordinary parameter asks for status (5) or the
      cursor position (6); independently, the first '?' parameter asks for
      the printer status (15). */
  function Report(t: Term): (r: Term)
    requires Inv(t)
    ensures Inv(r) && r == t.(output := r.output, events := r.events)
  {
    ReportExtended(ReportStatus(t, Attrs(t)), ExtAttrs(t))
  }

  /** The ordinary half of doReport: 5 asks for the status, 6 for the
      cursor position; anything else is not handled; no parameter, nothing. */
  function ReportStatus(t: Term, a: seq<int>): (r: Term)
    requires Inv(t)
    ensures Inv(r) && r == t.(output := r.output, events := r.events)
  {
    if |a| == 0 then t
    else if a[0] == 5 then Send(t, Text("[3n"))
    else if a[0] == 6 then Send(t, PositionReport(t.scr.cx, t.scr.cy))
    else CodeNotHandled(t)
  }

  /** The '?' half of doReport: 15 asks for the printer status; anything
      else is not handled; no parameter, nothing. */
  function ReportExtended(t: Term, e: seq<int>): (r: Term)
    requires Inv(t)
    ensures Inv(r) && r == t.(output := r.output, events := r.events)
  {
    if |e| == 0 then t
    else if e[0] == 15 then Send(t, Text("[?10n"))
    else CodeNotHandled(t)
  }

  /** doDeviceAttributes: with the first parameter 0, or none, the VT102
      identification. */
  function DeviceAttributes(t: Term): (r: Term)
    requires Inv(t)
    ensures Inv(r) && r == t.(output := r.output, events := r.events)
  {
    var a := Attrs(t);
    if |a| == 0 || a[0] == 0 then Send(t, Text("[?6c")) else CodeNotHandled(t)
  }

  /** doSetScrollRegion: exactly two parameters, the first below the second. */
  function SetScrollRegion(t: Term): (r: Term)
    requires Inv(t)
    ensures Inv(r) && r == t.(top := r.top, bottom := r.bottom, events := r.events)
  {
    var a := Attrs(t);
    if |a| == 2 && a[0] < a[1] then t.(top := a[0] - 1, bottom := a[1] - 1) else CodeNotHandled(t)
  }

  /** doCursorPosition: exactly two parameters give row and column, counted
      from 1; anything else homes the cursor. */
  function CursorPosition(t: Term): (r: Term)
    requires Inv(t)
    ensures Inv(r) && r == t.(scr := r.scr)
  {
    var a := Attrs(t);
    if |a| == 2 then CursorTo(t, a[1] - 1, a[0] - 1) else CursorTo(t, 0, 0)
  }

  /** The parameter of J and K: 0 when there is no text. */
  function EraseArg(t: Term): int { if t.code == [] then 0 else ByteArrayToInt(t.code) }

  /** The parameter of L and P: 1 when there is no text. */
  function RepeatArg(t: Term): int { if t.code == [] then 1 else ByteArrayToInt(t.code) }

  /** The J case of doCSI: 0 erases to the end of the display, 1 to its
      start, 2 all of it; any other value leaves the terminal as it is. */
  function EraseInDisplay(t: Term, m: int): (r: Term)
    requires Inv(t)
    ensures Inv(r) && r == t.(scr := r.scr)
    ensures !(0 <= m <= 2) ==> r == t
  {
    if m == 0 then ClearScreen(t, ClearScreenEOD)
    else if m == 1 then ClearScreen(t, ClearScreenBOD)
    else if m == 2 then ClearScreen(t, ClearScreenAOD)
    else t
  }

  /** The K case of doCSI: 0 erases to the end of the line, 1 to its start,
      2 all of it; any other value leaves the terminal as it is. */
  function EraseInLine(t: Term, m: int): (r: Term)
    requires Inv(t)
    ensures Inv(r)
    ensures !(0 <= m <= 2) ==> r == t
  {
    if m == 0 then ClearLine(t, ClearLineEOL)
    else if m == 1 then ClearLine(t, ClearLineBOL)
    else if m == 2 then ClearLine(t, ClearLineAOL)
    else t
  }

  /** doCSI: the code holds the parameter text, ch is the final letter. */
  function Csi(t: Term, ch: byte): (r: Term)
    requires Inv(t)
    ensures Inv(r)
  {
    var t1 := t.(lastChar := ch);
    match S.Latin1Char(ch)
    case 'H' | 'f' => CursorPosition(t1)
    case 'A' => CursorUp(t1)
    case 'B' => CursorDown(t1)
    case 'C' => CursorRight(t1)
    case 'D' => CursorLeft(t1)
    case 'J' => EraseInDisplay(t1, EraseArg(t1))
    case 'h' => SetModes(t1, true)
    case 'K' => EraseInLine(t1, EraseArg(t1))
    case 'L' => InsertLines(t1, RepeatArg(t1))
    case 'c' => DeviceAttributes(t1)
    case 'l' => SetModes(t1, false)
    case 'm' => Graphics(t1)
    case 'n' => Report(t1)
    case 'P' => DeleteCharacters(t1, RepeatArg(t1))
    case 'r' => CursorTo(SetScrollRegion(t1.(modes := t1.modes.(originMode := true))), 0, 0)
    case 's' => SaveCursorPos(t1)
    case 'u' => RestoreCursorPos(t1)
    case _ => CodeNotHandled(t1)
  }

  /** The one-shot actions after a lone ESC (the code is still [ESC]). */
  function EscAction(t: Term, ch: byte): (r: Term)
    requires Inv(t)
    ensures Inv(r)
  {
    match S.Latin1Char(ch)
    case 'M' => ReverseNewLine(t)
    case 'D' => NewLine(t)
    case 'E' => NewLine(CarriageReturn(t))
    case '7' => SaveCursorPos(t)
    case '8' => RestoreCursorPos(t)
    case 'g' => VisualBell(t)
    case 'c' => t
    case 'Z' => DeviceAttributes(t)
    case _ => CodeNotHandled(t)
  }

  /** doLeadIn: consumes the byte into the pending code and returns NUL, or
      returns the byte unchanged when no code is pending. */
  function LeadIn(t: Term, ch: byte): (res: (Term, byte))
    requires Valid(t)
    ensures Valid(res.0)
    ensures res.1 == NUL || (res.0 == t && res.1 == ch)
    decreases |t.code|
  {
    var code := t.code;
    if ch == ESC && |code| == 0 then (t.(code := [ESC]), NUL)
    else if ch == ESC then LeadIn(t.(code := []), ch)
    else if ch == CSI && |code| == 0 then (t.(code := [ESC, Latin1('[')]), NUL)
    else if ch == CSI then LeadIn(t.(code := []), ch)
    else if |code| == 1 && code[0] == ESC then
      var t1 := t.(lastChar := ch);
      if ch == Latin1('[') || ch == Latin1(')') || ch == Latin1('(') then (t1.(code := code + [ch]), NUL)
      else (EscAction(t1, ch).(code := []), NUL)
    else if |code| >= 2 then
      if code[1] == Latin1('[') then
        if IsLetter(ch) then (Csi(t.(code := code[2..]), ch).(code := []), NUL)
        else
          var longer := code + [ch];
          (t.(code := if |longer| > 25 then [] else longer), NUL)
      else (t.(code := []), NUL)
    else (t, ch)
  }

  /** The switch of receiveChar on what doLeadIn passed through. */
  function Control(t: Term, ch: byte): (r: Term)
    requires Inv(t)
    ensures Inv(r)
  {
    if ch == ENQ || ch == SO || ch == SI || ch == NUL then t
    else if ch == BEL then Bell(t)
    else if ch == BS then CursorLeft(t)
    else if ch == LF then NewLine(t)
    else if ch == CR then CarriageReturn(t)
    else DoChar(t, ch)
  }

  /** receiveChar: the decoder, the switch, and the final byte forgotten. */
  function Receive(t: Term, ch: byte): (r: Term)
    requires Valid(t)
    ensures Valid(r) && r.lastChar == NUL
  {
    var (t1, c) := LeadIn(t, ch);
    var t2 := Control(t1, c);
    t2.(lastChar := NUL)
  }

  /** The bytes received one after the other. */
  function ReceiveAll(t: Term, bs: seq<byte>): (r: Term)
    requires Valid(t)
    ensures Valid(r)
  {
    if bs == [] then t else Receive(ReceiveAll(t, bs[..|bs| - 1]), bs[|bs| - 1])
  }

  /** keyPressEvent: nothing while the keyboard is locked; a recognised key
      sends its sequence; any other key with text sends the text up to its
      first NUL and, with local echo, receives every byte of it. */
  function KeyPress(t: Term, k: Keys.Key, text: seq<byte>): (r: Term)
    requires Valid(t)
    ensures Valid(r)
  {
    if t.modes.keyboardLock then t
    else if !k.Other? then t.(output := t.output + Keys.Sequence(k, t.modes.applicationCursorKeys))
    else if |text| == 0 then t
    else
      var t1 := t.(output := t.output + UntilNul(text));
      if t.modes.localEcho then ReceiveAll(t1, text) else t1
  }
}
