/** The VT102 emulation engine as an object (CEmulationVT102 over
    CEmulation): mode flags, margins and the pending control code are fields
    changed in place, and every screen effect goes through the Screen object
    it drives. Every method is proved to leave Model() equal to the function
    of module Terminal that states what the operation means. */
module Emulation {
  import opened Bytes
  import opened CharCells
  import opened CellArrays
  import opened Params
  import opened Screens
  import Keys
  import S = ScreenStates
  import T = Terminal

  /** The inner loops of attributes(): the digits from start on, and where
      they end. */
  method ScanDigits(s: seq<byte>, start: nat) returns (n: nat, num: seq<byte>)
    requires start <= |s|
    ensures start <= n <= |s| && num == s[start..n]
    ensures AllDigits(num) && (n == |s| || !IsDigit(s[n]))
  {
    n, num := start, [];
    while n < |s| && IsDigit(s[n])
      invariant start <= n <= |s| && num == s[start..n]
      invariant AllDigits(num)
    {
      num := num + [s[n]];
      n := n + 1;
    }
  }

  /** attributes(): one pass over the code; a '?' starts an extended
      parameter, and the byte after each digit run is skipped. */
  method ParseAttributes(s: seq<byte>) returns (attrs: seq<int>, ext: seq<int>, any: bool)
    ensures (attrs, ext, any) == Params.Attributes(s)
  {
    attrs, ext := [], [];
    var n: nat := 0;
    ReadNothing(s);
    while n < |s|
      invariant ReadUpTo(s, n, attrs, ext)
      decreases |s| - n
    {
      ghost var n0, attrs0, ext0 := n, attrs, ext;
      if s[n] == QMark {
        var m, num := ScanDigits(s, n + 1);
        ext := ext + [DigitsToInt(num)];
        n := m + 1;
        ReadQuestion(s, n0, m, n, attrs0, ext0, ext);
      } else {
        var m, num := ScanDigits(s, n);
        attrs := attrs + [DigitsToInt(num)];
        n := m + 1;
        ReadOrdinary(s, n0, m, n, attrs0, ext0, attrs);
      }
    }
    ReadAll(s, n, attrs, ext);
    any := |attrs| > 0 || |ext| > 0;
  }

  class Vt102 {
    /** the screen the emulation draws on */
    const screen: Screen

    /** the twelve mode flags (mVisualBell, mLocalEcho, ... mOriginMode) */
    var modes: T.Modes

    /** mSaveCursorPos */
    var saveX: int
    var saveY: int
    var top: int
    var bottom: int
    /** mControlCode, the pending control code */
    var code: seq<byte>
    /** mChar, the final byte of the code being acted on */
    var lastChar: byte
    /** every byte sent with sendAsciiChar and sendAsciiString */
    var output: seq<byte>
    var events: seq<T.Event>
    var fault: bool

    /** Both constructors' defaults, on a new screen with palette p. */
    constructor (p: Palette)
      ensures fresh(screen) && fresh(screen.grid)
      ensures Model() == T.Initial(p)
    {
      screen := new Screen(p);
      modes := T.InitialModes;
      saveX, saveY := 0, 0;
      top, bottom := 0, 0;
      code := [];
      lastChar := NUL;
      output := [];
      events := [];
      fault := false;
    }

    ghost function Model(): T.Term
      reads this, screen, screen.grid
    {
      T.Term(screen.Model(), modes, saveX, saveY, top, bottom, code, lastChar, output, events, fault)
    }

    ghost predicate Inv()
      reads this, screen, screen.grid
    {
      T.Inv(Model())
    }

    ghost predicate Valid()
      reads this, screen, screen.grid
    {
      T.Valid(Model())
    }

    // ----------------------------------------------------------------
    // CEmulation

    method CursorTo(col: int, row: int)
      requires Inv()
      modifies screen, screen.grid
      ensures Model() == T.CursorTo(old(Model()), col, row)
    {
      if col >= 0 && row >= 0 && col < screen.grid.cols && row < screen.grid.rows {
        screen.SetCursorPos(col, row);
      }
    }

    method BaseCursorUp()
      requires Inv()
      modifies screen, screen.grid
      ensures Model() == T.BaseCursorUp(old(Model()))
    {
      if screen.cy > 0 {
        screen.SetCursorPos(screen.cx, screen.cy - 1);
      }
    }

    method BaseCursorDown()
      requires Inv()
      modifies screen, screen.grid
      ensures Model() == T.BaseCursorDown(old(Model()))
    {
      if screen.cy < screen.grid.rows {
        screen.SetCursorPos(screen.cx, screen.cy + 1);
      }
    }

    method BaseCursorLeft()
      requires Inv()
      modifies screen, screen.grid
      ensures Model() == T.BaseCursorLeft(old(Model()))
    {
      if screen.cx > 0 {
        screen.SetCursorPos(screen.cx - 1, screen.cy);
      }
    }

    method BaseCursorRight()
      requires Inv()
      modifies screen, screen.grid
      ensures Model() == T.BaseCursorRight(old(Model()))
    {
      if screen.cx < screen.grid.cols - 1 {
        screen.SetCursorPos(screen.cx + 1, screen.cy);
      }
    }

    method ClearLine(mode: T.ClearLineMode)
      requires Inv()
      modifies screen, screen.grid
      ensures Model() == T.ClearLine(old(Model()), mode)
    {
      match mode
      case ClearLineEOL => screen.ClearEOL();
      case ClearLineBOL => screen.ClearBOL();
      case ClearLineAOL =>
        var saveCol, saveRow := screen.cx, screen.cy;
        screen.SetCursorPos(0, saveRow);
        screen.ClearEOL();
        screen.SetCursorPos(saveCol, saveRow);
    }

    method ClearScreen(mode: T.ClearScreenMode)
      requires Inv()
      modifies screen, screen.grid
      ensures Model() == T.ClearScreen(old(Model()), mode)
    {
      match mode
      case ClearScreenEOD => screen.ClearEOD();
      case ClearScreenBOD => screen.ClearBOD();
      case ClearScreenAOD => screen.Clear();
    }

    /** The J case of doCSI. */
    method EraseInDisplay(m: int)
      requires Inv()
      modifies screen, screen.grid
      ensures Model() == T.EraseInDisplay(old(Model()), m)
    {
      if m == 0 {
        ClearScreen(T.ClearScreenEOD);
      } else if m == 1 {
        ClearScreen(T.ClearScreenBOD);
      } else if m == 2 {
        ClearScreen(T.ClearScreenAOD);
      }
    }

    /** The K case of doCSI. */
    method EraseInLine(m: int)
      requires Inv()
      modifies screen, screen.grid
      ensures Model() == T.EraseInLine(old(Model()), m)
    {
      if m == 0 {
        ClearLine(T.ClearLineEOL);
      } else if m == 1 {
        ClearLine(T.ClearLineBOL);
      } else if m == 2 {
        ClearLine(T.ClearLineAOL);
      }
    }

    method DeleteCharacters(num: int)
      requires Inv()
      modifies screen.grid
      ensures Model() == T.DeleteCharacters(old(Model()), num)
    {
      screen.DelChars(num);
    }

    method InsertLines(num: int)
      requires Inv()
      modifies screen.grid
      ensures Model() == T.InsertLines(old(Model()), num)
    {
      screen.InsLines(num);
    }

    method SaveCursorPos()
      requires Inv()
      modifies this
      ensures Model() == T.SaveCursorPos(old(Model()))
    {
      saveX, saveY := screen.cx, screen.cy;
    }

    method RestoreCursorPos()
      requires Inv()
      modifies this, screen, screen.grid
      ensures Model() == T.RestoreCursorPos(old(Model()))
    {
      if saveX < screen.grid.cols {
        screen.SetCursorPos(saveX, saveY);
      } else if screen.grid.IndexOf(saveX, saveY) < screen.grid.Count() {
        fault := true;
      }
    }

    /** One row of a flash, left to right. */
    method FlashRow(ghost c0: seq<Cell>, y: int)
      requires Inv() && 0 <= y < screen.grid.rows && |c0| == |screen.grid.cells|
      requires screen.grid.cells == T.FlashedUpTo(c0, Index(screen.grid.cols, 0, y))
      modifies screen.grid
      ensures Inv() && Model() == old(Model()).(scr := old(Model()).scr.(cells := screen.grid.cells))
      ensures screen.grid.cells == T.FlashedUpTo(c0, Index(screen.grid.cols, 0, y + 1))
    {
      var g := screen.grid;
      var cols := g.cols;
      var x := 0;
      while x < cols
        invariant 0 <= x <= cols
        invariant g.cols == cols && g.rows == old(g.rows) && |g.cells| == |c0|
        invariant g.cells == T.FlashedUpTo(c0, Index(cols, x, y))
      {
        IndexInGrid(cols, g.rows, x, y);
        var i := g.IndexOf(x, y);
        var c := g.cells[i];
        g.cells := g.cells[i := c.SetReverse(!c.Reverse())];
        x := x + 1;
      }
    }

    /** One flash: every row, top to bottom. */
    method FlashPass()
      requires Inv()
      modifies screen.grid
      ensures Inv() && Model() == old(Model()).(scr := old(Model()).scr.(cells := T.Flash(old(screen.grid.cells))))
    {
      ghost var c0 := screen.grid.cells;
      var y := 0;
      while y < screen.grid.rows
        invariant 0 <= y <= screen.grid.rows
        invariant Inv() && Model() == old(Model()).(scr := old(Model()).scr.(cells := screen.grid.cells))
        invariant screen.grid.cells == T.FlashedUpTo(c0, Index(screen.grid.cols, 0, y))
      {
        FlashRow(c0, y);
        y := y + 1;
      }
    }

    /** doVisualBell: two flashes (the repaints are not modelled). */
    method VisualBell()
      requires Inv()
      modifies screen.grid
      ensures Model() == T.VisualBell(old(Model()))
    {
      FlashPass();
      FlashPass();
    }

    method Bell()
      requires Inv()
      modifies this, screen.grid
      ensures Model() == T.Bell(old(Model()))
    {
      if modes.visualBell {
        VisualBell();
      } else {
        events := events + [T.Beep];
      }
    }

    // ----------------------------------------------------------------
    // scrolls and newlines, with the VT102 overrides

    method ScrollUp()
      requires Inv()
      modifies this, screen, screen.grid
      ensures Model() == T.ScrollUp(old(Model()))
    {
      if modes.originMode {
        if 0 <= top && bottom < screen.grid.rows {
          screen.grid.ScrollGrid(ScrollMode.ScrollUp, 0, top, screen.grid.cols, (bottom - top) + 1);
        } else {
          fault := true;
        }
      } else {
        screen.ScrollUp();
      }
    }

    method ScrollDown()
      requires Inv()
      modifies this, screen, screen.grid
      ensures Model() == T.ScrollDown(old(Model()))
    {
      if modes.originMode {
        if 0 <= top < screen.grid.rows {
          screen.grid.ScrollGrid(ScrollMode.ScrollDown, 0, top, screen.grid.cols, (bottom - top) + 1);
        } else {
          fault := true;
        }
      } else {
        screen.ScrollDown();
      }
    }

    method BaseNewLine()
      requires Inv()
      modifies this, screen, screen.grid
      ensures Model() == T.BaseNewLine(old(Model()))
    {
      if screen.cy >= screen.grid.rows - 1 {
        ScrollUp();
      } else {
        screen.SetCursorPos(screen.cx, screen.cy + 1);
      }
    }

    method NewLine()
      requires Inv()
      modifies this, screen, screen.grid
      ensures Model() == T.NewLine(old(Model()))
    {
      if modes.originMode && screen.cy >= bottom {
        ScrollUp();
      } else {
        BaseNewLine();
      }
    }

    method BaseReverseNewLine()
      requires Inv()
      modifies this, screen, screen.grid
      ensures Model() == T.BaseReverseNewLine(old(Model()))
    {
      if screen.cy < 1 {
        ScrollDown();
      } else {
        screen.SetCursorPos(screen.cx, screen.cy - 1);
      }
    }

    method ReverseNewLine()
      requires Inv()
      modifies this, screen, screen.grid
      ensures Model() == T.ReverseNewLine(old(Model()))
    {
      if modes.originMode && screen.cy <= top {
        ScrollDown();
      } else {
        BaseReverseNewLine();
      }
    }

    method CarriageReturn()
      requires Inv()
      modifies this, screen, screen.grid
      ensures Model() == T.CarriageReturn(old(Model()))
    {
      screen.SetCursorPos(0, screen.cy);
      if modes.autoNewLine {
        NewLine();
      }
    }

    method AdvanceCursor()
      requires Inv()
      modifies this, screen, screen.grid
      ensures Model() == T.AdvanceCursor(old(Model()))
    {
      var moved := screen.AdvanceCursor();
      if !moved && modes.autoWrap {
        CarriageReturn();
        if !modes.autoNewLine {
          NewLine();
        }
      }
    }

    /** The insert loop of doChar: from column rows()-1 down to the column
        after the cursor, each cell copies its left neighbour. */
    method ShiftCells()
      requires Inv() && screen.grid.rows - 1 > screen.cx
      requires Index(screen.grid.cols, screen.grid.rows - 1, screen.cy) < screen.grid.Count()
      modifies screen.grid
      ensures screen.grid.cols == old(screen.grid.cols) && screen.grid.rows == old(screen.grid.rows)
      ensures screen.grid.cells == Copied(old(screen.grid.cells), Index(screen.grid.cols, screen.cx, screen.cy) + 1,
                                          Index(screen.grid.cols, screen.grid.rows - 1, screen.cy) + 1, -1)
    {
      var g := screen.grid;
      var y := screen.cy;
      ghost var c0 := g.cells;
      ghost var hi := Index(g.cols, g.rows - 1, y) + 1;
      var x := g.rows - 1;
      assert Copied(c0, hi, hi, -1) == c0;
      while x > screen.cx
        invariant screen.cx <= x <= g.rows - 1
        invariant g.cols == old(g.cols) && g.rows == old(g.rows)
        invariant |g.cells| == |c0|
        invariant g.cells == Copied(c0, Index(g.cols, x, y) + 1, hi, -1)
      {
        var i := g.IndexOf(x, y);
        CopiedStepDown(c0, i + 1, hi);
        g.cells := g.cells[i := g.cells[i].CopyFrom(g.cells[i - 1])];
        x := x - 1;
      }
    }

    /** The insert step of doChar: the shift, then the cursor cell cleared.
        A loop start outside the cell list is a fault. */
    method InsertShift()
      requires Inv()
      modifies this, screen.grid
      ensures Model() == T.InsertShift(old(Model()))
    {
      var g := screen.grid;
      IndexInGrid(g.cols, g.rows, screen.cx, screen.cy);
      var here := g.IndexOf(screen.cx, screen.cy);
      if g.rows - 1 > screen.cx {
        if g.IndexOf(g.rows - 1, screen.cy) >= g.Count() {
          fault := true;
        } else {
          ShiftCells();
        }
      }
      g.cells := g.cells[here := g.cells[here].Cleared(g.palette)];
    }

    /** doChar. */
    method DoChar(ch: byte)
      requires Inv()
      modifies this, screen, screen.grid
      ensures Model() == T.DoChar(old(Model()), ch)
    {
      if modes.autoInsert {
        InsertShift();
      }
      IndexInGrid(screen.grid.cols, screen.grid.rows, screen.cx, screen.cy);
      screen.PutChar(ch, screen.cx, screen.cy);
      AdvanceCursor();
    }

    /** CEmulationVT102::setGrid. */
    method SetGrid(c: int, r: int)
      requires T.Placed(Model())
      modifies this, screen.grid
      ensures Model() == T.SetGrid(old(Model()), c, r)
    {
      if c < 1 || r < 1 || screen.cx >= c || screen.cy >= r {
        fault := true;
      } else {
        top := 0;
        bottom := r;
        screen.SetGrid(c, r);
      }
    }

    method SetCols(c: int)
      requires Inv() && c > 0
      modifies this, screen.grid
      ensures Model() == T.SetCols(old(Model()), c)
    {
      if screen.cx >= c {
        fault := true;
      } else {
        screen.SetCols(c);
      }
    }

    // ----------------------------------------------------------------
    // CEmulationVT102

    /** sendAsciiChar(ESC) followed by sendAsciiString(s). */
    method Send(s: seq<byte>)
      modifies this
      ensures Model() == T.Send(old(Model()), s)
    {
      output := output + [ESC] + s;
    }

    /** doCodeNotHandled: the code and its final byte are reported. */
    method CodeNotHandled()
      modifies this
      ensures Model() == T.CodeNotHandled(old(Model()))
    {
      var text := if |code| > 1 then code + [lastChar] else [lastChar];
      events := events + [T.Unhandled(text)];
    }

    /** attributes() on the pending code. */
    method Attributes() returns (attrs: seq<int>, ext: seq<int>, any: bool)
      ensures (attrs, ext, any) == Params.Attributes(code)
    {
      attrs, ext, any := ParseAttributes(code);
    }

    /** One turn of the loop of doCursorUp: the base move, in origin mode
        only below the top margin. */
    method UpStep()
      requires Inv()
      modifies screen, screen.grid
      ensures Model() == T.UpStep(old(Model()))
    {
      if !modes.originMode || screen.cy > top {
        BaseCursorUp();
      }
    }

    /** The loop of doCursorUp: count steps. */
    method MoveUp(count: nat)
      requires Inv()
      modifies screen, screen.grid
      ensures Model() == T.UpTimes(old(Model()), count)
    {
      ghost var t0 := Model();
      var n := 0;
      while n < count
        invariant 0 <= n <= count
        invariant Inv() && Model() == T.UpTimes(t0, n)
      {
        UpStep();
        n := n + 1;
      }
    }

    method CursorUp()
      requires Inv()
      modifies screen, screen.grid
      ensures Model() == T.CursorUp(old(Model()))
    {
      var attrs, ext, any := Attributes();
      MoveUp(T.Count(attrs));
    }

    /** One turn of the loop of doCursorDown: the base move, in origin mode
        only above the bottom margin. */
    method DownStep()
      requires Inv()
      modifies screen, screen.grid
      ensures Model() == T.DownStep(old(Model()))
    {
      if !modes.originMode || screen.cy < bottom {
        BaseCursorDown();
      }
    }

    /** The loop of doCursorDown: count steps. */
    method MoveDown(count: nat)
      requires Inv()
      modifies screen, screen.grid
      ensures Model() == T.DownTimes(old(Model()), count)
    {
      ghost var t0 := Model();
      var n := 0;
      while n < count
        invariant 0 <= n <= count
        invariant Inv() && Model() == T.DownTimes(t0, n)
      {
        DownStep();
        n := n + 1;
      }
    }

    method CursorDown()
      requires Inv()
      modifies screen, screen.grid
      ensures Model() == T.CursorDown(old(Model()))
    {
      var attrs, ext, any := Attributes();
      MoveDown(T.Count(attrs));
    }

    /** The loop of doCursorLeft: count steps. */
    method MoveLeft(count: nat)
      requires Inv()
      modifies screen, screen.grid
      ensures Model() == T.LeftTimes(old(Model()), count)
    {
      ghost var t0 := Model();
      var n := 0;
      while n < count
        invariant 0 <= n <= count
        invariant Inv() && Model() == T.LeftTimes(t0, n)
      {
        BaseCursorLeft();
        n := n + 1;
      }
    }

    method CursorLeft()
      requires Inv()
      modifies screen, screen.grid
      ensures Model() == T.CursorLeft(old(Model()))
    {
      var attrs, ext, any := Attributes();
      MoveLeft(T.Count(attrs));
    }

    /** The loop of doCursorRight: count steps. */
    method MoveRight(count: nat)
      requires Inv()
      modifies screen, screen.grid
      ensures Model() == T.RightTimes(old(Model()), count)
    {
      ghost var t0 := Model();
      var n := 0;
      while n < count
        invariant 0 <= n <= count
        invariant Inv() && Model() == T.RightTimes(t0, n)
      {
        BaseCursorRight();
        n := n + 1;
      }
    }

    method CursorRight()
      requires Inv()
      modifies screen, screen.grid
      ensures Model() == T.CursorRight(old(Model()))
    {
      var attrs, ext, any := Attributes();
      MoveRight(T.Count(attrs));
    }

    /** The case of doGraphics for one value. */
    method Sgr(v: int)
      requires Inv()
      modifies this, screen
      ensures Model() == T.Sgr(old(Model()), v)
    {
      var p := screen.grid.palette;
      if v == 0 {
        screen.bg := p.background;
        screen.fg := p.foreground;
        screen.blink := false;
        screen.bold := false;
        screen.reverse := false;
        screen.underline := false;
      } else if v == 1 {
        screen.bold := true;
      } else if v == 4 {
        screen.underline := true;
      } else if v == 5 {
        screen.blink := true;
      } else if v == 7 {
        screen.reverse := true;
      } else if v == 8 {
      } else if 30 <= v <= 37 {
        screen.fg := T.TableColor(v - 30);
      } else if v == 38 || v == 39 {
        screen.fg := p.foreground;
      } else if v == 43 {
        screen.fg := T.TableColor(3);
      } else if 40 <= v <= 47 {
        screen.bg := T.TableColor(v - 40);
      } else if v == 48 || v == 49 {
        screen.bg := p.background;
      } else {
        CodeNotHandled();
      }
    }

    method Graphics()
      requires Inv()
      modifies this, screen
      ensures Model() == T.Graphics(old(Model()))
    {
      var attrs, ext, any := Attributes();
      if |attrs| == 0 {
        attrs := [0];
      }
      SgrEach(attrs);
    }

    /** The loop of doGraphics: each value in turn. */
    method SgrEach(vs: seq<int>)
      requires Inv()
      modifies this, screen
      ensures Model() == T.SgrAll(old(Model()), vs)
    {
      ghost var t0 := Model();
      var n := 0;
      while n < |vs|
        invariant 0 <= n <= |vs|
        invariant Inv() && Model() == T.SgrAll(t0, vs[..n])
      {
        ghost var before := Model();
        Sgr(vs[n]);
        T.SgrAllStep(t0, vs, n, before, Model());
        n := n + 1;
      }
      assert vs[..|vs|] == vs;
    }

    /** The case of doSetModes/doResetModes for one ordinary value. */
    method Mode(v: int, on: bool)
      requires Inv()
      modifies this
      ensures Model() == T.Mode(old(Model()), v, on)
    {
      if v == 2 {
        modes := modes.(keyboardLock := on);
      } else if v == 4 {
        modes := modes.(autoInsert := on);
      } else if v == 12 {
        modes := modes.(localEcho := on);
      } else if v == 20 {
        modes := modes.(autoNewLine := on);
      } else {
        CodeNotHandled();
      }
    }

    /** The case of doSetModes/doResetModes for one '?' value. */
    method ExtMode(v: int, on: bool)
      requires Inv()
      modifies this, screen.grid
      ensures Model() == T.ExtMode(old(Model()), v, on)
    {
      if v == 3 {
        SetCols(if on then 132 else 80);
      } else if v == 1 {
        modes := modes.(applicationCursorKeys := on);
      } else if v == 4 {
        modes := modes.(jumpScroll := on);
      } else if v == 5 {
        modes := modes.(reverseVideo := on);
      } else if v == 6 {
        modes := modes.(originMode := on);
      } else if v == 7 {
        modes := modes.(autoWrap := on);
      } else if v == 25 {
        modes := modes.(cursorOn := on);
      } else {
        CodeNotHandled();
      }
    }

    /** The ordinary values of doSetModes/doResetModes, in order. */
    method ModeAll(vs: seq<int>, on: bool)
      requires Inv()
      modifies this
      ensures Model() == T.ModeAll(old(Model()), vs, on)
    {
      ghost var t0 := Model();
      var n := 0;
      while n < |vs|
        invariant 0 <= n <= |vs|
        invariant Inv() && Model() == T.ModeAll(t0, vs[..n], on)
      {
        assert vs[..n + 1][..n] == vs[..n];
        Mode(vs[n], on);
        n := n + 1;
      }
      assert vs[..|vs|] == vs;
    }

    /** The '?' values of doSetModes/doResetModes, in order. */
    method ExtModeAll(vs: seq<int>, on: bool)
      requires Inv()
      modifies this, screen.grid
      ensures Model() == T.ExtModeAll(old(Model()), vs, on)
    {
      ghost var t0 := Model();
      var n := 0;
      while n < |vs|
        invariant 0 <= n <= |vs|
        invariant Inv() && Model() == T.ExtModeAll(t0, vs[..n], on)
      {
        assert vs[..n + 1][..n] == vs[..n];
        ExtMode(vs[n], on);
        n := n + 1;
      }
      assert vs[..|vs|] == vs;
    }

    /** doSetModes (on) and doResetModes (off). */
    method SetModes(on: bool)
      requires Inv()
      modifies this, screen.grid
      ensures Model() == T.SetModes(old(Model()), on)
    {
      var attrs, ext, any := Attributes();
      ModeAll(attrs, on);
      ExtModeAll(ext, on);
    }

    method Report()
      requires Inv()
      modifies this
      ensures Model() == T.Report(old(Model()))
    {
      var attrs, ext, any := Attributes();
      ReportStatus(attrs);
      ReportExtended(ext);
    }

    method ReportStatus(attrs: seq<int>)
      requires Inv()
      modifies this
      ensures Model() == T.ReportStatus(old(Model()), attrs)
    {
      if |attrs| > 0 {
        if attrs[0] == 5 {
          Send(Text("[3n"));
        } else if attrs[0] == 6 {
          Send(T.PositionReport(screen.cx, screen.cy));
        } else {
          CodeNotHandled();
        }
      }
    }

    method ReportExtended(ext: seq<int>)
      requires Inv()
      modifies this
      ensures Model() == T.ReportExtended(old(Model()), ext)
    {
      if |ext| > 0 {
        if ext[0] == 15 {
          Send(Text("[?10n"));
        } else {
          CodeNotHandled();
        }
      }
    }

    method DeviceAttributes()
      requires Inv()
      modifies this
      ensures Model() == T.DeviceAttributes(old(Model()))
    {
      var attrs, ext, any := Attributes();
      if |attrs| == 0 {
        attrs := [0];
      }
      if attrs[0] == 0 {
        Send(Text("[?6c"));
      } else {
        CodeNotHandled();
      }
    }

    method SetScrollRegion()
      requires Inv()
      modifies this
      ensures Model() == T.SetScrollRegion(old(Model()))
    {
      var attrs, ext, any := Attributes();
      if |attrs| == 2 && attrs[0] < attrs[1] {
        top := attrs[0] - 1;
        bottom := attrs[1] - 1;
      } else {
        CodeNotHandled();
      }
    }

    method CursorPosition()
      requires Inv()
      modifies screen, screen.grid
      ensures Model() == T.CursorPosition(old(Model()))
    {
      ghost var t0 := Model();
      var row, col := 0, 0;
      var attrs, ext, any := Attributes();
      if |attrs| == 2 {
        row := attrs[0] - 1;
        col := attrs[1] - 1;
      }
      assert T.CursorPosition(t0) == T.CursorTo(t0, col, row);
      CursorTo(col, row);
    }

    /** doCSI: the code holds the parameter text, ch is the final letter. */
    method Csi(ch: byte)
      requires Inv()
      modifies this, screen, screen.grid
      ensures Model() == T.Csi(old(Model()), ch)
    {
      lastChar := ch;
      match S.Latin1Char(ch)
      case 'H' | 'f' => CursorPosition();
      case 'A' => CursorUp();
      case 'B' => CursorDown();
      case 'C' => CursorRight();
      case 'D' => CursorLeft();
      case 'J' =>
        var m := if code == [] then 0 else ByteArrayToInt(code);
        EraseInDisplay(m);
      case 'h' => SetModes(true);
      case 'K' =>
        var m := if code == [] then 0 else ByteArrayToInt(code);
        EraseInLine(m);
      case 'L' =>
        var num := if code == [] then 1 else ByteArrayToInt(code);
        InsertLines(num);
      case 'c' => DeviceAttributes();
      case 'l' => SetModes(false);
      case 'm' => Graphics();
      case 'n' => Report();
      case 'P' =>
        var num := if code == [] then 1 else ByteArrayToInt(code);
        DeleteCharacters(num);
      case 'r' =>
        modes := modes.(originMode := true);
        SetScrollRegion();
        CursorTo(0, 0);
      case 's' => SaveCursorPos();
      case 'u' => RestoreCursorPos();
      case _ => CodeNotHandled();
    }

    /** The actions after a lone ESC (the code is still [ESC]). */
    method EscAction(ch: byte)
      requires Inv()
      modifies this, screen, screen.grid
      ensures Model() == T.EscAction(old(Model()), ch)
    {
      match S.Latin1Char(ch)
      case 'M' => ReverseNewLine();
      case 'D' => NewLine();
      case 'E' =>
        CarriageReturn();
        NewLine();
      case '7' => SaveCursorPos();
      case '8' => RestoreCursorPos();
      case 'g' => VisualBell();
      case 'c' =>
      case 'Z' => DeviceAttributes();
      case _ => CodeNotHandled();
    }

    /** doLeadIn. */
    method LeadIn(ch: byte) returns (r: byte)
      requires Valid()
      modifies this, screen, screen.grid
      ensures (Model(), r) == T.LeadIn(old(Model()), ch)
      decreases |code|
    {
      if ch == ESC && |code| == 0 {
        code := [ESC];
        return NUL;
      } else if ch == ESC && |code| > 0 {
        code := [];
        r := LeadIn(ch);
        return;
      } else if ch == CSI && |code| == 0 {
        code := [ESC, Latin1('[')];
        return NUL;
      } else if ch == CSI && |code| > 0 {
        code := [];
        r := LeadIn(ch);
        return;
      } else if |code| == 1 && code[0] == ESC {
        lastChar := ch;
        if ch == Latin1('[') || ch == Latin1(')') || ch == Latin1('(') {
          code := code + [ch];
          return NUL;
        }
        EscAction(ch);
        code := [];
        return NUL;
      } else if |code| >= 2 {
        if code[1] == Latin1('[') {
          if IsLetter(ch) {
            code := code[2..];
            Csi(ch);
            code := [];
            return NUL;
          } else {
            code := code + [ch];
            if |code| > 25 {
              code := [];
            }
          }
        } else {
          code := [];
        }
        return NUL;
      }
      return ch;
    }

    /** receiveChar. */
    method ReceiveChar(b: byte)
      requires Valid()
      modifies this, screen, screen.grid
      ensures Valid() && Model() == T.Receive(old(Model()), b)
    {
      var ch := LeadIn(b);
      if ch == ENQ || ch == SO || ch == SI || ch == NUL {
      } else if ch == BEL {
        Bell();
      } else if ch == BS {
        CursorLeft();
      } else if ch == LF {
        NewLine();
      } else if ch == CR {
        CarriageReturn();
      } else {
        DoChar(ch);
      }
      lastChar := NUL;
    }

    /** The local echo: every byte of bs received in turn. */
    method ReceiveAll(bs: seq<byte>)
      requires Valid()
      modifies this, screen, screen.grid
      ensures Valid() && Model() == T.ReceiveAll(old(Model()), bs)
    {
      ghost var t0 := Model();
      var n := 0;
      while n < |bs|
        invariant 0 <= n <= |bs|
        invariant Valid() && Model() == T.ReceiveAll(t0, bs[..n])
      {
        assert bs[..n + 1][..n] == bs[..n];
        ReceiveChar(bs[n]);
        n := n + 1;
      }
      assert bs[..|bs|] == bs;
    }

    /** keyPressEvent for key k with text text (its Latin-1 bytes). */
    method KeyPress(k: Keys.Key, text: seq<byte>)
      requires Valid()
      modifies this, screen, screen.grid
      ensures Valid() && Model() == T.KeyPress(old(Model()), k, text)
    {
      if modes.keyboardLock {
        return;
      }
      if !k.Other? {
        output := output + Keys.Sequence(k, modes.applicationCursorKeys);
        return;
      }
      if |text| > 0 {
        output := output + UntilNul(text);
        if modes.localEcho {
          ReceiveAll(text);
        }
      }
    }
  }
}
