/** Properties of the VT102 emulation, stated on the functions of module
    Terminal: the lead-in decoder, the switch of receiveChar, the CSI
    commands, the modes, the renditions, the reports, the cursor movement and
    the newline, wrap, insert, save/restore and bell behaviour. */
module TerminalLemmas {
  import opened Bytes
  import opened CharCells
  import opened CellArrays
  import opened Params
  import S = ScreenStates
  import T = Terminal
  import Keys

  // ------------------------------------------------------------------
  // the lead-in decoder (doLeadIn)

  /** ESC, whatever is pending, leaves a lone ESC pending and is swallowed. */
  lemma EscStartsSequence(t: T.Term)
    requires T.Valid(t)
    ensures T.LeadIn(t, ESC) == (t.(code := [ESC]), NUL)
  {
    if t.code != [] {
      assert T.LeadIn(t, ESC) == T.LeadIn(t.(code := []), ESC);
    }
  }

  /** The 8-bit CSI, whatever is pending, leaves ESC '[' pending and is
      swallowed. */
  lemma CsiByteStartsSequence(t: T.Term)
    requires T.Valid(t)
    ensures T.LeadIn(t, CSI) == (t.(code := [ESC, Latin1('[')]), NUL)
  {
    if t.code != [] {
      assert T.LeadIn(t, CSI) == T.LeadIn(t.(code := []), CSI);
    }
  }

  /** A byte is passed on to the switch of receiveChar exactly when nothing is
      pending and it starts no sequence; then the state is untouched. */
  lemma PassesThroughIffIdle(t: T.Term, ch: byte)
    requires T.Valid(t)
    ensures T.LeadIn(t, ch) == (t, ch) <==> (t.code == [] && ch != ESC && ch != CSI)
    ensures T.LeadIn(t, ch).1 != NUL ==> t.code == []
  {
    if ch == ESC {
      EscStartsSequence(t);
    } else if ch == CSI {
      CsiByteStartsSequence(t);
    } else if t.code != [] {
      var r := T.LeadIn(t, ch);
      assert r.1 == NUL;
      if |t.code| == 1 {
        assert r.0.code != [ESC] || r.0.code == [] || |r.0.code| == 2;
      }
      assert r.0.code != t.code;
    }
  }

  /** After a lone ESC, '[', '(' and ')' extend the code; any other byte runs
      its one-shot action and leaves nothing pending. */
  lemma AfterEsc(t: T.Term, ch: byte)
    requires T.Valid(t) && t.code == [ESC] && ch != ESC && ch != CSI
    ensures var r := T.LeadIn(t, ch);
      r.1 == NUL && r.0.lastChar == ch &&
      (ch == Latin1('[') || ch == Latin1('(') || ch == Latin1(')') ==> r.0 == t.(lastChar := ch, code := [ESC, ch])) &&
      (!(ch == Latin1('[') || ch == Latin1('(') || ch == Latin1(')')) ==>
         r.0 == T.EscAction(t.(lastChar := ch), ch).(code := []))
  {
    var r := T.LeadIn(t, ch);
    if !(ch == Latin1('[') || ch == Latin1('(') || ch == Latin1(')')) {
      EscActionKeepsLastChar(t.(lastChar := ch), ch);
    }
  }

  /** The one-shot actions do not change the final byte. */
  lemma EscActionKeepsLastChar(t: T.Term, ch: byte)
    requires T.Inv(t)
    ensures T.EscAction(t, ch).lastChar == t.lastChar
  {
  }

  /** A byte after a lone ESC with no one-shot action is reported with that
      byte alone as its text (the code is a single byte), and changes nothing
      else; ESC c (reset) changes nothing. */
  lemma EscUnknownReported(t: T.Term, ch: byte)
    requires T.Inv(t) && t.code == [ESC] && t.lastChar == ch
    ensures !(S.Latin1Char(ch) in {'M', 'D', 'E', '7', '8', 'g', 'c', 'Z'}) ==>
      T.EscAction(t, ch) == t.(events := t.events + [T.Unhandled([ch])])
    ensures ch == Latin1('c') ==> T.EscAction(t, ch) == t
  {
  }

  /** While a CSI accumulates, a letter strips the leading ESC '[', runs doCSI
      and leaves nothing pending. */
  lemma CsiLetterDispatches(t: T.Term, ch: byte)
    requires T.Valid(t) && |t.code| >= 2 && t.code[1] == Latin1('[') && IsLetter(ch)
    ensures T.LeadIn(t, ch) == (T.Csi(t.(code := t.code[2..]), ch).(code := []), NUL)
  {
  }

  /** While a CSI accumulates, any other byte is appended, and the code is
      dropped once it would grow past 25 bytes. */
  lemma CsiAccumulates(t: T.Term, ch: byte)
    requires T.Valid(t) && |t.code| >= 2 && t.code[1] == Latin1('[')
    requires !IsLetter(ch) && ch != ESC && ch != CSI
    ensures T.LeadIn(t, ch).1 == NUL
    ensures T.LeadIn(t, ch).0 == t.(code := if |t.code| >= 25 then [] else t.code + [ch])
    ensures |T.LeadIn(t, ch).0.code| <= 25
  {
  }

  /** The byte after ESC ( or ESC ) is discarded, with the code. */
  lemma CharsetDesignatorDiscards(t: T.Term, ch: byte)
    requires T.Valid(t) && |t.code| == 2 && (t.code[1] == Latin1('(') || t.code[1] == Latin1(')'))
    requires ch != ESC && ch != CSI
    ensures T.LeadIn(t, ch) == (t.(code := []), NUL)
  {
  }

  // ------------------------------------------------------------------
  // receiveChar

  /** Attributes of an empty code: no parameters at all. */
  lemma NoParameters(t: T.Term)
    requires t.code == []
    ensures T.Attrs(t) == [] && T.ExtAttrs(t) == []
  {
    assert Fields([]) == [];
  }

  /** With a sequence pending, the byte only feeds the decoder. */
  lemma ReceivePending(t: T.Term, ch: byte)
    requires T.Valid(t) && t.code != []
    ensures T.Receive(t, ch) == T.LeadIn(t, ch).0.(lastChar := NUL)
  {
    PassesThroughIffIdle(t, ch);
  }

  /** With nothing pending: NUL, ENQ, SO and SI are ignored, BEL rings the
      bell, BS moves one column left, LF is a newline, CR a carriage return
      and every other byte that starts no sequence is written by doChar. */
  lemma ReceiveIdle(t: T.Term, ch: byte)
    requires T.Valid(t) && t.code == [] && ch != ESC && ch != CSI
    ensures var r := T.Receive(t, ch);
      (ch == NUL || ch == ENQ || ch == SO || ch == SI ==> r == t.(lastChar := NUL)) &&
      (ch == BEL ==> r == T.Bell(t).(lastChar := NUL)) &&
      (ch == BS ==> r == T.BaseCursorLeft(t).(lastChar := NUL)) &&
      (ch == LF ==> r == T.NewLine(t).(lastChar := NUL)) &&
      (ch == CR ==> r == T.CarriageReturn(t).(lastChar := NUL)) &&
      (ch !in {NUL, ENQ, SO, SI, BEL, BS, LF, CR} ==> r == T.DoChar(t, ch).(lastChar := NUL))
  {
    PassesThroughIffIdle(t, ch);
    if ch == BS {
      NoParameters(t);
      assert T.Count(T.Attrs(t)) == 1;
      assert T.LeftTimes(t, 1) == T.BaseCursorLeft(T.LeftTimes(t, 0));
      assert T.Control(t, ch) == T.BaseCursorLeft(t);
    }
  }

  // ------------------------------------------------------------------
  // cursor movement (doCursorTo, doCursorUp/Down/Left/Right)

  function Max(a: int, b: int): int { if a >= b then a else b }
  function Min(a: int, b: int): int { if a <= b then a else b }

  /** doCursorTo moves exactly when the target lies in the grid, and
      otherwise changes nothing. */
  lemma CursorToTargets(t: T.Term, col: int, row: int)
    requires T.Inv(t)
    ensures var r := T.CursorTo(t, col, row);
      (0 <= col < t.scr.cols && 0 <= row < t.scr.rows ==> r.scr.cx == col && r.scr.cy == row) &&
      (!(0 <= col < t.scr.cols && 0 <= row < t.scr.rows) ==> r == t)
  {
  }

  /** Down from the last row is attempted and rejected by setCursorPos. */
  lemma CursorDownFromLastRow(t: T.Term)
    requires T.Inv(t) && t.scr.cy == t.scr.rows - 1
    ensures T.BaseCursorDown(t) == t
  {
  }

  /** The smallest row index CSI A reaches: 0, or in origin mode the top margin, or
      row 0 when the margin lies above it (the cursor does not move at all
      when it is already above the margin). */
  function UpFloor(t: T.Term): int {
    if !t.modes.originMode then 0
    else if t.scr.cy >= t.top then Max(t.top, 0)
    else t.scr.cy
  }

  /** n steps up stop at the floor and keep the column. */
  lemma {:induction false} UpTimesStops(t: T.Term, n: nat)
    requires T.Inv(t)
    ensures T.UpTimes(t, n).scr.cols == t.scr.cols && T.UpTimes(t, n).scr.rows == t.scr.rows
    ensures T.UpTimes(t, n).scr.cx == t.scr.cx
    ensures T.UpTimes(t, n).scr.cy == Max(t.scr.cy - n, UpFloor(t))
  {
    if n > 0 {
      UpTimesStops(t, n - 1);
      var r := T.UpTimes(t, n - 1);
      assert r.modes == t.modes && r.top == t.top;
      UpStepEffect(r, T.UpTimes(t, n));
    }
  }

  /** One step of CSI A moves one row up unless it is at row 0 or, in origin
      mode, at or above the top margin. */
  lemma UpStepEffect(r: T.Term, u: T.Term)
    requires T.Inv(r) && u == T.UpStep(r)
    ensures u.scr.cols == r.scr.cols && u.scr.rows == r.scr.rows && u.scr.cx == r.scr.cx
    ensures u.scr.cy == if (!r.modes.originMode || r.scr.cy > r.top) && r.scr.cy > 0 then r.scr.cy - 1 else r.scr.cy
  {
  }

  /** The largest row index CSI B reaches: the last row, or in origin mode the
      bottom margin, or the last row when the margin lies below it (the
      cursor does not move at all when it is already below the margin). */
  function DownCeiling(t: T.Term): int {
    if !t.modes.originMode then t.scr.rows - 1
    else if t.scr.cy <= t.bottom then Min(t.bottom, t.scr.rows - 1)
    else t.scr.cy
  }

  /** n steps down stop at the ceiling and keep the column. */
  lemma {:induction false} DownTimesStops(t: T.Term, n: nat)
    requires T.Inv(t)
    ensures T.DownTimes(t, n).scr.cols == t.scr.cols && T.DownTimes(t, n).scr.rows == t.scr.rows
    ensures T.DownTimes(t, n).scr.cx == t.scr.cx
    ensures T.DownTimes(t, n).scr.cy == Min(t.scr.cy + n, DownCeiling(t))
  {
    if n > 0 {
      DownTimesStops(t, n - 1);
      var r := T.DownTimes(t, n - 1);
      assert r.modes == t.modes && r.bottom == t.bottom;
      DownStepEffect(r, T.DownTimes(t, n));
      DownGuardIsCeiling(t, r, n - 1);
    }
  }

  /** After some steps of CSI B, the next one moves exactly when the cursor
      is still short of the ceiling. */
  lemma DownGuardIsCeiling(t: T.Term, r: T.Term, k: nat)
    requires T.Inv(t) && r.modes == t.modes && r.bottom == t.bottom && r.scr.rows == t.scr.rows
    requires r.scr.cy == Min(t.scr.cy + k, DownCeiling(t))
    ensures ((!r.modes.originMode || r.scr.cy < r.bottom) && r.scr.cy < r.scr.rows - 1) <==> r.scr.cy < DownCeiling(t)
  {
  }

  /** One step of CSI B moves one row down unless it is at the last row or,
      in origin mode, at or below the bottom margin. */
  lemma DownStepEffect(r: T.Term, d: T.Term)
    requires T.Inv(r) && d == T.DownStep(r)
    ensures d.scr.cols == r.scr.cols && d.scr.rows == r.scr.rows && d.scr.cx == r.scr.cx
    ensures d.scr.cy == if (!r.modes.originMode || r.scr.cy < r.bottom) && r.scr.cy < r.scr.rows - 1 then r.scr.cy + 1 else r.scr.cy
  {
  }

  /** n steps left stop at column 0 and keep the row. */
  lemma {:induction false} LeftTimesStops(t: T.Term, n: nat)
    requires T.Inv(t)
    ensures T.LeftTimes(t, n).scr.cols == t.scr.cols && T.LeftTimes(t, n).scr.rows == t.scr.rows
    ensures T.LeftTimes(t, n).scr.cy == t.scr.cy
    ensures T.LeftTimes(t, n).scr.cx == Max(t.scr.cx - n, 0)
  {
    if n > 0 {
      LeftTimesStops(t, n - 1);
    }
  }

  /** n steps right stop at the last column and keep the row. */
  lemma {:induction false} RightTimesStops(t: T.Term, n: nat)
    requires T.Inv(t)
    ensures T.RightTimes(t, n).scr.cols == t.scr.cols && T.RightTimes(t, n).scr.rows == t.scr.rows
    ensures T.RightTimes(t, n).scr.cy == t.scr.cy
    ensures T.RightTimes(t, n).scr.cx == Min(t.scr.cx + n, t.scr.cols - 1)
  {
    if n > 0 {
      RightTimesStops(t, n - 1);
    }
  }

  // ------------------------------------------------------------------
  // CSI H, f and r

  /** CSI H and CSI f: exactly two parameters aim at (row p0-1, column p1-1),
      anything else at the origin; a target outside the grid is ignored. */
  lemma CsiCursorPosition(t: T.Term, ch: byte)
    requires T.Inv(t) && (ch == Latin1('H') || ch == Latin1('f'))
    ensures var a := T.Attrs(t);
      var col := if |a| == 2 then a[1] - 1 else 0;
      var row := if |a| == 2 then a[0] - 1 else 0;
      var r := T.Csi(t, ch);
      (0 <= col < t.scr.cols && 0 <= row < t.scr.rows ==> r.scr.cx == col && r.scr.cy == row) &&
      (!(0 <= col < t.scr.cols && 0 <= row < t.scr.rows) ==> r == t.(lastChar := ch))
  {
    var t1 := t.(lastChar := ch);
    var a := T.Attrs(t);
    assert T.Csi(t, ch) == T.CursorPosition(t1);
    if |a| == 2 {
      CursorToTargets(t1, a[1] - 1, a[0] - 1);
    } else {
      CursorToTargets(t1, 0, 0);
    }
  }

  /** CSI r: origin mode on, the margins p0-1 and p1-1 when there are exactly
      two parameters with p0 < p1 (otherwise one not-handled event and the
      margins kept), and the cursor home. */
  lemma CsiSetScrollRegion(t: T.Term)
    requires T.Inv(t)
    ensures var a := T.Attrs(t);
      var r := T.Csi(t, Latin1('r'));
      r.modes.originMode && r.scr.cx == 0 && r.scr.cy == 0 &&
      (|a| == 2 && a[0] < a[1] ==> r.top == a[0] - 1 && r.bottom == a[1] - 1 && r.events == t.events) &&
      (!(|a| == 2 && a[0] < a[1]) ==> r.top == t.top && r.bottom == t.bottom && |r.events| == |t.events| + 1)
  {
    var t1 := t.(lastChar := Latin1('r'));
    var t2 := t1.(modes := t1.modes.(originMode := true));
    var t3 := T.SetScrollRegion(t2);
    assert T.Csi(t, Latin1('r')) == T.CursorTo(t3, 0, 0);
    CursorToTargets(t3, 0, 0);
  }

  // ------------------------------------------------------------------
  // the margins in origin mode

  /** In origin mode a newline on or below the bottom margin scrolls only the
      region: every row of it but the bottom one takes a copy of the row below,
      the bottom row is cleared, and every cell outside rows top..bottom, and
      the cursor, stay. */
  lemma NewLineScrollsOnlyRegion(t: T.Term, k: int)
    requires T.Inv(t) && t.modes.originMode && t.scr.cy >= t.bottom
    requires 0 <= t.top && t.bottom < t.scr.rows
    requires 0 <= k < |t.scr.cells|
    ensures var r := T.NewLine(t);
      r.scr.cx == t.scr.cx && r.scr.cy == t.scr.cy && r.fault == t.fault &&
      (!(t.top <= k / t.scr.cols <= t.bottom) ==> r.scr.cells[k] == t.scr.cells[k])
    ensures t.top <= k / t.scr.cols < t.bottom ==> k + t.scr.cols < |t.scr.cells|
    ensures var r := T.NewLine(t);
      (k / t.scr.cols == t.bottom ==> r.scr.cells[k] == t.scr.cells[k].Cleared(t.scr.palette)) &&
      (t.top <= k / t.scr.cols < t.bottom ==> r.scr.cells[k] == t.scr.cells[k].CopyFrom(t.scr.cells[k + t.scr.cols]))
  {
    var s := t.scr;
    NewLineInRegion(t);
    if t.top <= k / s.cols <= t.bottom {
      RegionScrollUpRewrites(s.cells, s.palette, s.cols, s.rows, t.top, T.RegionHeight(t), k);
    } else {
      ScrollKeepsOtherRows(ScrollMode.ScrollUp, s.cells, s.palette, s.cols, s.rows, 0, t.top, s.cols, T.RegionHeight(t), k);
    }
  }

  /** The newline of NewLineScrollsOnlyRegion is the full-width upward scroll
      of the region's rows. */
  lemma NewLineInRegion(t: T.Term)
    requires T.Inv(t) && t.modes.originMode && t.scr.cy >= t.bottom
    requires 0 <= t.top && t.bottom < t.scr.rows
    ensures ScrollArgs(ScrollMode.ScrollUp, t.scr.cols, t.scr.rows, 0, t.top, t.scr.cols, T.RegionHeight(t))
    ensures var r := T.NewLine(t);
      r.scr.cx == t.scr.cx && r.scr.cy == t.scr.cy && r.fault == t.fault &&
      r.scr.cells == ScrolledUp(t.scr.cells, t.scr.palette, t.scr.cols, t.scr.rows, 0, t.top, t.scr.cols, T.RegionHeight(t))
  {
  }

  /** In origin mode a reverse newline on or above the top margin scrolls
      only the region: every row of it in the grid but the top one takes a
      copy of the row above, the top row is cleared, and every cell outside
      rows top..bottom, and the cursor, stay. */
  lemma ReverseNewLineScrollsOnlyRegion(t: T.Term, k: int)
    requires T.Inv(t) && t.modes.originMode && t.scr.cy <= t.top
    requires 0 <= t.top < t.scr.rows
    requires 0 <= k < |t.scr.cells|
    ensures var r := T.ReverseNewLine(t);
      r.scr.cx == t.scr.cx && r.scr.cy == t.scr.cy && r.fault == t.fault &&
      (!(t.top <= k / t.scr.cols <= t.bottom) ==> r.scr.cells[k] == t.scr.cells[k])
    ensures t.top < k / t.scr.cols <= t.bottom ==> t.scr.cols <= k
    ensures var r := T.ReverseNewLine(t);
      (k / t.scr.cols == t.top ==> r.scr.cells[k] == t.scr.cells[k].Cleared(t.scr.palette)) &&
      (t.top < k / t.scr.cols <= t.bottom ==> r.scr.cells[k] == t.scr.cells[k].CopyFrom(t.scr.cells[k - t.scr.cols]))
  {
    var s := t.scr;
    ReverseNewLineInRegion(t);
    if t.top <= k / s.cols <= t.bottom {
      RegionScrollDownRewrites(s.cells, s.palette, s.cols, s.rows, t.top, T.RegionHeight(t), k);
    } else {
      ScrollKeepsOtherRows(ScrollMode.ScrollDown, s.cells, s.palette, s.cols, s.rows, 0, t.top, s.cols, T.RegionHeight(t), k);
    }
  }

  /** The reverse newline of ReverseNewLineScrollsOnlyRegion is the
      full-width downward scroll of the region's rows. */
  lemma ReverseNewLineInRegion(t: T.Term)
    requires T.Inv(t) && t.modes.originMode && t.scr.cy <= t.top
    requires 0 <= t.top < t.scr.rows
    ensures ScrollArgs(ScrollMode.ScrollDown, t.scr.cols, t.scr.rows, 0, t.top, t.scr.cols, T.RegionHeight(t))
    ensures var r := T.ReverseNewLine(t);
      r.scr.cx == t.scr.cx && r.scr.cy == t.scr.cy && r.fault == t.fault &&
      r.scr.cells == ScrolledDown(t.scr.cells, t.scr.palette, t.scr.cols, t.scr.rows, 0, t.top, t.scr.cols, T.RegionHeight(t))
  {
  }

  /** setGrid leaves the bottom margin at rows, one past the last row: in
      origin mode a newline on the last row then reaches the region scroll,
      whose clear of row rows is out of range. */
  lemma DefaultMarginInOriginModeFaults(t: T.Term)
    requires T.Inv(t) && t.modes.originMode && t.bottom == t.scr.rows && t.scr.cy == t.scr.rows - 1
    ensures T.NewLine(t) == T.Faulted(t)
  {
  }

  // ------------------------------------------------------------------
  // newline, reverse newline, carriage return, wrap

  /** Outside origin mode a newline on the last row scrolls the whole screen
      and keeps the cursor; on any other row it moves one row down in the
      same column. */
  lemma NewLineMoves(t: T.Term)
    requires T.Inv(t) && !t.modes.originMode
    ensures var r := T.NewLine(t);
      (t.scr.cy >= t.scr.rows - 1 ==> r == t.(scr := S.ScrollUp(t.scr))) &&
      (t.scr.cy < t.scr.rows - 1 ==> r.scr.cx == t.scr.cx && r.scr.cy == t.scr.cy + 1 && r.scr.cells != [])
  {
  }

  /** Outside origin mode a reverse newline on row 0 scrolls the whole screen
      down and keeps the cursor; on any other row it moves one row up. */
  lemma ReverseNewLineMoves(t: T.Term)
    requires T.Inv(t) && !t.modes.originMode
    ensures var r := T.ReverseNewLine(t);
      (t.scr.cy == 0 ==> r == t.(scr := S.ScrollDown(t.scr))) &&
      (t.scr.cy > 0 ==> r.scr.cx == t.scr.cx && r.scr.cy == t.scr.cy - 1)
  {
  }

  /** A carriage return goes to column 0 of the cursor row and is followed by
      a newline exactly when autoNewLine is set. */
  lemma CarriageReturnHomesColumn(t: T.Term)
    requires T.Inv(t)
    ensures var home := T.MoveTo(t, 0, t.scr.cy);
      home.scr.cx == 0 && home.scr.cy == t.scr.cy &&
      T.CarriageReturn(t) == if t.modes.autoNewLine then T.NewLine(home) else home
  {
  }

  /** advanceCursor left of the last column moves one column right; on the
      last column, with autoWrap, the cursor goes to column 0 and exactly one
      newline follows whatever autoNewLine is, and without autoWrap nothing
      changes. */
  lemma AdvanceCursorWraps(t: T.Term)
    requires T.Inv(t)
    ensures var r := T.AdvanceCursor(t);
      (t.scr.cx < t.scr.cols - 1 ==> r == T.MoveTo(t, t.scr.cx + 1, t.scr.cy)) &&
      (t.scr.cx == t.scr.cols - 1 && t.modes.autoWrap ==> r == T.NewLine(T.MoveTo(t, 0, t.scr.cy))) &&
      (t.scr.cx == t.scr.cols - 1 && !t.modes.autoWrap ==> r == t)
  {
    S.AdvanceCursorMoves(t.scr);
    if t.scr.cx == t.scr.cols - 1 {
      assert t.(scr := S.AdvanceCursor(t.scr).0) == t;
    }
  }

  // ------------------------------------------------------------------
  // doChar

  /** Without insert mode and left of the last column, doChar leaves the
      character, the pen colours and reverse flag in the cursor cell and moves
      one column right. */
  lemma DoCharWritesThenAdvances(t: T.Term, ch: byte)
    requires T.Inv(t) && !t.modes.autoInsert && t.scr.cx < t.scr.cols - 1
    ensures var r := T.DoChar(t, ch); var i := S.CursorIndex(t.scr);
      r.scr.cells[i].character as int == ch as int &&
      r.scr.cells[i].foreground == t.scr.fg && r.scr.cells[i].background == t.scr.bg &&
      r.scr.cells[i].Reverse() == t.scr.reverse &&
      r.scr.cx == t.scr.cx + 1 && r.scr.cy == t.scr.cy
  {
    var i := S.CursorIndex(t.scr);
    S.PutCharStores(t.scr, ch, t.scr.cx, t.scr.cy);
    var t2 := t.(scr := S.PutChar(t.scr, ch, t.scr.cx, t.scr.cy));
    AdvanceCursorWraps(t2);
    var c := t2.scr.cells[i];
    assert T.DoChar(t, ch).scr.cells[i] == c.SetCursor(false, DefaultCursorStyle);
    SetCursorKeepsOtherFlags(c, false, DefaultCursorStyle);
  }

  /** The insert step of doChar: the cells after the cursor up to column
      rows()-1 each take a copy of their left neighbour, the cursor cell is
      cleared and no other cell changes; a loop start outside the list is a
      fault and only the clear happens. */
  lemma InsertShiftShifts(t: T.Term, k: int)
    requires T.Inv(t) && 0 <= k < |t.scr.cells|
    ensures var r := T.InsertShift(t); var s := t.scr; var i := S.CursorIndex(s);
      var shifted := s.rows - 1 > s.cx && T.InsertEnd(s) < |s.cells|;
      r.fault == (t.fault || (s.rows - 1 > s.cx && T.InsertEnd(s) >= |s.cells|)) &&
      r.scr.cells[k] ==
        if k == i then s.cells[k].Cleared(s.palette)
        else if shifted && i < k <= T.InsertEnd(s) then s.cells[k].CopyFrom(s.cells[k - 1])
        else s.cells[k]
  {
  }

  // ------------------------------------------------------------------
  // save and restore, bell

  /** After a save, a restore puts the cursor back where it was, and neither
      changes the saved position afterwards. */
  lemma SaveRestoreRoundTrip(t: T.Term)
    requires T.Inv(t)
    ensures var r := T.RestoreCursorPos(T.SaveCursorPos(t));
      r.scr.cx == t.scr.cx && r.scr.cy == t.scr.cy &&
      r.saveX == t.scr.cx && r.saveY == t.scr.cy && r.fault == t.fault
  {
  }

  /** Setting the reverse bit where it was clear, then clearing it again,
      gives back the attribute word, and the other way round. */
  lemma ReverseBitRoundTrip(a: bv16)
    ensures a & 0x08 == 0 ==> (a | 0x08) & !0x08 == a
    ensures a & 0x08 != 0 ==> (a & !0x08) | 0x08 == a
  {
  }

  /** Flipping a cell's reverse bit twice restores the cell. */
  lemma FlipTwice(c: Cell)
    ensures c.SetReverse(!c.Reverse()).SetReverse(c.Reverse()) == c
  {
    ReverseBitRoundTrip(c.attributes);
  }

  /** Two flashes leave every cell as it was. */
  lemma FlashTwiceIsIdentity(cells: seq<Cell>)
    ensures T.Flash(T.Flash(cells)) == cells
  {
    forall k | 0 <= k < |cells| ensures T.Flash(T.Flash(cells))[k] == cells[k] {
      FlipTwice(cells[k]);
    }
  }

  /** The visual bell changes nothing in the end; the audible one only adds
      a Beep event. */
  lemma BellEffect(t: T.Term)
    requires T.Inv(t)
    ensures t.modes.visualBell ==> T.Bell(t) == t && T.VisualBell(t) == t
    ensures !t.modes.visualBell ==> T.Bell(t) == t.(events := t.events + [T.Beep])
  {
    FlashTwiceIsIdentity(t.scr.cells);
  }

  // ------------------------------------------------------------------
  // clears

  /** A cell as clear() leaves it, whatever its cursor style: no attribute
      bit, a blank, the default colours. */
  predicate Blank(c: Cell, p: Palette) {
    c.attributes == 0 && c.character == DefaultChar && c.foreground == p.foreground && c.background == p.background
  }

  /** CSI 2 K (AOL): the cursor row is blanked, the cursor ends where it was
      and only its cell carries the cursor bit, and no other row changes. */
  lemma ClearWholeLine(t: T.Term, k: int)
    requires T.Inv(t) && 0 <= k < |t.scr.cells|
    ensures var r := T.ClearLine(t, T.ClearLineAOL); var s := t.scr;
      r.scr.cx == s.cx && r.scr.cy == s.cy &&
      r.scr.cells[S.CursorIndex(s)].Cursor() && r.scr.cells[S.CursorIndex(s)].character == DefaultChar &&
      (k / s.cols == s.cy && k != S.CursorIndex(s) ==> Blank(r.scr.cells[k], s.palette)) &&
      (k / s.cols != s.cy ==> r.scr.cells[k] == s.cells[k])
  {
    var s := t.scr;
    var t1 := T.MoveTo(t, 0, s.cy);
    IndexInGrid(s.cols, s.rows, 0, s.cy);
    S.ClearEOLClearsRowSuffix(t1.scr, k);
    S.ClearEOLClearsRowSuffix(t1.scr, S.CursorIndex(s));
    RowOfPosition(s.cols, s.rows, k);
    IndexCoordinates(s.cols, 0, s.cy);
    IndexCoordinates(s.cols, s.cx, s.cy);
    if k / s.cols == s.cy && k != S.CursorIndex(s) && k != Index(s.cols, 0, s.cy) {
      assert t1.scr.cells[k] == s.cells[k];
    }
  }

  /** CSI 2 J (AOD) leaves the cursor at the origin and every cell cleared. */
  lemma ClearWholeScreen(t: T.Term)
    requires T.Inv(t)
    ensures var r := T.ClearScreen(t, T.ClearScreenAOD);
      r.scr.cx == 0 && r.scr.cy == 0 &&
      forall k :: 0 <= k < |r.scr.cells| ==> r.scr.cells[k] == NewCell(t.scr.palette).(cursorStyle := CursorStyle.Underline)
  {
    S.ClearLeavesDefaults(t.scr);
  }

  // ------------------------------------------------------------------
  // graphics rendition (doGraphics)

  /** The rendition values doGraphics has a case for. */
  predicate SgrHandled(v: int) {
    v == 0 || v == 1 || v == 4 || v == 5 || v == 7 || v == 8 || 30 <= v <= 49
  }

  /** How many of vs doGraphics reports as not handled. */
  function UnhandledSgr(vs: seq<int>): nat {
    if vs == [] then 0 else UnhandledSgr(vs[..|vs| - 1]) + (if SgrHandled(vs[|vs| - 1]) then 0 else 1)
  }

  /** The pen of a screen: the colours and four flags the next character is
      drawn with. */
  function Pen(s: S.ScreenState): (Color, Color, bool, bool, bool, bool) {
    (s.fg, s.bg, s.blink, s.bold, s.reverse, s.underline)
  }

  /** A value with a case in doGraphics adds no event; one without is
      reported and changes nothing else. */
  lemma SgrReports(t: T.Term, v: int)
    requires T.Inv(t)
    ensures var r := T.Sgr(t, v);
      (SgrHandled(v) <==> r.events == t.events) &&
      (!SgrHandled(v) ==> r == T.CodeNotHandled(t))
  {
  }

  /** SGR 0 restores the palette's colours and clears the four flags; 1, 4,
      5 and 7 set one flag each; 8 (concealed) changes nothing. */
  lemma SgrFlags(t: T.Term, v: int)
    requires T.Inv(t)
    ensures var r := T.Sgr(t, v); var s := t.scr;
      (v == 0 ==> Pen(r.scr) == (s.palette.foreground, s.palette.background, false, false, false, false)) &&
      (v == 1 ==> Pen(r.scr) == Pen(s).(3 := true)) &&
      (v == 4 ==> Pen(r.scr) == Pen(s).(5 := true)) &&
      (v == 5 ==> Pen(r.scr) == Pen(s).(2 := true)) &&
      (v == 7 ==> Pen(r.scr) == Pen(s).(4 := true)) &&
      (v == 8 ==> r == t)
  {
  }

  /** 30-37 pick a foreground and 40-47 a background from the colour table,
      except that 43 sets the foreground; 38/39 and 48/49 restore one default
      colour. */
  lemma SgrColours(t: T.Term, v: int)
    requires T.Inv(t) && 30 <= v <= 49
    ensures var r := T.Sgr(t, v); var s := t.scr;
      (v <= 37 ==> Pen(r.scr) == Pen(s).(0 := T.TableColor(v - 30))) &&
      (v == 43 ==> Pen(r.scr) == Pen(s).(0 := T.TableColor(3))) &&
      (40 <= v <= 47 && v != 43 ==> Pen(r.scr) == Pen(s).(1 := T.TableColor(v - 40))) &&
      (v == 38 || v == 39 ==> Pen(r.scr) == Pen(s).(0 := s.palette.foreground)) &&
      (v == 48 || v == 49 ==> Pen(r.scr) == Pen(s).(1 := s.palette.background))
  {
  }

  /** A run of rendition values changes nothing but the pen, and adds one
      report per value without a case, after the events already there. */
  lemma {:induction false} SgrAllEffect(t: T.Term, vs: seq<int>)
    requires T.Inv(t)
    ensures var r := T.SgrAll(t, vs);
      r.scr == t.scr.(fg := r.scr.fg, bg := r.scr.bg, blink := r.scr.blink,
                      bold := r.scr.bold, reverse := r.scr.reverse, underline := r.scr.underline) &&
      |r.events| == |t.events| + UnhandledSgr(vs) && r.events[..|t.events|] == t.events
  {
    if vs != [] {
      var u := T.SgrAll(t, vs[..|vs| - 1]);
      SgrAllEffect(t, vs[..|vs| - 1]);
      SgrReports(u, vs[|vs| - 1]);
      assert T.SgrAll(t, vs) == T.Sgr(u, vs[|vs| - 1]);
    }
  }

  /** A run of values that ends in 0 leaves the default pen, whatever came
      before. */
  lemma SgrEndingInResetResets(t: T.Term, vs: seq<int>)
    requires T.Inv(t)
    ensures var s := T.SgrAll(t, vs + [0]).scr;
      Pen(s) == (t.scr.palette.foreground, t.scr.palette.background, false, false, false, false)
  {
    var w := vs + [0];
    assert w[..|w| - 1] == vs;
    SgrAllEffect(t, vs);
  }

  /** ESC [ m with no parameters is SGR 0. */
  lemma GraphicsWithoutParametersResets(t: T.Term)
    requires T.Inv(t) && T.Attrs(t) == []
    ensures T.Graphics(t) == T.Sgr(t, 0)
  {
    assert T.GraphicsValues(t) == [0];
    assert [0][..0] == [];
    assert T.SgrAll(t, [0]) == T.Sgr(T.SgrAll(t, []), 0);
  }

  // ------------------------------------------------------------------
  // erase, insert and delete (doCSI J, K, L, P)

  /** CSI J erases in the display as its parameter text reads (0 when there
      is none); EraseInDisplay ignores any value but 0, 1 and 2. */
  lemma CsiEraseInDisplay(t: T.Term)
    requires T.Inv(t)
    ensures var t1 := t.(lastChar := Latin1('J'));
      T.Csi(t, Latin1('J')) == T.EraseInDisplay(t1, T.EraseArg(t1))
  {
  }

  /** CSI K erases in the line as its parameter text reads (0 when there is
      none); EraseInLine ignores any value but 0, 1 and 2. */
  lemma CsiEraseInLine(t: T.Term)
    requires T.Inv(t)
    ensures var t1 := t.(lastChar := Latin1('K'));
      T.Csi(t, Latin1('K')) == T.EraseInLine(t1, T.EraseArg(t1))
  {
  }

  /** A parameter list such as "1;2" is not a number: J and K erase with it as
      they do with 0. */
  lemma EraseArgOfList(t: T.Term)
    requires t.code == [0x31, 0x3B, 0x32]
    ensures T.EraseArg(t) == 0
  {
    ByteArrayToIntRejects();
  }

  /** CSI J without parameters erases from the cursor to the end of the
      display, and CSI K from the cursor to the end of the line. */
  lemma CsiEraseDefault(t: T.Term, ch: byte)
    requires T.Inv(t) && t.code == [] && (ch == Latin1('J') || ch == Latin1('K'))
    ensures var t1 := t.(lastChar := ch);
      T.Csi(t, ch) == if ch == Latin1('J') then t1.(scr := S.ClearEOD(t.scr)) else t1.(scr := S.ClearEOL(t.scr))
  {
  }

  /** CSI L without parameters inserts one line at the cursor; with
      parameter text it inserts as many as the text reads. */
  lemma CsiInsertLinesCount(t: T.Term)
    requires T.Inv(t)
    ensures var n := if t.code == [] then 1 else ByteArrayToInt(t.code);
      T.Csi(t, Latin1('L')) == t.(lastChar := Latin1('L'), scr := S.InsLines(t.scr, n))
  {
    var t1 := t.(lastChar := Latin1('L'));
    assert T.Csi(t, Latin1('L')) == T.InsertLines(t1, T.RepeatArg(t1));
  }

  /** CSI P without parameters deletes one character at the cursor; with
      parameter text it deletes as many as the text reads. */
  lemma CsiDeleteCharactersCount(t: T.Term)
    requires T.Inv(t)
    ensures var n := if t.code == [] then 1 else ByteArrayToInt(t.code);
      T.Csi(t, Latin1('P')) == t.(lastChar := Latin1('P'), scr := S.DelChars(t.scr, n))
  {
    var t1 := t.(lastChar := Latin1('P'));
    assert T.Csi(t, Latin1('P')) == T.DeleteCharacters(t1, T.RepeatArg(t1));
  }

  /** The final letters doCSI has a case for. */
  predicate CsiKnown(ch: byte) {
    S.Latin1Char(ch) in {'H', 'f', 'A', 'B', 'C', 'D', 'J', 'h', 'K', 'L', 'c', 'l', 'm', 'n', 'P', 'r', 's', 'u'}
  }

  /** A final letter without a case is reported, with the parameter text and
      the letter, and changes nothing else. */
  lemma CsiUnknownReported(t: T.Term, ch: byte)
    requires T.Inv(t) && IsLetter(ch) && !CsiKnown(ch)
    ensures var t1 := t.(lastChar := ch);
      T.Csi(t, ch) == t1.(events := t.events + [T.Unhandled(T.NotHandledText(t1))]) &&
      T.NotHandledText(t1)[|T.NotHandledText(t1)| - 1] == ch
  {
    assert T.Csi(t, ch) == T.CodeNotHandled(t.(lastChar := ch));
  }

  // ------------------------------------------------------------------
  // modes (doSetModes, doResetModes)

  /** The flag an ordinary mode parameter names. */
  function ModeValue(m: T.Modes, v: int): bool
    requires T.IsModeFlag(v)
  {
    if v == 2 then m.keyboardLock else if v == 4 then m.autoInsert
    else if v == 12 then m.localEcho else m.autoNewLine
  }

  /** The flag a '?' mode parameter names. */
  function ExtValue(m: T.Modes, v: int): bool
    requires T.IsExtFlag(v)
  {
    if v == 1 then m.applicationCursorKeys else if v == 4 then m.jumpScroll
    else if v == 5 then m.reverseVideo else if v == 6 then m.originMode
    else if v == 7 then m.autoWrap else m.cursorOn
  }

  /** Two flag records agree on every flag that no mode parameter names. */
  predicate SameUnnamed(m: T.Modes, n: T.Modes) {
    m.visualBell == n.visualBell && m.relativeCoordinates == n.relativeCoordinates
  }

  /** An ordinary mode parameter with a case switches its flag and no other;
      any other value is reported and changes nothing else. */
  lemma ModeEffect(t: T.Term, v: int, on: bool, w: int)
    requires T.Inv(t)
    ensures var r := T.Mode(t, v, on);
      (T.IsModeFlag(v) <==> r.events == t.events) &&
      (!T.IsModeFlag(v) ==> r == T.CodeNotHandled(t)) &&
      (T.IsModeFlag(v) ==> ModeValue(r.modes, v) == on) &&
      (T.IsModeFlag(w) && w != v ==> ModeValue(r.modes, w) == ModeValue(t.modes, w)) &&
      (T.IsExtFlag(w) ==> ExtValue(r.modes, w) == ExtValue(t.modes, w)) &&
      SameUnnamed(r.modes, t.modes)
  {
  }

  /** A '?' mode parameter with a case switches its flag and no other; ?3
      resizes the screen to 132 or 80 columns, a fault when the cursor column
      would fall outside; any other value is reported. */
  lemma ExtModeEffect(t: T.Term, v: int, on: bool, w: int)
    requires T.Inv(t)
    ensures var r := T.ExtMode(t, v, on);
      (T.IsExtFlag(v) || v == 3 <==> r.events == t.events) &&
      (!T.IsExtFlag(v) && v != 3 ==> r == T.CodeNotHandled(t)) &&
      (T.IsExtFlag(v) ==> ExtValue(r.modes, v) == on && r.scr == t.scr) &&
      (T.IsExtFlag(w) && w != v ==> ExtValue(r.modes, w) == ExtValue(t.modes, w)) &&
      (T.IsModeFlag(w) ==> ModeValue(r.modes, w) == ModeValue(t.modes, w)) &&
      SameUnnamed(r.modes, t.modes) &&
      (v == 3 ==> var c := if on then 132 else 80;
         r.modes == t.modes && r.scr.rows == t.scr.rows &&
         (r.fault <==> t.fault || t.scr.cx >= c) &&
         (t.scr.cx < c ==> r.scr.cols == c && |r.scr.cells| == t.scr.rows * c))
  {
  }

  /** After a run of ordinary mode parameters, a flag named in the run is
      switched and one not named keeps its value. */
  lemma {:induction false} ModeAllSwitches(t: T.Term, vs: seq<int>, on: bool, w: int)
    requires T.Inv(t) && T.IsModeFlag(w)
    ensures var r := T.ModeAll(t, vs, on);
      (w in vs ==> ModeValue(r.modes, w) == on) &&
      (w !in vs ==> ModeValue(r.modes, w) == ModeValue(t.modes, w))
  {
    if vs != [] {
      var init := vs[..|vs| - 1];
      assert vs == init + [vs[|vs| - 1]];
      ModeAllSwitches(t, init, on, w);
      ModeEffect(T.ModeAll(t, init, on), vs[|vs| - 1], on, w);
    }
  }

  /** After a run of '?' mode parameters, a flag named in the run is switched
      and one not named keeps its value. */
  lemma {:induction false} ExtModeAllSwitches(t: T.Term, vs: seq<int>, on: bool, w: int)
    requires T.Inv(t) && T.IsExtFlag(w)
    ensures var r := T.ExtModeAll(t, vs, on);
      (w in vs ==> ExtValue(r.modes, w) == on) &&
      (w !in vs ==> ExtValue(r.modes, w) == ExtValue(t.modes, w))
  {
    if vs != [] {
      var init := vs[..|vs| - 1];
      assert vs == init + [vs[|vs| - 1]];
      ExtModeAllSwitches(t, init, on, w);
      ExtModeEffect(T.ExtModeAll(t, init, on), vs[|vs| - 1], on, w);
    }
  }

  // ------------------------------------------------------------------
  // reports (doReport, doDeviceAttributes)

  /** The cursor position report is '[', the row and the column counted from
      1 as two parameters the decoder reads back, and 'R'. */
  lemma PositionReportReadsBack(col: int, row: int)
    requires 0 <= col < MaxInt && 0 <= row < MaxInt
    ensures var p := T.PositionReport(col, row);
      p[0] == Latin1('[') && p[|p| - 1] == Latin1('R') &&
      Attributes(p[1..|p| - 1]) == ([row + 1, col + 1], [], true)
  {
    var ps := [Ordinary(row + 1), Ordinary(col + 1)];
    var p := T.PositionReport(col, row);
    assert ps[1..] == [Ordinary(col + 1)];
    assert Render(ps[1..]) == Decimal(col + 1);
    assert Render(ps) == Decimal(row + 1) + [Semicolon] + Decimal(col + 1);
    assert p == [Latin1('[')] + Render(ps) + [Latin1('R')];
    assert p[1..|p| - 1] == Render(ps);
    AttributesRender(ps);
    assert Ordinaries(ps[1..][1..]) == [];
    assert Ordinaries(ps) == [row + 1, col + 1];
    assert Extendeds(ps[1..][1..]) == [];
    assert Extendeds(ps) == [];
  }

  /** ESC [ 6 n answers with ESC and the cursor position report, ESC [ 5 n
      with ESC [ 3 n, ESC [ ? 15 n with ESC [ ? 10 n; each adds nothing
      else. */
  lemma ReportAnswers(t: T.Term)
    requires T.Inv(t)
    ensures var r := T.Report(t); var a := T.Attrs(t); var e := T.ExtAttrs(t);
      (a == [6] && e == [] ==> r == t.(output := t.output + [ESC] + T.PositionReport(t.scr.cx, t.scr.cy))) &&
      (a == [5] && e == [] ==> r == t.(output := t.output + [ESC] + Text("[3n"))) &&
      (a == [] && e == [15] ==> r == t.(output := t.output + [ESC] + Text("[?10n"))) &&
      (a == [] && e == [] ==> r == t)
  {
  }

  /** Each list's first value is answered or reported on its own: the
      report adds one event for each list whose first value has no case. */
  lemma ReportEvents(t: T.Term)
    requires T.Inv(t)
    ensures var r := T.Report(t); var a := T.Attrs(t); var e := T.ExtAttrs(t);
      |r.events| == |t.events| + (if |a| > 0 && a[0] != 5 && a[0] != 6 then 1 else 0)
                                + (if |e| > 0 && e[0] != 15 then 1 else 0)
  {
  }

  /** Device attributes: with no parameter or a first parameter 0 the answer
      is ESC [ ? 6 c; anything else is reported and sends nothing. */
  lemma DeviceAttributesAnswer(t: T.Term)
    requires T.Inv(t)
    ensures var r := T.DeviceAttributes(t); var a := T.Attrs(t);
      ((|a| == 0 || a[0] == 0) <==> r.events == t.events) &&
      (|a| == 0 || a[0] == 0 ==> r == t.(output := t.output + [ESC] + Text("[?6c"))) &&
      (|a| > 0 && a[0] != 0 ==> r == T.CodeNotHandled(t))
  {
  }

  /** The parameter of the identification answer reads back as the single
      '?' value 6 (a VT102). */
  lemma IdentificationReadsBack()
    ensures Attributes(Text("?6")) == ([], [6], true)
  {
    var ps := [Extended(6)];
    assert Decimal(6) == [0x36];
    assert Text("?6") == [QMark, 0x36];
    assert Render(ps) == Text("?6");
    AttributesRender(ps);
    assert ps[1..] == [];
    assert Ordinaries(ps) == [] && Extendeds(ps) == [6];
  }

  // ------------------------------------------------------------------
  // construction and the keyboard (keyPressEvent)

  /** After construction: visual bell, jump scroll and the cursor on, every
      other flag off, the saved cursor and the cursor at (0,0), nothing
      pending, sent or reported. */
  lemma InitialDefaults(p: Palette)
    ensures var t := T.Initial(p); var m := t.modes;
      m.visualBell && m.jumpScroll && m.cursorOn &&
      !m.localEcho && !m.autoWrap && !m.autoNewLine && !m.autoInsert && !m.keyboardLock &&
      !m.reverseVideo && !m.relativeCoordinates && !m.applicationCursorKeys && !m.originMode &&
      t.saveX == 0 && t.saveY == 0 && t.scr.cx == 0 && t.scr.cy == 0 &&
      t.code == [] && t.output == [] && t.events == [] && !t.fault && T.Placed(t) && t.scr.cells == []
  {
  }

  /** A locked keyboard ignores every key; a recognised key sends ESC and its
      suffix and changes nothing else; another key without text does nothing,
      and with text and no local echo it sends the text up to its first NUL
      and changes nothing else. */
  lemma KeyPressEffect(t: T.Term, k: Keys.Key, text: seq<byte>)
    requires T.Valid(t)
    ensures var r := T.KeyPress(t, k, text);
      (t.modes.keyboardLock ==> r == t) &&
      (!t.modes.keyboardLock && !k.Other? ==>
         r == t.(output := t.output + [ESC] + Keys.Suffix(k, t.modes.applicationCursorKeys))) &&
      (!t.modes.keyboardLock && k.Other? && text == [] ==> r == t) &&
      (!t.modes.keyboardLock && k.Other? && text != [] && !t.modes.localEcho ==>
         r == t.(output := t.output + UntilNul(text)))
  {
  }
}
