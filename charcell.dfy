/** One character cell of the terminal grid (CCharCell).

    A cell is stored by value in its array's list, and the array assigns cells
    with the copy operator, so a cell is modelled as a value: each setter of the
    source is a function that returns the cell with that one change made, and the
    grid writes the result back into its list. */
module CharCells {

  datatype Color = Rgb(red: int, green: int, blue: int)

  /** The screen's default foreground and background colours, which new and
      cleared cells take. */
  datatype Palette = Palette(foreground: Color, background: Color)

  datatype CursorStyle = Underline | BlockOutline | BlockInvert

  /** The style setCursor applies when its caller gives none. */
  const DefaultCursorStyle: CursorStyle := BlockInvert

  const AttrSelect: bv16 := 0x0001
  const AttrBlink: bv16 := 0x0002
  const AttrBold: bv16 := 0x0004
  const AttrReverse: bv16 := 0x0008
  const AttrUnderline: bv16 := 0x0010
  const AttrCursor: bv16 := 0x0020

  const DefaultChar: char := ' '

  /** The six attribute flags are distinct single bits 0x01 .. 0x20. */
  lemma FlagsAreDistinctBits()
    ensures AttrSelect == 1 << 0 && AttrBlink == 1 << 1 && AttrBold == 1 << 2
    ensures AttrReverse == 1 << 3 && AttrUnderline == 1 << 4 && AttrCursor == 1 << 5
    ensures AttrSelect | AttrBlink | AttrBold | AttrReverse | AttrUnderline | AttrCursor == 0x3F
  {
  }

  /** An attribute word with one bit set when b and cleared otherwise (the
      source's `|=` or `&= ~`): that bit reads b and every other bit is kept. */
  function Assign(a: bv16, bit: bv16, b: bool): (r: bv16)
    ensures r & bit == (if b then bit else 0)
    ensures r & !bit == a & !bit
  {
    var m: bv16 := if b then bit else 0;
    (a & !bit) | m
  }

  /** Assign is the source's `a |= bit` when b and `a &= ~bit` otherwise. */
  lemma AssignSets(a: bv16, bit: bv16)
    ensures Assign(a, bit, true) == a | bit
  {
  }

  lemma AssignClears(a: bv16, bit: bv16)
    ensures Assign(a, bit, false) == a & !bit
  {
  }

  datatype Cell = Cell(attributes: bv16, character: char, foreground: Color,
                       background: Color, cursorStyle: CursorStyle)
  {
    predicate Cursor() { attributes & AttrCursor != 0 }
    predicate Blink() { attributes & AttrBlink != 0 }
    predicate Select() { attributes & AttrSelect != 0 }
    predicate Bold() { attributes & AttrBold != 0 }
    predicate Reverse() { attributes & AttrReverse != 0 }
    predicate Underline() { attributes & AttrUnderline != 0 }

    /** The colour the cell is drawn in: the stored background when reverse is set. */
    function ForegroundColor(): Color {
      if Reverse() then background else foreground
    }

    /** The colour behind the character: the stored foreground when reverse is set. */
    function BackgroundColor(): Color {
      if Reverse() then foreground else background
    }

    /** Set bit when b, clear it otherwise; every other bit and field is kept. */
    function WithBit(bit: bv16, b: bool): (r: Cell)
      ensures r.attributes & bit == (if b then bit else 0)
      ensures r.attributes & !bit == attributes & !bit
      ensures r == this.(attributes := r.attributes)
    {
      this.(attributes := Assign(attributes, bit, b))
    }

    function SetSelect(b: bool): (r: Cell)
      ensures r.Select() == b
      ensures r.attributes & !AttrSelect == attributes & !AttrSelect
      ensures r == this.(attributes := r.attributes)
    {
      WithBit(AttrSelect, b)
    }

    function SetBold(b: bool): (r: Cell)
      ensures r.Bold() == b
      ensures r.attributes & !AttrBold == attributes & !AttrBold
      ensures r == this.(attributes := r.attributes)
    {
      WithBit(AttrBold, b)
    }

    function SetReverse(b: bool): (r: Cell)
      ensures r.Reverse() == b
      ensures r.attributes & !AttrReverse == attributes & !AttrReverse
      ensures r == this.(attributes := r.attributes)
    {
      WithBit(AttrReverse, b)
    }

    function SetUnderline(b: bool): (r: Cell)
      ensures r.Underline() == b
      ensures r.attributes & !AttrUnderline == attributes & !AttrUnderline
      ensures r == this.(attributes := r.attributes)
    {
      WithBit(AttrUnderline, b)
    }

    /** The attribute part of setBlink (its timer is not modelled). */
    function SetBlink(b: bool): (r: Cell)
      ensures r.Blink() == b
      ensures r.attributes & !AttrBlink == attributes & !AttrBlink
      ensures r == this.(attributes := r.attributes)
    {
      WithBit(AttrBlink, b)
    }

    /** The attribute part of setCursor: the style is always replaced, the
        cursor bit set or cleared (its blink timer is not modelled). */
    function SetCursor(b: bool, cs: CursorStyle): (r: Cell)
      ensures r.Cursor() == b && r.cursorStyle == cs
      ensures r.attributes & !AttrCursor == attributes & !AttrCursor
      ensures r == this.(attributes := r.attributes, cursorStyle := cs)
    {
      SetCursorStyle(cs).WithBit(AttrCursor, b)
    }

    function SetCursorStyle(cs: CursorStyle): Cell { this.(cursorStyle := cs) }
    function SetAttributes(a: bv16): Cell { this.(attributes := a) }
    function SetCharacter(c: char): Cell { this.(character := c) }
    function SetForegroundColor(c: Color): Cell { this.(foreground := c) }
    function SetBackgroundColor(c: Color): Cell { this.(background := c) }

    /** clear(): every attribute bit off (cursor and selection included), the
        underline cursor style, a blank, and the screen's default colours. */
    function Cleared(p: Palette): (r: Cell)
      ensures r.attributes == 0 && r.cursorStyle == CursorStyle.Underline
      ensures !r.Cursor() && !r.Select() && !r.Blink() && !r.Bold() && !r.Reverse() && !r.Underline()
      ensures r.character == DefaultChar
      ensures r.ForegroundColor() == p.foreground && r.BackgroundColor() == p.background
      ensures r == NewCell(p).(cursorStyle := CursorStyle.Underline)
    {
      Cell(0, character, foreground, background, CursorStyle.Underline)
        .SetCharacter(DefaultChar)
        .SetForegroundColor(p.foreground)
        .SetBackgroundColor(p.background)
    }

    /** copy(other) from a different cell, in the source's order: style,
        attributes, character, colours read through other's reversing
        accessors, and last setCursor(false). */
    function CopyFrom(other: Cell): (r: Cell)
      ensures r == other.(attributes := other.attributes & !AttrCursor, foreground := other.ForegroundColor(),
                          background := other.BackgroundColor(), cursorStyle := DefaultCursorStyle)
      ensures !r.Cursor() && r.Reverse() == other.Reverse()
    {
      ClearingCursorKeepsReverse(other.attributes);
      SetCursorStyle(other.cursorStyle)
        .SetAttributes(other.attributes)
        .SetCharacter(other.character)
        .SetForegroundColor(other.ForegroundColor())
        .SetBackgroundColor(other.BackgroundColor())
        .SetCursor(false, DefaultCursorStyle)
    }
  }

  lemma ClearingCursorKeepsReverse(a: bv16)
    ensures (a & !AttrCursor) & AttrReverse == a & AttrReverse
  {
  }

  /** A cell as the constructor makes it: no attributes, a blank, the screen's
      default colours, the block-invert cursor style. */
  function NewCell(p: Palette): (c: Cell)
    ensures c.attributes == 0 && c.character == DefaultChar
    ensures !c.Cursor() && !c.Select() && !c.Blink() && !c.Bold() && !c.Reverse() && !c.Underline()
    ensures c.ForegroundColor() == p.foreground && c.BackgroundColor() == p.background
    ensures c.cursorStyle == BlockInvert
  {
    Cell(0, DefaultChar, p.foreground, p.background, BlockInvert)
  }

  /** The six predicates each test exactly their own bit. */
  lemma PredicatesTestOwnBit(c: Cell)
    ensures c.Select() <==> c.attributes & 0x01 != 0
    ensures c.Blink() <==> c.attributes & 0x02 != 0
    ensures c.Bold() <==> c.attributes & 0x04 != 0
    ensures c.Reverse() <==> c.attributes & 0x08 != 0
    ensures c.Underline() <==> c.attributes & 0x10 != 0
    ensures c.Cursor() <==> c.attributes & 0x20 != 0
  {
  }

  /** setBold changes the bold flag only: the other five flags keep their values. */
  lemma SetBoldKeepsOtherFlags(c: Cell, b: bool)
    ensures var r := c.SetBold(b);
      r.Select() == c.Select() && r.Blink() == c.Blink() && r.Reverse() == c.Reverse() &&
      r.Underline() == c.Underline() && r.Cursor() == c.Cursor()
  {
  }

  /** setReverse changes the reverse flag only. */
  lemma SetReverseKeepsOtherFlags(c: Cell, b: bool)
    ensures var r := c.SetReverse(b);
      r.Select() == c.Select() && r.Blink() == c.Blink() && r.Bold() == c.Bold() &&
      r.Underline() == c.Underline() && r.Cursor() == c.Cursor()
  {
  }

  /** setSelect changes the selection flag only. */
  lemma SetSelectKeepsOtherFlags(c: Cell, b: bool)
    ensures var r := c.SetSelect(b);
      r.Reverse() == c.Reverse() && r.Blink() == c.Blink() && r.Bold() == c.Bold() &&
      r.Underline() == c.Underline() && r.Cursor() == c.Cursor()
  {
  }

  /** setCursor changes the cursor flag (and the style) only. */
  lemma SetCursorKeepsOtherFlags(c: Cell, b: bool, cs: CursorStyle)
    ensures var r := c.SetCursor(b, cs);
      r.Reverse() == c.Reverse() && r.Blink() == c.Blink() && r.Bold() == c.Bold() &&
      r.Underline() == c.Underline() && r.Select() == c.Select() &&
      r.character == c.character && r.foreground == c.foreground && r.background == c.background
  {
  }

  /** The colour accessors only read: when reverse is clear they return the
      stored colours, when it is set they return them swapped. */
  lemma AccessorsSwapExactlyWhenReversed(c: Cell)
    ensures !c.Reverse() ==> c.ForegroundColor() == c.foreground && c.BackgroundColor() == c.background
    ensures c.Reverse() ==> c.ForegroundColor() == c.background && c.BackgroundColor() == c.foreground
  {
  }

  /** Copying a cell whose reverse bit is clear reproduces its stored colours;
      with reverse set the stored colours come out swapped, so the copy is drawn
      in the other cell's colours the other way round. */
  lemma CopyColours(dst: Cell, other: Cell)
    ensures var r := dst.CopyFrom(other);
      (!other.Reverse() ==> r.foreground == other.foreground && r.background == other.background) &&
      (other.Reverse() ==> r.foreground == other.background && r.background == other.foreground) &&
      (other.Reverse() ==> r.ForegroundColor() == other.foreground && r.BackgroundColor() == other.background)
  {
  }

  /** Copying twice gives back the original cell, minus its cursor bit and
      with the default cursor style: the two colour swaps cancel. */
  lemma CopyTwice(d1: Cell, d2: Cell, c: Cell)
    ensures d2.CopyFrom(d1.CopyFrom(c)) ==
      c.(attributes := c.attributes & !AttrCursor, cursorStyle := DefaultCursorStyle)
  {
  }
}
