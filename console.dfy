/** The text cursor of the pixel console as a state machine over values: the
    specification that the framebuffer writer's methods are proved against.
    A `Screen` is the cursor together with the framebuffer bytes. */
module Console {
  import opened Pixels

  type Positive = n: int | n > 0 witness 1

  /** Width and height of a glyph cell in pixels. They come from the font
      constants, which are not part of this model: any positive values. */
  const CHAR_RASTER_WIDTH: Positive
  const CHAR_RASTER_HEIGHT: Positive

  /** Additional vertical space between lines. */
  const LINE_SPACING: nat := 2

  /** Additional horizontal space between characters. */
  const LETTER_SPACING: nat := 0

  /** Padding from the border of the screen. */
  const BORDER_PADDING: nat := 1

  /** The character that asks for a backspace. */
  const BACKSPACE: char := 8 as char

  /** A rasterized character: rows of intensities and its advance width. */
  datatype Glyph = Glyph(raster: seq<seq<Byte>>, width: nat)

  /** Cursor position, the anchor (position last set explicitly) and the
      colour index. */
  datatype Cursor = Cursor(xPos: nat, yPos: nat, x: nat, y: nat, color: nat)

  datatype Screen = Screen(cursor: Cursor, fb: seq<Byte>)

  /** A glyph cell whose every intensity is zero: what backspace paints. */
  function BlankCell(): seq<seq<Byte>>
  {
    seq(CHAR_RASTER_HEIGHT, _ => seq(CHAR_RASTER_WIDTH, _ => 0))
  }

  function AfterCarriageReturn(c: Cursor): Cursor
  {
    c.(xPos := BORDER_PADDING)
  }

  function AfterNewline(c: Cursor): Cursor
  {
    AfterCarriageReturn(c.(yPos := c.yPos + CHAR_RASTER_HEIGHT + LINE_SPACING))
  }

  /** The screen after `clear`. */
  function Cleared(s: Screen): Screen
  {
    Screen(s.cursor.(xPos := BORDER_PADDING, yPos := BORDER_PADDING), seq(|s.fb|, _ => 0))
  }

  /** `setChange`: the position is taken only when it lies on the screen. */
  function AfterSetChange(info: FrameBufferInfo, c: Cursor, px: nat, py: nat, color: nat): Cursor
  {
    if px > info.width || py > info.height then c else Cursor(px, py, px, py, color)
  }

  /** The screen after the glyph is drawn at the cursor and the cursor has
      advanced past it. */
  function Rendered(info: FrameBufferInfo, s: Screen, glyph: Glyph): (r: Screen)
    requires RasterWritable(info, |s.fb|, s.cursor.color, s.cursor.xPos, s.cursor.yPos, glyph.raster)
    ensures |r.fb| == |s.fb|
    ensures r.cursor.yPos == s.cursor.yPos && r.cursor.xPos >= s.cursor.xPos + glyph.width
  {
    var c := s.cursor;
    Screen(c.(xPos := c.xPos + glyph.width + LETTER_SPACING),
           BlitRaster(s.fb, info, c.color, c.xPos, c.yPos, glyph.raster))
  }

  /** Before a printable character is drawn: a newline when the glyph would
      reach the right edge, then a clear when it would reach the bottom. */
  function Wrapped(info: FrameBufferInfo, s: Screen): (r: Screen)
    ensures |r.fb| == |s.fb|
    ensures r.cursor.x == s.cursor.x && r.cursor.y == s.cursor.y && r.cursor.color == s.cursor.color
  {
    var s1 := if s.cursor.xPos + CHAR_RASTER_WIDTH >= info.width then s.(cursor := AfterNewline(s.cursor)) else s;
    if s1.cursor.yPos + CHAR_RASTER_HEIGHT + BORDER_PADDING >= info.height then Cleared(s1) else s1
  }

  /** First step of backspace: a cursor at most two pixels right of the
      anchor moves the anchor onto the cursor. */
  function Anchored(c: Cursor): (r: Cursor)
    ensures r.xPos == c.xPos && r.yPos == c.yPos && r.y == c.y && r.color == c.color
    ensures r.x == c.x || r.x == c.xPos
  {
    if c.xPos == c.x || c.xPos == c.x + 1 || c.xPos == c.x + 2 then c.(x := c.xPos) else c
  }

  /** Backspace neither panics nor writes outside the framebuffer: erasing
      a cell needs its pixels writable, moving up a line needs a line above
      (the subtraction would underflow otherwise). */
  predicate CanBackspace(info: FrameBufferInfo, s: Screen)
  {
    var a := Anchored(s.cursor);
    if a.xPos == a.x && a.yPos == a.y then true
    else if a.xPos >= BORDER_PADDING + CHAR_RASTER_WIDTH then
      RasterWritable(info, |s.fb|, a.color, a.xPos - CHAR_RASTER_WIDTH, a.yPos, BlankCell())
    else a.yPos != BORDER_PADDING ==> a.yPos >= CHAR_RASTER_HEIGHT + LINE_SPACING
  }

  function AfterBackspace(info: FrameBufferInfo, s: Screen): (r: Screen)
    requires CanBackspace(info, s)
    ensures |r.fb| == |s.fb|
    ensures r.cursor.y == s.cursor.y && r.cursor.color == s.cursor.color
  {
    var a := Anchored(s.cursor);
    if a.xPos == a.x && a.yPos == a.y then Screen(a, s.fb)
    else if a.xPos >= BORDER_PADDING + CHAR_RASTER_WIDTH then
      var c := a.(xPos := a.xPos - CHAR_RASTER_WIDTH);
      Screen(c, BlitRaster(s.fb, info, c.color, c.xPos, c.yPos, BlankCell()))
    else if a.yPos != BORDER_PADDING then
      Screen(a.(xPos := info.width, yPos := a.yPos - (CHAR_RASTER_HEIGHT + LINE_SPACING)), s.fb)
    else Screen(a, s.fb)
  }

  predicate IsControl(ch: char)
  {
    ch == '\n' || ch == '\r' || ch == BACKSPACE
  }

  /** Writing `ch` (drawn as `glyph` when printable) neither panics nor
      writes outside the framebuffer. */
  predicate CanWriteChar(info: FrameBufferInfo, s: Screen, ch: char, glyph: Glyph)
  {
    if ch == '\n' || ch == '\r' then true
    else if ch == BACKSPACE then CanBackspace(info, s)
    else
      var w := Wrapped(info, s);
      RasterWritable(info, |s.fb|, w.cursor.color, w.cursor.xPos, w.cursor.yPos, glyph.raster)
  }

  function AfterWriteChar(info: FrameBufferInfo, s: Screen, ch: char, glyph: Glyph): (r: Screen)
    requires CanWriteChar(info, s, ch, glyph)
    ensures |r.fb| == |s.fb|
  {
    if ch == '\n' then s.(cursor := AfterNewline(s.cursor))
    else if ch == '\r' then s.(cursor := AfterCarriageReturn(s.cursor))
    else if ch == BACKSPACE then AfterBackspace(info, s)
    else Rendered(info, Wrapped(info, s), glyph)
  }

  /** Every character of `str`, written in order, can be written. */
  predicate CanWriteStr(info: FrameBufferInfo, s: Screen, str: string, rasterize: char -> Glyph)
    decreases |str|
  {
    str == [] ||
    (CanWriteChar(info, s, str[0], rasterize(str[0])) &&
     CanWriteStr(info, AfterWriteChar(info, s, str[0], rasterize(str[0])), str[1..], rasterize))
  }

  /** The screen after the characters of `str` are written in order. */
  function AfterWriteStr(info: FrameBufferInfo, s: Screen, str: string, rasterize: char -> Glyph): (r: Screen)
    requires CanWriteStr(info, s, str, rasterize)
    ensures |r.fb| == |s.fb|
    decreases |str|
  {
    if str == [] then s
    else AfterWriteStr(info, AfterWriteChar(info, s, str[0], rasterize(str[0])), str[1..], rasterize)
  }

  /** Every pixel of the glyph cell with top-left corner (px, py) is blank. */
  predicate CellBlank(fb: seq<Byte>, info: FrameBufferInfo, px: nat, py: nat)
  {
    forall cy :: py <= cy < py + CHAR_RASTER_HEIGHT ==> RowBlank(fb, info, px, cy, CHAR_RASTER_WIDTH)
  }

  /** When backspace steps back a cell, the cell at the new cursor holds
      only zero bytes afterwards. */
  lemma BackspaceBlanksCell(info: FrameBufferInfo, s: Screen)
    requires CanBackspace(info, s)
    ensures var a := Anchored(s.cursor);
      !(a.xPos == a.x && a.yPos == a.y) && a.xPos >= BORDER_PADDING + CHAR_RASTER_WIDTH ==>
      var r := AfterBackspace(info, s);
      CellBlank(r.fb, info, r.cursor.xPos, r.cursor.yPos)
  {
    var a := Anchored(s.cursor);
    if !(a.xPos == a.x && a.yPos == a.y) && a.xPos >= BORDER_PADDING + CHAR_RASTER_WIDTH {
      var px := a.xPos - CHAR_RASTER_WIDTH;
      var cell := BlankCell();
      var fb := BlitRaster(s.fb, info, a.color, px, a.yPos, cell);
      assert AllZero(cell);
      BlitBlankRaster(s.fb, info, a.color, px, a.yPos, cell);
      forall cy | a.yPos <= cy < a.yPos + CHAR_RASTER_HEIGHT
        ensures RowBlank(fb, info, px, cy, CHAR_RASTER_WIDTH)
      {
        assert |cell[cy - a.yPos]| == CHAR_RASTER_WIDTH;
      }
    }
  }

  /** Clearing a cleared screen changes nothing. */
  lemma ClearIdempotent(s: Screen)
    ensures Cleared(Cleared(s)) == Cleared(s)
    ensures forall k :: 0 <= k < |s.fb| ==> Cleared(s).fb[k] == 0
  {
  }

  /** Writing `a + b` is writing `a`, then writing `b` from where `a` left
      the screen; each is possible exactly when the other is. */
  lemma {:induction false} WriteStrAppend(info: FrameBufferInfo, s: Screen, a: string, b: string, rasterize: char -> Glyph)
    ensures CanWriteStr(info, s, a + b, rasterize) <==>
      (CanWriteStr(info, s, a, rasterize) &&
       CanWriteStr(info, AfterWriteStr(info, s, a, rasterize), b, rasterize))
    ensures CanWriteStr(info, s, a + b, rasterize) ==>
      CanWriteStr(info, s, a, rasterize) &&
      AfterWriteStr(info, s, a + b, rasterize) ==
        AfterWriteStr(info, AfterWriteStr(info, s, a, rasterize), b, rasterize)
    decreases |a|
  {
    if a == [] {
      assert a + b == b;
    } else {
      assert (a + b)[0] == a[0] && (a + b)[1..] == a[1..] + b;
      if CanWriteChar(info, s, a[0], rasterize(a[0])) {
        WriteStrAppend(info, AfterWriteChar(info, s, a[0], rasterize(a[0])), a[1..], b, rasterize);
      }
    }
  }

  /** Writing a one-character string is writing that character. */
  lemma WriteStrOneChar(info: FrameBufferInfo, s: Screen, ch: char, rasterize: char -> Glyph)
    ensures CanWriteStr(info, s, [ch], rasterize) <==> CanWriteChar(info, s, ch, rasterize(ch))
    ensures CanWriteChar(info, s, ch, rasterize(ch)) ==>
      AfterWriteStr(info, s, [ch], rasterize) == AfterWriteChar(info, s, ch, rasterize(ch))
  {
    assert [ch][0] == ch && [ch][1..] == [];
  }

  /** No character changes the colour or the anchor's row; only backspace
      moves the anchor's column. */
  lemma {:induction false} WriteStrKeepsColorAndAnchor(info: FrameBufferInfo, s: Screen, str: string, rasterize: char -> Glyph)
    requires CanWriteStr(info, s, str, rasterize)
    ensures AfterWriteStr(info, s, str, rasterize).cursor.color == s.cursor.color
    ensures AfterWriteStr(info, s, str, rasterize).cursor.y == s.cursor.y
    ensures BACKSPACE !in str ==> AfterWriteStr(info, s, str, rasterize).cursor.x == s.cursor.x
    decreases |str|
  {
    if str != [] {
      var next := AfterWriteChar(info, s, str[0], rasterize(str[0]));
      WriteStrKeepsColorAndAnchor(info, next, str[1..], rasterize);
      assert BACKSPACE !in str ==> str[0] != BACKSPACE && BACKSPACE !in str[1..];
    }
  }
}
