/** The framebuffer writer: a text cursor over the framebuffer bytes it owns.
    Each state-changing method is proved equal to its `Console` or `Pixels`
    reference function; all but `WriteStr` also state their effect on the
    fields directly. */
module Writer {
  import opened Pixels
  import opened Console

  /** The result of `fmt::Write::write_str`. */
  datatype FmtResult = Ok | Err

  class FrameBufferWriter {
    const framebuffer: array<Byte>
    const info: FrameBufferInfo
    var xPos: nat
    var yPos: nat
    var x: nat
    var y: nat
    var color: nat

    function Position(): Cursor
      reads this
    {
      Cursor(xPos, yPos, x, y, color)
    }

    function State(): Screen
      reads this, framebuffer
    {
      Screen(Position(), framebuffer[..])
    }

    /** `new`: takes the framebuffer and clears it. */
    constructor (framebuffer: array<Byte>, info: FrameBufferInfo)
      modifies framebuffer
      ensures this.framebuffer == framebuffer && this.info == info
      ensures State() == Cleared(Screen(Cursor(0, 0, 0, 0, 0), old(framebuffer[..])))
      ensures xPos == BORDER_PADDING && yPos == BORDER_PADDING
      ensures x == 0 && y == 0 && color == 0
      ensures forall k :: 0 <= k < framebuffer.Length ==> framebuffer[k] == 0
    {
      this.framebuffer := framebuffer;
      this.info := info;
      xPos, yPos, x, y, color := 0, 0, 0, 0, 0;
      new;
      Clear();
    }

    method Newline()
      modifies this`xPos, this`yPos
      ensures Position() == AfterNewline(old(Position()))
      ensures yPos == old(yPos) + CHAR_RASTER_HEIGHT + LINE_SPACING
      ensures xPos == BORDER_PADDING
    {
      yPos := yPos + CHAR_RASTER_HEIGHT + LINE_SPACING;
      CarriageReturn();
    }

    method CarriageReturn()
      modifies this`xPos
      ensures Position() == AfterCarriageReturn(old(Position()))
      ensures xPos == BORDER_PADDING
    {
      xPos := BORDER_PADDING;
    }

    /** A start position is valid when it lies on the screen, its right and
        bottom edges included. */
    method CheckValidStartPosition(px: nat, py: nat) returns (valid: bool)
      ensures valid <==> px <= info.width && py <= info.height
    {
      if px > info.width || py > info.height {
        valid := false;
      } else {
        valid := true;
      }
    }

    /** Moves cursor and anchor to (px, py) and selects `c`, all three only
        when the position is valid; the framebuffer is never touched. */
    method SetChange(px: nat, py: nat, c: nat)
      modifies this
      ensures Position() == AfterSetChange(info, old(Position()), px, py, c)
      ensures px <= info.width && py <= info.height ==>
        xPos == px && x == px && yPos == py && y == py && color == c
      ensures !(px <= info.width && py <= info.height) ==> Position() == old(Position())
      ensures framebuffer[..] == old(framebuffer[..])
    {
      var valid := CheckValidStartPosition(px, py);
      if valid {
        xPos := px;
        yPos := py;
        color := c;
        x := px;
        y := py;
      }
    }

    /** Erases the screen: every framebuffer byte becomes 0 and the cursor
        returns to the top-left border; anchor and colour are kept. */
    method Clear()
      modifies this`xPos, this`yPos, framebuffer
      ensures State() == Cleared(old(State()))
      ensures xPos == BORDER_PADDING && yPos == BORDER_PADDING
      ensures forall k :: 0 <= k < framebuffer.Length ==> framebuffer[k] == 0
    {
      xPos := BORDER_PADDING;
      yPos := BORDER_PADDING;
      forall k | 0 <= k < framebuffer.Length {
        framebuffer[k] := 0;
      }
    }

    /** Writes the bytes of pixel (px, py) for glyph intensity `intensity`
        and nothing else. */
    method WritePixel(px: nat, py: nat, intensity: Byte)
      requires PixelWritable(info, framebuffer.Length, color, px, py)
      modifies framebuffer
      ensures framebuffer[..] == PutPixel(old(framebuffer[..]), info, color, px, py, intensity)
      ensures forall k :: 0 <= k < framebuffer.Length && !InPixel(info, px, py, k) ==>
        framebuffer[k] == old(framebuffer[k])
    {
      var colorsRgb := RgbTemplate(intensity);
      var colorsBgr := SwapElements(colorsRgb);
      var pixelOffset := py * info.stride + px;
      var pixel: Row := [0, 0, 0, 0];
      match info.pixelFormat {
        case Rgb => pixel := colorsRgb[color];
        case Bgr => pixel := colorsBgr[color];
        case U8 => pixel := [if intensity > U8_THRESHOLD then U8_ON else 0, 0, 0, 0];
      }
      var bytesPerPixel := info.bytesPerPixel;
      var byteOffset := pixelOffset * bytesPerPixel;
      assert byteOffset == PixelOffset(info, px, py);
      forall k | byteOffset <= k < byteOffset + bytesPerPixel {
        framebuffer[k] := pixel[k - byteOffset];
      }
      var readBack := framebuffer[byteOffset];
      assert framebuffer[..] == PutPixel(old(framebuffer[..]), info, color, px, py, intensity);
    }

    /** Draws the glyph with its top-left corner at the cursor, then moves
        the cursor right by the glyph's width. */
    method WriteRenderedChar(glyph: Glyph)
      requires RasterWritable(info, framebuffer.Length, color, xPos, yPos, glyph.raster)
      modifies this`xPos, framebuffer
      ensures State() == Rendered(info, old(State()), glyph)
      ensures xPos == old(xPos) + glyph.width + LETTER_SPACING
      ensures framebuffer[..] == BlitRaster(old(framebuffer[..]), info, color, old(xPos), yPos, glyph.raster)
    {
      var raster := glyph.raster;
      var gy := 0;
      while gy < |raster|
        invariant 0 <= gy <= |raster|
        invariant framebuffer[..] == BlitRaster(old(framebuffer[..]), info, color, xPos, yPos, raster[..gy])
        modifies framebuffer
      {
        var row := raster[gy];
        ghost var done := framebuffer[..];
        var gx := 0;
        while gx < |row|
          invariant 0 <= gx <= |row|
          invariant framebuffer[..] == BlitRow(done, info, color, xPos, yPos + gy, row[..gx])
          modifies framebuffer
        {
          WritePixel(xPos + gx, yPos + gy, row[gx]);
          assert row[..gx + 1][..gx] == row[..gx];
          gx := gx + 1;
        }
        assert row[..gx] == row;
        assert raster[..gy + 1][..gy] == raster[..gy];
        gy := gy + 1;
      }
      assert raster[..gy] == raster;
      xPos := xPos + glyph.width + LETTER_SPACING;
    }

    /** Fills the glyph cell at the cursor with intensity 0, row by row. */
    method EraseCell()
      requires RasterWritable(info, framebuffer.Length, color, xPos, yPos, BlankCell())
      modifies framebuffer
      ensures framebuffer[..] == BlitRaster(old(framebuffer[..]), info, color, xPos, yPos, BlankCell())
    {
      var cell := BlankCell();
      var py := yPos;
      while py < yPos + CHAR_RASTER_HEIGHT
        invariant yPos <= py <= yPos + CHAR_RASTER_HEIGHT
        invariant framebuffer[..] == BlitRaster(old(framebuffer[..]), info, color, xPos, yPos, cell[..py - yPos])
      {
        ghost var gy := py - yPos;
        ghost var row := cell[gy];
        ghost var done := framebuffer[..];
        var px := xPos;
        while px < xPos + CHAR_RASTER_WIDTH
          invariant xPos <= px <= xPos + CHAR_RASTER_WIDTH
          invariant framebuffer[..] == BlitRow(done, info, color, xPos, py, row[..px - xPos])
        {
          assert row[px - xPos] == 0;
          WritePixel(px, py, 0);
          assert row[..px + 1 - xPos][..px - xPos] == row[..px - xPos];
          px := px + 1;
        }
        assert row[..px - xPos] == row;
        assert cell[..gy + 1][..gy] == cell[..gy];
        py := py + 1;
      }
      assert cell[..py - yPos] == cell;
    }

    /** Deletes the last character: snaps the anchor to a cursor just right
        of it, stops at the anchor, otherwise steps back one glyph cell and
        erases it, or at the left border moves up one line to its end. */
    method Backspace()
      requires CanBackspace(info, State())
      modifies this, framebuffer
      ensures State() == AfterBackspace(info, old(State()))
      ensures old(xPos) in {old(x), old(x) + 1, old(x) + 2} ==> x == old(xPos)
      ensures old(xPos) !in {old(x), old(x) + 1, old(x) + 2} ==> x == old(x)
      ensures y == old(y) && color == old(color)
      ensures old(xPos) == x && old(yPos) == y ==>
        xPos == old(xPos) && yPos == old(yPos) && framebuffer[..] == old(framebuffer[..])
      ensures !(old(xPos) == x && old(yPos) == y) && old(xPos) >= BORDER_PADDING + CHAR_RASTER_WIDTH ==>
        xPos == old(xPos) - CHAR_RASTER_WIDTH && yPos == old(yPos) &&
        CellBlank(framebuffer[..], info, xPos, yPos)
      ensures (!(old(xPos) == x && old(yPos) == y) && old(xPos) < BORDER_PADDING + CHAR_RASTER_WIDTH &&
               old(yPos) != BORDER_PADDING) ==>
        yPos == old(yPos) - (CHAR_RASTER_HEIGHT + LINE_SPACING) && xPos == info.width &&
        framebuffer[..] == old(framebuffer[..])
      ensures (!(old(xPos) == x && old(yPos) == y) && old(xPos) < BORDER_PADDING + CHAR_RASTER_WIDTH &&
               old(yPos) == BORDER_PADDING) ==>
        xPos == old(xPos) && yPos == old(yPos) && framebuffer[..] == old(framebuffer[..])
    {
      for i := 0 to 3
        invariant x == old(x)
        invariant xPos < x || x + i <= xPos
        modifies this`x
      {
        if xPos == x + i {
          x := xPos;
          break;
        }
      }
      assert Position() == Anchored(old(Position()));
      if xPos == x && yPos == y {
        xPos := x;
        yPos := y;
      } else {
        if xPos >= BORDER_PADDING + CHAR_RASTER_WIDTH {
          xPos := xPos - CHAR_RASTER_WIDTH;
          EraseCell();
          BackspaceBlanksCell(info, old(State()));
        } else if yPos != BORDER_PADDING {
          yPos := yPos - (CHAR_RASTER_HEIGHT + LINE_SPACING);
          xPos := info.width;
        }
      }
    }

    /** Writes one character: newline, carriage return and backspace are
        carried out; any other character is drawn, after a newline when it
        would reach the right edge and a clear when it would then reach the
        bottom edge. */
    method WriteChar(ch: char, glyph: Glyph)
      requires CanWriteChar(info, State(), ch, glyph)
      modifies this, framebuffer
      ensures State() == AfterWriteChar(info, old(State()), ch, glyph)
      ensures ch == '\n' ==> Position() == AfterNewline(old(Position())) && framebuffer[..] == old(framebuffer[..])
      ensures ch == '\r' ==> Position() == AfterCarriageReturn(old(Position())) && framebuffer[..] == old(framebuffer[..])
      ensures ch == BACKSPACE ==> State() == AfterBackspace(info, old(State()))
      ensures !IsControl(ch) ==> x == old(x) && y == old(y) && color == old(color)
      ensures !IsControl(ch) ==>
        var wraps := old(xPos) + CHAR_RASTER_WIDTH >= info.width;
        var y1 := if wraps then old(yPos) + CHAR_RASTER_HEIGHT + LINE_SPACING else old(yPos);
        var clears := y1 + CHAR_RASTER_HEIGHT + BORDER_PADDING >= info.height;
        var x2 := if wraps || clears then BORDER_PADDING else old(xPos);
        var y2 := if clears then BORDER_PADDING else y1;
        var fb := if clears then seq(framebuffer.Length, _ => 0) else old(framebuffer[..]);
        && xPos == x2 + glyph.width + LETTER_SPACING
        && yPos == y2
        && RasterWritable(info, |fb|, color, x2, y2, glyph.raster)
        && framebuffer[..] == BlitRaster(fb, info, color, x2, y2, glyph.raster)
    {
      if ch == '\n' {
        Newline();
      } else if ch == '\r' {
        CarriageReturn();
      } else if ch == BACKSPACE {
        Backspace();
      } else {
        var newXpos := xPos + CHAR_RASTER_WIDTH;
        if newXpos >= info.width {
          Newline();
        }
        var newYpos := yPos + CHAR_RASTER_HEIGHT + BORDER_PADDING;
        if newYpos >= info.height {
          Clear();
        }
        assert State() == Wrapped(info, old(State()));
        WriteRenderedChar(glyph);
      }
    }

    /** `fmt::Write::write_str`: writes the characters in order and always
        reports success. */
    method WriteStr(s: string, rasterize: char -> Glyph) returns (r: FmtResult)
      requires CanWriteStr(info, State(), s, rasterize)
      modifies this, framebuffer
      ensures r == Ok
      ensures State() == AfterWriteStr(info, old(State()), s, rasterize)
    {
      var i := 0;
      while i < |s|
        invariant 0 <= i <= |s|
        invariant CanWriteStr(info, State(), s[i..], rasterize)
        invariant AfterWriteStr(info, State(), s[i..], rasterize) == AfterWriteStr(info, old(State()), s, rasterize)
      {
        assert s[i..][0] == s[i] && s[i..][1..] == s[i + 1..];
        WriteChar(s[i], rasterize(s[i]));
        i := i + 1;
      }
      r := Ok;
    }
  }
}
