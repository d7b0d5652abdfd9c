/** Byte layout of the pixel console: the nine-entry colour template, the
    RGB to BGR channel swap, the byte offset of a pixel, and the effect on the
    framebuffer bytes of writing one pixel, one glyph row and one glyph. */
module Pixels {

  type Byte = b: int | 0 <= b < 256

  /** One colour template entry: four channel bytes. */
  type Row = r: seq<Byte> | |r| == 4 witness [0, 0, 0, 0]

  /** The pixel formats the boot loader can report; `Unknown` stands for
      every format the console does not support. */
  datatype PixelFormat = Rgb | Bgr | U8 | Unknown

  /** The boot loader's description of the framebuffer. Its byte length is
      the length of the framebuffer itself, so it is not repeated here. */
  datatype FrameBufferInfo = FrameBufferInfo(
    width: nat,
    height: nat,
    pixelFormat: PixelFormat,
    bytesPerPixel: nat,
    stride: nat)

  /** Number of entries of the colour template (one per palette colour). */
  const PALETTE_SIZE: nat := 9

  /** Single-channel pixels are on when the intensity exceeds this value. */
  const U8_THRESHOLD: Byte := 200

  /** The byte a single-channel pixel holds when it is on. */
  const U8_ON: Byte := 0xf

  /** The green channel of orange, `(intensity as f32 / 1.5) as u8`. The
      quotient 2i/3 is either an integer or at least 1/3 away from one, far
      more than the rounding error of a 32-bit float at these magnitudes, so
      truncating the float gives exactly the integer part of 2i/3. */
  function OrangeGreen(i: Byte): (g: Byte)
    ensures 3 * g <= 2 * i < 3 * g + 3
  {
    2 * i / 3
  }

  /** The colour template for one glyph intensity, in palette order:
      white, red, green, blue, cyan, magenta, yellow, orange, purple. */
  function RgbTemplate(i: Byte): (m: seq<Row>)
    ensures |m| == PALETTE_SIZE
  {
    [ [i, i, i, 0],
      [i, 0, 0, 0],
      [0, i, 0, 0],
      [0, 0, i, 0],
      [0, i, i, 0],
      [i, 0, i, 0],
      [i, i, 0, 0],
      [i, OrangeGreen(i), 0, 0],
      [i / 2, 0, i / 2, 0] ]
  }

  /** Channels 0 and 2 exchanged: an RGB entry read as BGR. */
  function SwapRow(r: Row): Row
  {
    [r[2], r[1], r[0], r[3]]
  }

  /** Every entry of a template with its channels 0 and 2 exchanged. */
  function Swapped(m: seq<Row>): seq<Row>
  {
    seq(|m|, k requires 0 <= k < |m| => SwapRow(m[k]))
  }

  /** Converting twice gives back the original template. */
  lemma SwappedTwice(m: seq<Row>)
    ensures Swapped(Swapped(m)) == m
  {
    assert forall k :: 0 <= k < |m| ==> Swapped(Swapped(m))[k] == m[k];
  }

  /** `swap_elements`: fills a fresh nine-entry template row by row. */
  method SwapElements(matrix: seq<Row>) returns (swapped: seq<Row>)
    requires |matrix| == PALETTE_SIZE
    ensures |swapped| == PALETTE_SIZE
    ensures forall k :: 0 <= k < PALETTE_SIZE ==>
      swapped[k] == [matrix[k][2], matrix[k][1], matrix[k][0], matrix[k][3]]
    ensures swapped == Swapped(matrix)
  {
    swapped := seq(PALETTE_SIZE, _ => [0, 0, 0, 0]);
    var i := 0;
    while i < |matrix|
      invariant 0 <= i <= |matrix|
      invariant |swapped| == PALETTE_SIZE
      invariant forall k :: 0 <= k < i ==> swapped[k] == SwapRow(matrix[k])
    {
      var row := matrix[i];
      swapped := swapped[i := [row[2], row[1], row[0], row[3]]];
      i := i + 1;
    }
  }

  predicate Supported(f: PixelFormat)
  {
    f.Rgb? || f.Bgr? || f.U8?
  }

  /** A colour index the format can use: the template is only indexed for
      the RGB and BGR formats. */
  predicate ColorUsable(f: PixelFormat, color: nat)
  {
    Supported(f) && (f.U8? || color < PALETTE_SIZE)
  }

  /** The four bytes a pixel of intensity `i` gets in format `f`. */
  function PixelColor(f: PixelFormat, color: nat, i: Byte): Row
    requires ColorUsable(f, color)
  {
    match f
    case Rgb => RgbTemplate(i)[color]
    case Bgr => Swapped(RgbTemplate(i))[color]
    case U8 => [if i > U8_THRESHOLD then U8_ON else 0, 0, 0, 0]
  }

  /** A BGR pixel is the RGB pixel with channels 0 and 2 exchanged. */
  lemma BgrIsSwappedRgb(color: nat, i: Byte)
    requires color < PALETTE_SIZE
    ensures PixelColor(Bgr, color, i) == SwapRow(PixelColor(Rgb, color, i))
    ensures PixelColor(Bgr, color, i)[0] == PixelColor(Rgb, color, i)[2]
    ensures PixelColor(Bgr, color, i)[2] == PixelColor(Rgb, color, i)[0]
  {
  }

  /** Intensity 0 gives four zero bytes, whatever the format and colour. */
  lemma ZeroIntensityIsBlack(f: PixelFormat, color: nat)
    requires ColorUsable(f, color)
    ensures PixelColor(f, color, 0) == [0, 0, 0, 0]
  {
  }

  /** A BGR screen asked for red gets the intensity in channel 2. */
  lemma BgrRed(i: Byte)
    ensures PixelColor(Bgr, 1, i) == [0, 0, i, 0]
  {
  }

  /** On a single-channel screen intensity 255 is on and 100 is off. */
  lemma U8Threshold(color: nat)
    ensures PixelColor(U8, color, 255)[0] == U8_ON
    ensures PixelColor(U8, color, 100)[0] == 0
  {
  }

  /** First byte of pixel (px, py): row-major with `stride` pixels a row. */
  function PixelOffset(info: FrameBufferInfo, px: nat, py: nat): nat
  {
    (py * info.stride + px) * info.bytesPerPixel
  }

  /** Byte `k` is one of the bytes of pixel (px, py). */
  predicate InPixel(info: FrameBufferInfo, px: nat, py: nat, k: int)
  {
    PixelOffset(info, px, py) <= k < PixelOffset(info, px, py) + info.bytesPerPixel
  }

  /** Writing pixel (px, py) in `color` neither panics nor leaves a buffer of
      `fbLen` bytes: the format is supported, the colour indexes the
      template, a pixel fits the four-byte template, its bytes lie inside
      the buffer, and so does the first of them, which is read back after
      the write (this matters only when a pixel has zero bytes). */
  predicate PixelWritable(info: FrameBufferInfo, fbLen: nat, color: nat, px: nat, py: nat)
  {
    && ColorUsable(info.pixelFormat, color)
    && info.bytesPerPixel <= 4
    && PixelOffset(info, px, py) + info.bytesPerPixel <= fbLen
    && PixelOffset(info, px, py) < fbLen
  }

  /** Every byte of pixel (px, py) that lies in `fb` is zero. */
  predicate Blank(fb: seq<Byte>, info: FrameBufferInfo, px: nat, py: nat)
  {
    forall k :: 0 <= k < |fb| && InPixel(info, px, py, k) ==> fb[k] == 0
  }

  /** The framebuffer after pixel (px, py) is written with intensity `i`:
      its `bytesPerPixel` bytes take the first bytes of the pixel's colour,
      every other byte is kept. */
  function PutPixel(fb: seq<Byte>, info: FrameBufferInfo, color: nat, px: nat, py: nat, i: Byte): (r: seq<Byte>)
    requires PixelWritable(info, |fb|, color, px, py)
    ensures |r| == |fb|
    ensures forall k :: 0 <= k < |fb| && InPixel(info, px, py, k) ==>
      r[k] == PixelColor(info.pixelFormat, color, i)[k - PixelOffset(info, px, py)]
    ensures forall k :: 0 <= k < |fb| && !InPixel(info, px, py, k) ==> r[k] == fb[k]
  {
    var off := PixelOffset(info, px, py);
    var pixel := PixelColor(info.pixelFormat, color, i);
    seq(|fb|, k requires 0 <= k < |fb| => if InPixel(info, px, py, k) then pixel[k - off] else fb[k])
  }

  /** Writing intensity 0 over a pixel leaves it blank, and leaves blank
      every byte that was zero before. */
  lemma PutBlackPixel(fb: seq<Byte>, info: FrameBufferInfo, color: nat, px: nat, py: nat)
    requires PixelWritable(info, |fb|, color, px, py)
    ensures Blank(PutPixel(fb, info, color, px, py, 0), info, px, py)
    ensures forall k :: 0 <= k < |fb| && fb[k] == 0 ==> PutPixel(fb, info, color, px, py, 0)[k] == 0
  {
    ZeroIntensityIsBlack(info.pixelFormat, color);
  }

  /** Every pixel of a row of `len` pixels starting at (px, py) is writable. */
  predicate RowWritable(info: FrameBufferInfo, fbLen: nat, color: nat, px: nat, py: nat, len: nat)
  {
    forall cx :: px <= cx < px + len ==> PixelWritable(info, fbLen, color, cx, py)
  }

  /** Every pixel of a raster placed with its top-left corner at (px, py) is
      writable. */
  predicate RasterWritable(info: FrameBufferInfo, fbLen: nat, color: nat, px: nat, py: nat, raster: seq<seq<Byte>>)
  {
    forall gy :: 0 <= gy < |raster| ==> RowWritable(info, fbLen, color, px, py + gy, |raster[gy]|)
  }

  /** The framebuffer after the intensities of `row` are written left to
      right from pixel (px, py). */
  function BlitRow(fb: seq<Byte>, info: FrameBufferInfo, color: nat, px: nat, py: nat, row: seq<Byte>): (r: seq<Byte>)
    requires RowWritable(info, |fb|, color, px, py, |row|)
    ensures |r| == |fb|
    decreases |row|
  {
    if row == [] then fb
    else
      var n := |row| - 1;
      PutPixel(BlitRow(fb, info, color, px, py, row[..n]), info, color, px + n, py, row[n])
  }

  /** The framebuffer after the rows of `raster` are written top to bottom
      with the top-left corner at pixel (px, py). */
  function BlitRaster(fb: seq<Byte>, info: FrameBufferInfo, color: nat, px: nat, py: nat, raster: seq<seq<Byte>>): (r: seq<Byte>)
    requires RasterWritable(info, |fb|, color, px, py, raster)
    ensures |r| == |fb|
    decreases |raster|
  {
    if raster == [] then fb
    else
      var n := |raster| - 1;
      BlitRow(BlitRaster(fb, info, color, px, py, raster[..n]), info, color, px, py + n, raster[n])
  }

  /** Byte `k` belongs to one of the `len` pixels of the row from (px, py). */
  predicate InRow(info: FrameBufferInfo, px: nat, py: nat, len: nat, k: int)
  {
    exists cx :: px <= cx < px + len && InPixel(info, cx, py, k)
  }

  /** Byte `k` belongs to one of the pixels of `raster` placed at (px, py). */
  predicate InRaster(info: FrameBufferInfo, px: nat, py: nat, raster: seq<seq<Byte>>, k: int)
  {
    exists gy :: 0 <= gy < |raster| && InRow(info, px, py + gy, |raster[gy]|, k)
  }

  /** Writing a row changes no byte outside the row's pixels. */
  lemma {:induction false} BlitRowFrame(fb: seq<Byte>, info: FrameBufferInfo, color: nat, px: nat, py: nat, row: seq<Byte>)
    requires RowWritable(info, |fb|, color, px, py, |row|)
    ensures forall k :: 0 <= k < |fb| && !InRow(info, px, py, |row|, k) ==>
      BlitRow(fb, info, color, px, py, row)[k] == fb[k]
    decreases |row|
  {
    if row != [] {
      var n := |row| - 1;
      BlitRowFrame(fb, info, color, px, py, row[..n]);
      forall k | 0 <= k < |fb| && !InRow(info, px, py, |row|, k)
        ensures BlitRow(fb, info, color, px, py, row)[k] == fb[k]
      {
        assert !InPixel(info, px + n, py, k);
        assert !InRow(info, px, py, n, k);
      }
    }
  }

  /** Writing a glyph changes no byte outside the glyph's pixels. */
  lemma {:induction false} BlitRasterFrame(fb: seq<Byte>, info: FrameBufferInfo, color: nat, px: nat, py: nat, raster: seq<seq<Byte>>)
    requires RasterWritable(info, |fb|, color, px, py, raster)
    ensures forall k :: 0 <= k < |fb| && !InRaster(info, px, py, raster, k) ==>
      BlitRaster(fb, info, color, px, py, raster)[k] == fb[k]
    decreases |raster|
  {
    if raster != [] {
      var n := |raster| - 1;
      var prefix := raster[..n];
      var mid := BlitRaster(fb, info, color, px, py, prefix);
      BlitRasterFrame(fb, info, color, px, py, prefix);
      BlitRowFrame(mid, info, color, px, py + n, raster[n]);
      forall k | 0 <= k < |fb| && !InRaster(info, px, py, raster, k)
        ensures BlitRaster(fb, info, color, px, py, raster)[k] == fb[k]
      {
        assert !InRow(info, px, py + n, |raster[n]|, k);
        forall gy | 0 <= gy < |prefix|
          ensures !InRow(info, px, py + gy, |prefix[gy]|, k)
        {
          assert prefix[gy] == raster[gy];
        }
      }
    }
  }

  /** Multiplying both sides of `a <= b` by the same natural keeps the order. */
  lemma MulMonotone(a: nat, b: nat, c: nat)
    requires a <= b
    ensures a * c <= b * c
  {
  }

  /** In row-major order, a pixel of an earlier line that lies inside the
      stride comes before every pixel of a later line. */
  lemma RowMajorBefore(stride: nat, x0: nat, y0: nat, x1: nat, y1: nat)
    requires x0 < stride && y0 < y1
    ensures y0 * stride + x0 < y1 * stride + x1
  {
    MulMonotone(y0 + 1, y1, stride);
  }

  /** A byte of a pixel with a smaller pixel index is not a byte of a pixel
      with a larger one: pixels never overlap. */
  lemma PixelsDisjoint(info: FrameBufferInfo, x0: nat, y0: nat, x1: nat, y1: nat, k: int)
    requires y0 * info.stride + x0 < y1 * info.stride + x1
    requires InPixel(info, x0, y0, k)
    ensures !InPixel(info, x1, y1, k)
  {
    MulMonotone(y0 * info.stride + x0 + 1, y1 * info.stride + x1, info.bytesPerPixel);
  }

  /** Each pixel of the row of `row`'s length from (px, py) holds the colour
      of its own intensity: the pixel `cx - px` places right of the start
      holds the colour of `row[cx - px]`. */
  predicate RowDrawn(fb: seq<Byte>, info: FrameBufferInfo, color: nat, px: nat, py: nat, row: seq<Byte>)
    requires ColorUsable(info.pixelFormat, color) && info.bytesPerPixel <= 4
  {
    forall cx, k :: px <= cx < px + |row| && 0 <= k < |fb| && InPixel(info, cx, py, k) ==>
      fb[k] == PixelColor(info.pixelFormat, color, row[cx - px])[k - PixelOffset(info, cx, py)]
  }

  /** After a row is drawn, each of its pixels holds the colour of its own
      intensity. */
  lemma {:induction false} BlitRowDraws(fb: seq<Byte>, info: FrameBufferInfo, color: nat, px: nat, py: nat, row: seq<Byte>)
    requires ColorUsable(info.pixelFormat, color) && info.bytesPerPixel <= 4
    requires RowWritable(info, |fb|, color, px, py, |row|)
    ensures RowDrawn(BlitRow(fb, info, color, px, py, row), info, color, px, py, row)
    decreases |row|
  {
    if row != [] {
      var n := |row| - 1;
      var prefix := row[..n];
      var mid := BlitRow(fb, info, color, px, py, prefix);
      var r := BlitRow(fb, info, color, px, py, row);
      BlitRowDraws(fb, info, color, px, py, prefix);
      forall cx, k | px <= cx < px + |row| && 0 <= k < |fb| && InPixel(info, cx, py, k)
        ensures r[k] == PixelColor(info.pixelFormat, color, row[cx - px])[k - PixelOffset(info, cx, py)]
      {
        if cx < px + n {
          PixelsDisjoint(info, cx, py, px + n, py, k);
          assert prefix[cx - px] == row[cx - px];
        }
      }
    }
  }

  /** A byte of a pixel inside the stride is not a byte of any pixel of a
      later line. */
  lemma LaterLineMisses(info: FrameBufferInfo, px: nat, ly: nat, len: nat, cx: nat, cy: nat, k: int)
    requires cx < info.stride && cy < ly
    requires InPixel(info, cx, cy, k)
    ensures !InRow(info, px, ly, len, k)
  {
    forall lx | px <= lx < px + len
      ensures !InPixel(info, lx, ly, k)
    {
      RowMajorBefore(info.stride, cx, cy, lx, ly);
      PixelsDisjoint(info, cx, cy, lx, ly, k);
    }
  }

  /** Every row of the raster lies inside the stride, so no two rows of the
      glyph share a byte. */
  predicate WithinStride(info: FrameBufferInfo, px: nat, raster: seq<seq<Byte>>)
  {
    forall gy :: 0 <= gy < |raster| ==> px + |raster[gy]| <= info.stride
  }

  /** After a glyph that lies inside the stride is drawn, each of its pixels
      holds the colour of its own intensity: row `gy` of the raster is drawn
      on line `py + gy`. */
  lemma {:induction false} BlitRasterDraws(fb: seq<Byte>, info: FrameBufferInfo, color: nat, px: nat, py: nat, raster: seq<seq<Byte>>)
    requires ColorUsable(info.pixelFormat, color) && info.bytesPerPixel <= 4
    requires RasterWritable(info, |fb|, color, px, py, raster)
    requires WithinStride(info, px, raster)
    ensures forall gy :: 0 <= gy < |raster| ==>
      RowDrawn(BlitRaster(fb, info, color, px, py, raster), info, color, px, py + gy, raster[gy])
    decreases |raster|
  {
    if raster != [] {
      var n := |raster| - 1;
      var prefix := raster[..n];
      var mid := BlitRaster(fb, info, color, px, py, prefix);
      var last := raster[n];
      var r := BlitRaster(fb, info, color, px, py, raster);
      BlitRasterDraws(fb, info, color, px, py, prefix);
      BlitRowDraws(mid, info, color, px, py + n, last);
      BlitRowFrame(mid, info, color, px, py + n, last);
      forall gy | 0 <= gy < n
        ensures RowDrawn(r, info, color, px, py + gy, raster[gy])
      {
        assert prefix[gy] == raster[gy];
        var cy := py + gy;
        assert RowDrawn(mid, info, color, px, cy, raster[gy]);
        forall cx, k | px <= cx < px + |raster[gy]| && 0 <= k < |fb| && InPixel(info, cx, cy, k)
          ensures r[k] == mid[k]
        {
          LaterLineMisses(info, px, py + n, |last|, cx, cy, k);
        }
      }
    }
  }

  /** Every intensity of the raster is zero. */
  predicate AllZero(raster: seq<seq<Byte>>)
  {
    forall gy, gx :: 0 <= gy < |raster| && 0 <= gx < |raster[gy]| ==> raster[gy][gx] == 0
  }

  /** Every pixel of the row of `len` pixels from (px, py) is blank. */
  predicate RowBlank(fb: seq<Byte>, info: FrameBufferInfo, px: nat, py: nat, len: nat)
  {
    forall cx :: px <= cx < px + len ==> Blank(fb, info, cx, py)
  }

  /** Writing a row of zero intensities blanks each of its pixels and keeps
      every zero byte zero. */
  lemma {:induction false} BlitBlankRow(fb: seq<Byte>, info: FrameBufferInfo, color: nat, px: nat, py: nat, row: seq<Byte>)
    requires RowWritable(info, |fb|, color, px, py, |row|)
    requires forall gx :: 0 <= gx < |row| ==> row[gx] == 0
    ensures forall k :: 0 <= k < |fb| && fb[k] == 0 ==> BlitRow(fb, info, color, px, py, row)[k] == 0
    ensures RowBlank(BlitRow(fb, info, color, px, py, row), info, px, py, |row|)
    decreases |row|
  {
    if row != [] {
      var n := |row| - 1;
      var mid := BlitRow(fb, info, color, px, py, row[..n]);
      BlitBlankRow(fb, info, color, px, py, row[..n]);
      assert row[n] == 0;
      var r := BlitRow(fb, info, color, px, py, row);
      PutBlackPixel(mid, info, color, px + n, py);
      assert forall k :: 0 <= k < |fb| && mid[k] == 0 ==> r[k] == 0;
      forall cx | px <= cx < px + n
        ensures Blank(r, info, cx, py)
      {
        assert Blank(mid, info, cx, py);
      }
    }
  }

  /** Writing a raster of zero intensities blanks each of its pixels and
      keeps every zero byte zero. */
  lemma {:induction false} BlitBlankRaster(fb: seq<Byte>, info: FrameBufferInfo, color: nat, px: nat, py: nat, raster: seq<seq<Byte>>)
    requires RasterWritable(info, |fb|, color, px, py, raster)
    requires AllZero(raster)
    ensures forall k :: 0 <= k < |fb| && fb[k] == 0 ==> BlitRaster(fb, info, color, px, py, raster)[k] == 0
    ensures forall gy :: 0 <= gy < |raster| ==>
      RowBlank(BlitRaster(fb, info, color, px, py, raster), info, px, py + gy, |raster[gy]|)
    decreases |raster|
  {
    if raster != [] {
      var n := |raster| - 1;
      var prefix := raster[..n];
      var mid := BlitRaster(fb, info, color, px, py, prefix);
      assert AllZero(prefix);
      BlitBlankRaster(fb, info, color, px, py, prefix);
      var r := BlitRaster(fb, info, color, px, py, raster);
      BlitBlankRow(mid, info, color, px, py + n, raster[n]);
      forall gy | 0 <= gy < |raster|
        ensures RowBlank(r, info, px, py + gy, |raster[gy]|)
      {
        if gy < n {
          assert prefix[gy] == raster[gy];
          assert RowBlank(mid, info, px, py + gy, |prefix[gy]|);
          var cy := py + gy;
          forall cx | px <= cx < px + |raster[gy]|
            ensures Blank(r, info, cx, cy)
          {
            assert Blank(mid, info, cx, cy);
          }
        }
      }
    }
  }
}
