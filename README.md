# Pixel console and heap bounds of a bare-metal x86_64 kernel

This project models two pieces of a small kernel that boots with no
operating system underneath it.

- **The framebuffer writer** (`FrameBufferWriter`). It owns the framebuffer
  bytes the boot loader hands over and draws text into them pixel by pixel.
  It keeps a cursor (`x_pos`, `y_pos`), an anchor (`x`, `y`, the position
  last set by `setChange`) and a colour index. It handles newline, carriage
  return, wrapping at the right edge, clearing at the bottom edge, and
  backspace. Each pixel is laid out by hand from a nine-entry colour
  template, with a channel swap for BGR screens and a threshold for
  single-channel screens.
- **The heap bounds of the entry point.** These are derived from the boot
  loader's memory map. The heap starts one byte after the end of the first
  `Bootloader` region, shifted by the physical memory offset. It ends where
  the last region ends.

The Dafny modules follow that split.

- `Pixels` (`pixels.dfy`) covers the byte layout:
  - the colour template;
  - `swap_elements`;
  - pixel offsets;
  - pure functions for writing one pixel (`PutPixel`), one glyph row
    (`BlitRow`) and one glyph (`BlitRaster`), with lemmas about which bytes
    they change and what those bytes then hold.
- `Console` (`console.dfy`) is the cursor state machine, written as
  functions on a `Screen` (cursor plus framebuffer bytes):
  - `AfterNewline`, `AfterCarriageReturn`, `Cleared`, `AfterSetChange`,
    `Wrapped`, `Rendered`, `Anchored`, `AfterBackspace`, `AfterWriteChar`
    and `AfterWriteStr`;
  - the predicates `CanBackspace`, `CanWriteChar` and `CanWriteStr`, which
    say when an operation neither panics nor writes outside the buffer.

  These functions are the reference definitions. The lemmas of the module
  are about them.
- `Writer` (`writer.dfy`) holds the class `FrameBufferWriter`. Its fields are
  the source's fields, and the framebuffer is an `array<Byte>`. Each method
  keeps the source's statements and loops. Each state-changing method is
  proved equal to its `Console` or `Pixels` reference function: `WritePixel`
  and `EraseCell` against `PutPixel` and `BlitRaster` on the framebuffer
  bytes, the others against a `Console` function on `State()`. All but
  `WriteStr` also state their effect on the fields directly.
  `CheckValidStartPosition` changes nothing and states its result.
- `Boot` (`boot.dfy`) covers the `Colors` enumeration, the search for the
  boot loader region, and the heap arithmetic.

The glyph rasterizer is a parameter. A `Glyph` is a raster (rows of
intensities) plus an advance width. `write_str` takes a function
`rasterize: char -> Glyph` in place of `get_char_raster`. The font constants
`CHAR_RASTER_WIDTH` and `CHAR_RASTER_HEIGHT` live in a constants module that
is not part of this model. Here they are constants with no fixed value, of a
positive type, so every proof holds for any font size.
`writer.rs:17-23` gives `LINE_SPACING = 2`, `LETTER_SPACING = 0` and
`BORDER_PADDING = 1`.

In the source, some operations panic or underflow. The model turns each of
these into a precondition:

- the colour index must be below 9 for RGB and BGR, because
  `colors_Rgb[self.color]` panics otherwise;
- `bytes_per_pixel` must be at most 4, because `color[..bytes_per_pixel]`
  panics otherwise;
- the written bytes must lie inside the framebuffer;
- the first byte of each pixel must lie inside the framebuffer, because
  the read-back `read_volatile(&self.framebuffer[byte_offset])` is
  bounds-checked (this adds something only when `bytes_per_pixel` is 0);
- the pixel format must be supported;
- in the move-up branch of backspace, `y_pos` must be at least
  `CHAR_RASTER_HEIGHT + LINE_SPACING`;
- the memory map must be non-empty, because of `last().unwrap()`;
- `last.end >= bl.end + 1` must hold, so that the subtraction cannot
  underflow (`bl` is the selected boot loader region);
- `bl.end + 1 + offset` must fit in 64 bits.

The glyph-level preconditions are stated from the cursor and the character.
For a whole string, `CanWriteStr` chains them along the cursor positions
the string passes through.

Three behaviours of the code worth noting:

- When the memory map has no `Bootloader` region, the code does not fail.
  It keeps `MemoryRegion::empty()`, and the model does the same.
- The first step of backspace moves the anchor `x` onto the cursor when the
  cursor is 0, 1 or 2 pixels right of it. It does not move the cursor.
  Backspace then stops only if the cursor also equals the anchor in `y`.
- After the bottom-edge clear, the glyph is still drawn, at the top-left
  border.

`MemoryRegion::empty()` belongs to the boot loader's interface, which is
not part of this model. `Boot.EmptyRegion` takes it to be start 0, end 0,
kind `Bootloader`. Only its `end` field enters the heap arithmetic.

The orange entry's green channel, `(intensity as f32 / 1.5) as u8`, is
modelled exactly as the integer part of `2 * intensity / 3`. For an integer
intensity from 0 to 255, the exact quotient is either a whole number or at
least 1/3 away from one. The rounding error of a 32-bit float at these
magnitudes is far smaller than that, so truncation gives the same byte.

## Model

| member | source | states |
|---|---|---|
| `Pixels.OrangeGreen` | os_with_bootloader/kernel_with_bootloader/src/writer.rs:235 | the orange green channel is the integer part of 2/3 of the intensity (what truncating `intensity as f32 / 1.5` yields) |
| `Pixels.RgbTemplate` | os_with_bootloader/kernel_with_bootloader/src/writer.rs:227-237 | the colour template has nine entries, one per palette colour |
| `Pixels.SwapElements` | os_with_bootloader/kernel_with_bootloader/src/writer.rs:37-48 | each of the nine rows `[a, b, c, d]` becomes `[c, b, a, d]`; the result is the reference `Swapped` of the input |
| `Pixels.SwappedTwice` | os_with_bootloader/kernel_with_bootloader/src/writer.rs:37-48 | swapping channels 0 and 2 twice gives back the original template |
| `Pixels.BgrIsSwappedRgb` | os_with_bootloader/kernel_with_bootloader/src/writer.rs:238-244 | a BGR pixel is the RGB pixel of the same colour with channels 0 and 2 exchanged |
| `Pixels.BgrRed` | os_with_bootloader/kernel_with_bootloader/src/writer.rs:229-244 | red on a BGR screen is written as `[0, 0, I, 0]` |
| `Pixels.U8Threshold` | os_with_bootloader/kernel_with_bootloader/src/writer.rs:245 | on a single-channel screen, intensity 255 writes `0xf` and intensity 100 writes 0 |
| `Pixels.ZeroIntensityIsBlack` | os_with_bootloader/kernel_with_bootloader/src/writer.rs:227-245 | intensity 0 gives four zero bytes in every supported format and every usable colour |
| `Pixels.PixelOffset` | os_with_bootloader/kernel_with_bootloader/src/writer.rs:240-254 | the first byte of pixel (x, y) is `(y*stride + x)*bytes_per_pixel`: row-major pixels of `bytes_per_pixel` bytes, `stride` pixels a line |
| `Pixels.PixelWritable` | os_with_bootloader/kernel_with_bootloader/src/writer.rs:241-257 | when `write_pixel` does not panic: supported format, colour below 9 for RGB and BGR, at most 4 bytes a pixel, the pixel's bytes and its read-back byte inside the buffer; `RowWritable` and `RasterWritable` lift it to every pixel of a row and of a glyph |
| `Pixels.PutPixel` | os_with_bootloader/kernel_with_bootloader/src/writer.rs:240-256 | writing pixel (x, y) gives bytes `[off, off + bpp)`, with `off = (y*stride + x)*bpp`, the first `bpp` bytes of the pixel's colour for the format, and keeps every other byte |
| `Pixels.PutBlackPixel` | os_with_bootloader/kernel_with_bootloader/src/writer.rs:227-256 | a pixel written with intensity 0 is blank afterwards, and no zero byte becomes non-zero |
| `Pixels.BlitRow` | os_with_bootloader/kernel_with_bootloader/src/writer.rs:219-221 | reference definition of the inner loop: the row's pixels written left to right; it keeps the framebuffer length, and `BlitRowDraws` and `BlitRowFrame` state what it writes |
| `Pixels.BlitRaster` | os_with_bootloader/kernel_with_bootloader/src/writer.rs:217-222 | reference definition of the outer loop: the glyph's rows written top to bottom; it keeps the framebuffer length, and `BlitRasterDraws` and `BlitRasterFrame` state what it writes |
| `Pixels.BlitRowFrame` | os_with_bootloader/kernel_with_bootloader/src/writer.rs:219-221 | writing a row changes no byte outside the bytes of its pixels |
| `Pixels.BlitRasterFrame` | os_with_bootloader/kernel_with_bootloader/src/writer.rs:217-222 | drawing a glyph changes no byte outside the bytes of its pixels |
| `Pixels.PixelsDisjoint` | os_with_bootloader/kernel_with_bootloader/src/writer.rs:240-254 | a pixel with a smaller index `y*stride + x` shares no byte with a pixel with a larger one |
| `Pixels.RowMajorBefore` | os_with_bootloader/kernel_with_bootloader/src/writer.rs:240 | a pixel of an earlier line that lies inside the stride has a smaller index than every pixel of a later line |
| `Pixels.LaterLineMisses` | os_with_bootloader/kernel_with_bootloader/src/writer.rs:240-254 | no byte of a pixel inside the stride belongs to a row drawn on a later line |
| `Pixels.BlitRowDraws` | os_with_bootloader/kernel_with_bootloader/src/writer.rs:219-221 | after a row is drawn, the pixel `cx - px` places right of the start holds the colour of `row[cx - px]`, even though later pixels are written after earlier ones |
| `Pixels.BlitRasterDraws` | os_with_bootloader/kernel_with_bootloader/src/writer.rs:215-222 | after a glyph whose rows lie inside the stride is drawn, raster row `gy` is drawn on line `py + gy`: every glyph pixel holds the colour of its own intensity |
| `Pixels.BlitBlankRow` | os_with_bootloader/kernel_with_bootloader/src/writer.rs:279-282 | a row of zero intensities leaves each of its pixels blank and keeps zero bytes zero |
| `Pixels.BlitBlankRaster` | os_with_bootloader/kernel_with_bootloader/src/writer.rs:278-283 | a raster of zero intensities leaves each of its pixels blank and keeps zero bytes zero |
| `Pixels.PixelColor` | os_with_bootloader/kernel_with_bootloader/src/writer.rs:241-252 | reference definition of the format `match`: the RGB entry, the swapped entry, or the thresholded single byte; its properties are `BgrIsSwappedRgb`, `BgrRed`, `U8Threshold` and `ZeroIntensityIsBlack` |
| `Console.AfterNewline` | os_with_bootloader/kernel_with_bootloader/src/writer.rs:137-140 | reference definition of `newline`: one line down, then a carriage return; its effect is stated on `Writer.FrameBufferWriter.Newline` |
| `Console.AfterCarriageReturn` | os_with_bootloader/kernel_with_bootloader/src/writer.rs:142-144 | reference definition of `carriage_return`; its effect is stated on `Writer.FrameBufferWriter.CarriageReturn` |
| `Console.Cleared` | os_with_bootloader/kernel_with_bootloader/src/writer.rs:183-191 | reference definition of `clear`; `ClearIdempotent` states that it zeroes every byte and is idempotent |
| `Console.AfterSetChange` | os_with_bootloader/kernel_with_bootloader/src/writer.rs:162-171 | reference definition of `setChange`; `Writer.FrameBufferWriter.SetChange` states both branches |
| `Console.Wrapped` | os_with_bootloader/kernel_with_bootloader/src/writer.rs:201-209 | the newline-then-clear step before a printable character; it keeps the framebuffer length, the anchor and the colour |
| `Console.Anchored` | os_with_bootloader/kernel_with_bootloader/src/writer.rs:262-267 | the first step of backspace moves only the anchor column, and only onto the cursor column |
| `Console.CanBackspace` | os_with_bootloader/kernel_with_bootloader/src/writer.rs:272-287 | when backspace neither panics nor underflows: the erased cell must be writable, and a move up needs a line above |
| `Console.AfterBackspace` | os_with_bootloader/kernel_with_bootloader/src/writer.rs:261-288 | reference definition of `backspace`; it keeps the framebuffer length, the anchor row and the colour |
| `Console.Rendered` | os_with_bootloader/kernel_with_bootloader/src/writer.rs:217-224 | the glyph drawn at the cursor; the cursor stays on its line and moves right by at least the glyph width |
| `Console.CanWriteChar` | os_with_bootloader/kernel_with_bootloader/src/writer.rs:195-213 | when `write_char` neither panics nor writes outside the buffer: control characters always can, backspace as `CanBackspace`, a printable glyph when its pixels are writable at the wrapped cursor |
| `Console.AfterWriteChar` | os_with_bootloader/kernel_with_bootloader/src/writer.rs:195-213 | reference definition of `write_char`: newline, carriage return, backspace, or wrap, clear and draw; the framebuffer length is kept |
| `Console.CanWriteStr` | os_with_bootloader/kernel_with_bootloader/src/writer.rs:300-305 | when `write_str` does not panic: each character in turn satisfies `CanWriteChar` at the screen the earlier characters left; `WriteStrAppend` splits it at any point |
| `Console.AfterWriteStr` | os_with_bootloader/kernel_with_bootloader/src/writer.rs:300-305 | reference definition of `write_str`: `write_char` on each character in order; the framebuffer length is kept |
| `Console.ClearIdempotent` | os_with_bootloader/kernel_with_bootloader/src/writer.rs:183-191 | clearing twice leaves the same screen as clearing once, and every byte is 0 |
| `Console.BackspaceBlanksCell` | os_with_bootloader/kernel_with_bootloader/src/writer.rs:272-283 | when backspace steps back one cell, the whole glyph cell at the new cursor is zero afterwards |
| `Console.WriteStrAppend` | os_with_bootloader/kernel_with_bootloader/src/writer.rs:300-305 | writing `a + b` is possible exactly when writing `a` and then `b` is, and gives the same screen |
| `Console.WriteStrOneChar` | os_with_bootloader/kernel_with_bootloader/src/writer.rs:300-305 | writing a one-character string is writing that character |
| `Console.WriteStrKeepsColorAndAnchor` | os_with_bootloader/kernel_with_bootloader/src/writer.rs:195-293 | no character changes the colour or the anchor row; without a backspace the anchor column is kept too |
| `Writer.FrameBufferWriter.constructor` | os_with_bootloader/kernel_with_bootloader/src/writer.rs:122-135 | `new` keeps the framebuffer and info, zeroes the anchor and colour, and ends in the cleared state: cursor at the border and every byte 0 |
| `Writer.FrameBufferWriter.Newline` | os_with_bootloader/kernel_with_bootloader/src/writer.rs:137-140 | `y_pos` grows by exactly `CHAR_RASTER_HEIGHT + LINE_SPACING` and `x_pos` becomes `BORDER_PADDING`; nothing else changes |
| `Writer.FrameBufferWriter.CarriageReturn` | os_with_bootloader/kernel_with_bootloader/src/writer.rs:142-144 | only `x_pos` changes, to `BORDER_PADDING` |
| `Writer.FrameBufferWriter.CheckValidStartPosition` | os_with_bootloader/kernel_with_bootloader/src/writer.rs:154-160 | a position is valid exactly when `x <= width` and `y <= height` |
| `Writer.FrameBufferWriter.SetChange` | os_with_bootloader/kernel_with_bootloader/src/writer.rs:162-180 | a valid position sets the cursor and the anchor to it and the colour to the argument; an invalid one changes nothing; the framebuffer is never touched |
| `Writer.FrameBufferWriter.Clear` | os_with_bootloader/kernel_with_bootloader/src/writer.rs:183-191 | the cursor goes to (`BORDER_PADDING`, `BORDER_PADDING`) and every framebuffer byte becomes 0; the anchor and colour are kept |
| `Writer.FrameBufferWriter.WritePixel` | os_with_bootloader/kernel_with_bootloader/src/writer.rs:226-258 | the framebuffer becomes `PutPixel` of the old one: only the pixel's bytes change |
| `Writer.FrameBufferWriter.WriteRenderedChar` | os_with_bootloader/kernel_with_bootloader/src/writer.rs:217-224 | the glyph is drawn at the cursor (`BlitRaster`), and `x_pos` then grows by the glyph width plus `LETTER_SPACING` |
| `Writer.FrameBufferWriter.EraseCell` | os_with_bootloader/kernel_with_bootloader/src/writer.rs:278-283 | the nested erase loop writes the all-zero glyph cell at the cursor |
| `Writer.FrameBufferWriter.Backspace` | os_with_bootloader/kernel_with_bootloader/src/writer.rs:261-293 | the anchor column snaps to a cursor 0-2 pixels right of it; at the anchor nothing else changes; otherwise the cursor steps back one cell, which is left zero, or at the left border moves up a line to `x_pos = width`, or on the top line nothing changes |
| `Writer.FrameBufferWriter.WriteChar` | os_with_bootloader/kernel_with_bootloader/src/writer.rs:195-213 | control characters act as newline, carriage return or backspace; any other character causes a newline exactly when `x_pos + CHAR_RASTER_WIDTH >= width`, then a clear exactly when the new `y_pos + CHAR_RASTER_HEIGHT + BORDER_PADDING >= height`, then is drawn at the resulting cursor and advances `x_pos` by its width; the anchor and colour are kept |
| `Writer.FrameBufferWriter.WriteStr` | os_with_bootloader/kernel_with_bootloader/src/writer.rs:300-305 | the writer ends in `AfterWriteStr` of its old state, and the result is always `Ok` |
| `Boot.Ordinal` | os_with_bootloader/kernel_with_bootloader/src/main.rs:49-59 | every `Colors` ordinal is below 9, so it is a valid index into the template |
| `Boot.OrdinalInjective` | os_with_bootloader/kernel_with_bootloader/src/main.rs:49-59 | distinct colours have distinct ordinals |
| `Boot.OrdinalSelectsNamedEntry` | os_with_bootloader/kernel_with_bootloader/src/main.rs:49-59 | each of the nine ordinals selects the template entry named after its colour |
| `Boot.SetChangeColorUsable` | os_with_bootloader/kernel_with_bootloader/src/main.rs:80 | after `setChange(…, Colors::X as usize)` the colour can be drawn in every supported format |
| `Boot.EmptyRegion` | os_with_bootloader/kernel_with_bootloader/src/main.rs:117 | `MemoryRegion::empty()`, taken as start 0, end 0, kind `Bootloader`; only its `end` enters the heap arithmetic |
| `Boot.NoBootloaderHeap` | os_with_bootloader/kernel_with_bootloader/src/main.rs:117-134 | without a `Bootloader` region the heap starts at `offset + 1` and its size is `last.end - 1` |
| `Boot.BootloaderRegion` | os_with_bootloader/kernel_with_bootloader/src/main.rs:117-127 | the selected region has kind `Bootloader` and is either one of the map's regions or `MemoryRegion::empty()` |
| `Boot.FirstBootloaderIndex` | os_with_bootloader/kernel_with_bootloader/src/main.rs:119-127 | the index found is the first one whose region has kind `Bootloader`, or the length when there is none |
| `Boot.FirstBootloaderWins` | os_with_bootloader/kernel_with_bootloader/src/main.rs:119-127 | the first `Bootloader` region is selected and later ones are ignored |
| `Boot.NoBootloaderGivesEmpty` | os_with_bootloader/kernel_with_bootloader/src/main.rs:117-127 | without a `Bootloader` region the selection stays `MemoryRegion::empty()` |
| `Boot.FindBootloaderRegion` | os_with_bootloader/kernel_with_bootloader/src/main.rs:117-127 | the `for`/`break` loop returns exactly the selected region |
| `Boot.ComputeHeapBounds` | os_with_bootloader/kernel_with_bootloader/src/main.rs:133-134 | `heap_start - offset = bl.end + 1`, `heap_start + heap_size = last.end + offset`, and `heap_size = last.end - bl.end - 1` |
| `Boot.HeapDerivable` | os_with_bootloader/kernel_with_bootloader/src/main.rs:113-134 | when the heap computation neither panics nor wraps: the map is non-empty, the start fits in 64 bits and the size does not underflow |
| `Boot.HeapFromMemoryMap` | os_with_bootloader/kernel_with_bootloader/src/main.rs:113-134 | the entry point's computation (last region, search, then arithmetic) yields `ComputeHeapBounds` |
| `Boot.ExampleHeap` | os_with_bootloader/kernel_with_bootloader/src/main.rs:133-134 | a boot loader region ending at 0x1000, a last region ending at 0x9000 and offset 0x1000 give start 0x2001 and size 0x7fff |

## Left out

- Keyboard input (`input_char!`). It polls I/O port 0x60 and uses an external scan-code decoder behind a spin lock. That is hardware and foreign code.
- Glyph rasterization (`get_char_raster` and the bitmap font). It is an external library. The glyph is a parameter, and `CHAR_RASTER_WIDTH` and `CHAR_RASTER_HEIGHT` are positive constants with no fixed value.
- The unsupported-pixel-format branch of `write_pixel`. It resets the format to RGB and then panics. The model instead requires a supported format, so `info` never changes and is a constant of the class.
- The value returned by the `ptr::read_volatile` read-back after each pixel write. The value is never used, and a volatile read has no effect the model can see. Its bounds check is modelled: `WritePixel` reads the byte back, and `PixelWritable` requires the byte to exist.
- The `print!` and `println!` macros, the `static mut` writer and buffer pointers, and the `Send`/`Sync` impls. They deal with global access and concurrency, and the model is sequential.
- The rest of `my_entry_point` in main.rs:
  - taking the framebuffer and its info from the boot information (`unwrap`);
  - the call `setChange(911, 90, …)` itself (only its colour argument is modelled);
  - `ALLOCATOR.init`, an external allocator;
  - the input/echo step and the `hlt` idle loop.
- The interrupt descriptor table, the breakpoint and double-fault handlers, `init_idt`, the panic handler and `BOOTLOADER_CONFIG`. These are processor plumbing and fixed configuration.
- `physical_memory_offset.into_option().unwrap()`: the offset is a parameter, so the case where it is missing (a panic) is not modelled.
- Machine-width overflow of `usize` positions: cursor and pixel arithmetic uses unbounded naturals. Bytes and the heap's `u64` values are bounded, and the heap arithmetic's overflow and underflow are preconditions.
- `width()` and `height()` are read directly as `info.width` and `info.height`.
- Pixels.BlitRasterDraws: stated only for a glyph whose rows lie inside the stride. A row that reaches past the stride runs onto the next framebuffer line, where a later glyph row can overwrite it, as it would in the source.
- `Console.AfterWriteChar` and `Console.AfterWriteStr`: their own contracts state only that the framebuffer length is kept. What they compute is stated by the `Writer` methods proved against them and by the lemmas about them.
