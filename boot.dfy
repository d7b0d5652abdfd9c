/** The part of the kernel entry point that derives the heap from the boot
    loader's memory map, and the palette enumeration passed to `setChange`. */
module Boot {
  import Pixels
  import Console

  const U64_MODULUS: int := 0x1_0000_0000_0000_0000

  type U64 = n: int | 0 <= n < U64_MODULUS

  /** The palette, in the order of the colour template. */
  datatype Colors = White | Red | Green | Blue | Cyan | Magenta | Yellow | Orange | Purple

  /** `Colors::X as usize`. */
  function Ordinal(c: Colors): (n: nat)
    ensures n < Pixels.PALETTE_SIZE
  {
    match c
    case White => 0
    case Red => 1
    case Green => 2
    case Blue => 3
    case Cyan => 4
    case Magenta => 5
    case Yellow => 6
    case Orange => 7
    case Purple => 8
  }

  /** Distinct colours have distinct ordinals. */
  lemma OrdinalInjective(c: Colors, d: Colors)
    ensures Ordinal(c) == Ordinal(d) ==> c == d
  {
  }

  /** Each ordinal selects the template entry its colour is named after. */
  lemma OrdinalSelectsNamedEntry(i: Pixels.Byte)
    ensures Pixels.RgbTemplate(i)[Ordinal(White)] == [i, i, i, 0]
    ensures Pixels.RgbTemplate(i)[Ordinal(Red)] == [i, 0, 0, 0]
    ensures Pixels.RgbTemplate(i)[Ordinal(Green)] == [0, i, 0, 0]
    ensures Pixels.RgbTemplate(i)[Ordinal(Blue)] == [0, 0, i, 0]
    ensures Pixels.RgbTemplate(i)[Ordinal(Cyan)] == [0, i, i, 0]
    ensures Pixels.RgbTemplate(i)[Ordinal(Magenta)] == [i, 0, i, 0]
    ensures Pixels.RgbTemplate(i)[Ordinal(Yellow)] == [i, i, 0, 0]
    ensures Pixels.RgbTemplate(i)[Ordinal(Orange)] == [i, Pixels.OrangeGreen(i), 0, 0]
    ensures Pixels.RgbTemplate(i)[Ordinal(Purple)] == [i / 2, 0, i / 2, 0]
  {
  }

  /** A colour given to `setChange` as its ordinal can be drawn in every
      supported format, whether or not the position is accepted. */
  lemma SetChangeColorUsable(info: Pixels.FrameBufferInfo, c: Console.Cursor, px: nat, py: nat, color: Colors)
    requires Pixels.Supported(info.pixelFormat)
    requires c.color < Pixels.PALETTE_SIZE
    ensures Pixels.ColorUsable(info.pixelFormat, Console.AfterSetChange(info, c, px, py, Ordinal(color)).color)
  {
  }

  datatype MemoryRegionKind = Usable | Bootloader | UnknownUefi(uefiType: nat) | UnknownBios(biosType: nat)

  /** A physical memory region: from `start` up to `end`. */
  datatype MemoryRegion = MemoryRegion(start: U64, end: U64, kind: MemoryRegionKind)

  /** `MemoryRegion::empty()` of the boot loader's interface. */
  function EmptyRegion(): (r: MemoryRegion)
    ensures r.kind == Bootloader && r.start == 0 && r.end == 0
  {
    MemoryRegion(0, 0, Bootloader)
  }

  /** Index of the first region of kind `Bootloader`, or `|regions|` when
      there is none. */
  function FirstBootloaderIndex(regions: seq<MemoryRegion>): (k: nat)
    ensures k <= |regions|
    ensures k < |regions| ==> regions[k].kind == Bootloader
    ensures forall j :: 0 <= j < k ==> regions[j].kind != Bootloader
    decreases |regions|
  {
    if regions == [] then 0
    else if regions[0].kind == Bootloader then 0
    else 1 + FirstBootloaderIndex(regions[1..])
  }

  /** The region the entry point takes as the boot loader's own. */
  function BootloaderRegion(regions: seq<MemoryRegion>): (r: MemoryRegion)
    ensures r.kind == Bootloader
    ensures r == EmptyRegion() || r in regions
  {
    var k := FirstBootloaderIndex(regions);
    if k < |regions| then regions[k] else EmptyRegion()
  }

  /** The first `Bootloader` region is selected; what follows it is never
      looked at. */
  lemma {:induction false} FirstBootloaderWins(before: seq<MemoryRegion>, r: MemoryRegion, after: seq<MemoryRegion>)
    requires forall j :: 0 <= j < |before| ==> before[j].kind != Bootloader
    requires r.kind == Bootloader
    ensures FirstBootloaderIndex(before + [r] + after) == |before|
    ensures BootloaderRegion(before + [r] + after) == r
    decreases |before|
  {
    if before != [] {
      assert (before + [r] + after)[1..] == before[1..] + [r] + after;
      FirstBootloaderWins(before[1..], r, after);
    }
  }

  /** Without a `Bootloader` region the empty region is selected. */
  lemma NoBootloaderGivesEmpty(regions: seq<MemoryRegion>)
    requires forall j :: 0 <= j < |regions| ==> regions[j].kind != Bootloader
    ensures BootloaderRegion(regions) == EmptyRegion()
  {
  }

  /** Without a `Bootloader` region the heap starts one byte above the
      physical memory offset and ends where the last region ends. */
  lemma NoBootloaderHeap(regions: seq<MemoryRegion>, physicalMemoryOffset: U64)
    requires forall j :: 0 <= j < |regions| ==> regions[j].kind != Bootloader
    requires HeapDerivable(regions, physicalMemoryOffset)
    ensures ComputeHeapBounds(regions, physicalMemoryOffset) ==
      HeapBounds(physicalMemoryOffset + 1, regions[|regions| - 1].end - 1)
  {
    NoBootloaderGivesEmpty(regions);
  }

  /** The search loop of the entry point: keeps the empty region until the
      first `Bootloader` region, then stops. */
  method FindBootloaderRegion(regions: seq<MemoryRegion>) returns (region: MemoryRegion)
    ensures region == BootloaderRegion(regions)
  {
    region := EmptyRegion();
    for i := 0 to |regions|
      invariant region == EmptyRegion()
      invariant forall j :: 0 <= j < i ==> regions[j].kind != Bootloader
    {
      match regions[i].kind {
        case Bootloader =>
          region := regions[i];
          FirstBootloaderWins(regions[..i], regions[i], regions[i + 1..]);
          assert regions[..i] + [regions[i]] + regions[i + 1..] == regions;
          break;
        case _ =>
          continue;
      }
    }
  }

  /** Start and size handed to the heap allocator. */
  datatype HeapBounds = HeapBounds(start: U64, size: U64)

  /** The memory map has a last region, and the heap arithmetic neither
      overflows nor underflows in 64 bits. */
  predicate HeapDerivable(regions: seq<MemoryRegion>, physicalMemoryOffset: U64)
  {
    && |regions| > 0
    && BootloaderRegion(regions).end + 1 + physicalMemoryOffset < U64_MODULUS
    && regions[|regions| - 1].end >= BootloaderRegion(regions).end + 1
  }

  /** The heap starts right after the boot loader's region, moved by the
      physical memory offset, and ends where the last region ends. */
  function ComputeHeapBounds(regions: seq<MemoryRegion>, physicalMemoryOffset: U64): (h: HeapBounds)
    requires HeapDerivable(regions, physicalMemoryOffset)
    ensures h.start - physicalMemoryOffset == BootloaderRegion(regions).end + 1
    ensures h.start + h.size == regions[|regions| - 1].end + physicalMemoryOffset
    ensures h.size == regions[|regions| - 1].end - BootloaderRegion(regions).end - 1
  {
    var last := regions[|regions| - 1];
    var bl := BootloaderRegion(regions);
    HeapBounds(bl.end + 1 + physicalMemoryOffset, last.end - (bl.end + 1))
  }

  /** The heap computation of the entry point: last region, boot loader
      region search, then start and size. */
  method HeapFromMemoryMap(regions: seq<MemoryRegion>, physicalMemoryOffset: U64) returns (heapStart: U64, heapSize: U64)
    requires HeapDerivable(regions, physicalMemoryOffset)
    ensures HeapBounds(heapStart, heapSize) == ComputeHeapBounds(regions, physicalMemoryOffset)
  {
    var lastMemoryRegion := regions[|regions| - 1];
    var bootLoaderMemoryRegion := FindBootloaderRegion(regions);
    heapStart := bootLoaderMemoryRegion.end + 1 + physicalMemoryOffset;
    heapSize := lastMemoryRegion.end - (bootLoaderMemoryRegion.end + 1);
  }

  /** A boot loader region [0, 0x1000], two usable regions up to 0x9000 and
      offset 0x1000 give a heap at 0x2001 of 0x7fff bytes. */
  lemma ExampleHeap()
    ensures var regions := [MemoryRegion(0, 0x1000, Bootloader),
                            MemoryRegion(0x1000, 0x2000, Usable),
                            MemoryRegion(0x2000, 0x9000, Usable)];
      HeapDerivable(regions, 0x1000) &&
      ComputeHeapBounds(regions, 0x1000) == HeapBounds(0x2001, 0x7fff)
  {
  }
}
