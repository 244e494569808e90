/** The deterministic test pattern: eight vertical bars with a moving inverted square. */
module TestPattern {
  import opened Wire
  import opened Arith
  import opened Frames

  const BARS: seq<seq<bv8>> := [
    [255, 255, 255, 255],
    [0, 255, 255, 255],
    [255, 255, 0, 255],
    [0, 255, 0, 255],
    [255, 0, 255, 255],
    [0, 0, 255, 255],
    [255, 0, 0, 255],
    [0, 0, 0, 255]
  ]

  function Min(a: nat, b: nat): (m: nat) {
    if a <= b then a else b
  }

  function SquareSize(layout: FrameLayout): (s: nat)
    ensures s <= layout.width && s <= layout.height && s <= 64
    ensures s == layout.width || s == layout.height || s == 64
  {
    Min(Min(layout.width, layout.height), 64)
  }

  /** Where the square starts along one axis: `step * sequence` wrapped into the free positions. */
  function SquareStart(extent: nat, size: nat, step: nat, sequence: u64): (start: nat)
    requires size <= extent
    ensures start + size <= extent
  {
    (step * sequence) % (extent - size + 1)
  }

  predicate InSquare(layout: FrameLayout, sequence: u64, x: nat, y: nat) {
    var s := SquareSize(layout);
    var xStart := SquareStart(layout.width, s, 37, sequence);
    var yStart := SquareStart(layout.height, s, 23, sequence);
    xStart <= x < xStart + s && yStart <= y < yStart + s
  }

  function Bar(layout: FrameLayout, x: nat): (pixel: seq<bv8>)
    requires x < layout.width
    ensures |pixel| == 4 && pixel[3] == 255
  {
    DivBelow(8 * x, layout.width, 8);
    BARS[8 * x / layout.width]
  }

  function Inverted(pixel: seq<bv8>): (p: seq<bv8>)
    requires |pixel| == 4
    ensures |p| == 4 && p[3] == pixel[3] && p[0] != pixel[0]
  {
    [!pixel[0], !pixel[1], !pixel[2], pixel[3]]
  }

  /** The colour of one pixel: its bar, inverted inside the square. */
  function PatternPixel(layout: FrameLayout, sequence: u64, x: nat, y: nat): (pixel: seq<bv8>)
    requires x < layout.width
    ensures |pixel| == 4 && pixel[3] == 255
  {
    if InSquare(layout, sequence, x, y) then Inverted(Bar(layout, x)) else Bar(layout, x)
  }

  /** Byte `i` of the raster: pixels row by row, four bytes each. */
  function PatternByte(layout: FrameLayout, sequence: u64, i: nat): (b: bv8)
    requires layout.width > 0
  {
    PatternPixel(layout, sequence, i / 4 % layout.width, i / 4 / layout.width)[i % 4]
  }

  /** The position of pixel (x, y) in raster order. */
  function Position(width: nat, x: nat, y: nat): (p: nat) {
    width * y + x
  }

  lemma NextPosition(width: nat, x: nat, y: nat)
    ensures Position(width, x + 1, y) == Position(width, x, y) + 1
    ensures Position(width, width, y) == Position(width, 0, y + 1)
    ensures Position(width, 0, 0) == 0
  {
  }

  lemma RasterIndex(width: nat, x: nat, y: nat, c: nat)
    requires x < width && c < 4
    ensures var i := 4 * Position(width, x, y) + c; i / 4 % width == x && i / 4 / width == y && i % 4 == c
  {
    DivMod(Position(width, x, y), width, y, x);
  }

  lemma RasterBound(layout: FrameLayout, x: nat, y: nat)
    requires ValidLayout(layout) && x < layout.width && y < layout.height
    ensures 4 * Position(layout.width, x, y) + 4 <= layout.byteLen
    ensures 4 * Position(layout.width, x, y) == y * layout.stride + x * BGRX_BYTES_PER_PIXEL
  {
    MulMonotone(layout.width, y + 1, layout.height);
    assert layout.byteLen == 4 * (layout.width * layout.height);
    assert y * layout.stride == 4 * (layout.width * y);
  }

  /** The first `n` bytes of the buffer are the pattern's. */
  ghost predicate Drawn(layout: FrameLayout, sequence: u64, pixels: array<bv8>, n: nat)
    reads pixels
  {
    && layout.width > 0 && n <= pixels.Length
    && forall i | 0 <= i < n :: pixels[i] == PatternByte(layout, sequence, i)
  }

  lemma NothingDrawn(layout: FrameLayout, sequence: u64, pixels: array<bv8>)
    requires layout.width > 0
    ensures Drawn(layout, sequence, pixels, 4 * Position(layout.width, 0, 0))
  {
  }

  lemma PatternByteAt(layout: FrameLayout, sequence: u64, x: nat, y: nat, c: nat)
    requires x < layout.width && c < 4
    ensures PatternByte(layout, sequence, 4 * Position(layout.width, x, y) + c) == PatternPixel(layout, sequence, x, y)[c]
  {
    hide PatternPixel;
    RasterIndex(layout.width, x, y, c);
  }

  lemma DrawnNext(layout: FrameLayout, sequence: u64, pixels: array<bv8>, x: nat, y: nat)
    requires x < layout.width
    requires var n := 4 * Position(layout.width, x, y);
             && Drawn(layout, sequence, pixels, n) && n + 4 <= pixels.Length
             && forall c | 0 <= c < 4 :: pixels[n + c] == PatternPixel(layout, sequence, x, y)[c]
    ensures Drawn(layout, sequence, pixels, 4 * Position(layout.width, x + 1, y))
  {
    hide PatternByte, PatternPixel;
    var n := 4 * Position(layout.width, x, y);
    forall i | n <= i < n + 4 ensures pixels[i] == PatternByte(layout, sequence, i) {
      PatternByteAt(layout, sequence, x, y, i - n);
      assert pixels[n + (i - n)] == pixels[i];
    }
  }

  /** Writes pixel (x, y), the next one in raster order. */
  method StorePixel(pixels: array<bv8>, layout: FrameLayout, ghost sequence: u64, x: nat, y: nat, pixel: seq<bv8>)
    requires ValidLayout(layout) && pixels.Length == layout.byteLen && x < layout.width && y < layout.height
    requires pixel == PatternPixel(layout, sequence, x, y)
    requires Drawn(layout, sequence, pixels, 4 * Position(layout.width, x, y))
    modifies pixels
    ensures Drawn(layout, sequence, pixels, 4 * Position(layout.width, x + 1, y))
  {
    hide PatternByte, PatternPixel;
    RasterBound(layout, x, y);
    var offset := y * layout.stride + x * BGRX_BYTES_PER_PIXEL;
    forall c | 0 <= c < 4 {
      pixels[offset + c] := pixel[c];
    }
    DrawnNext(layout, sequence, pixels, x, y);
  }

  /** The product is formed after one reduction, so it cannot overflow 64 bits. */
  method WrapStart(extent: nat, size: nat, step: nat, sequence: u64) returns (start: nat)
    requires size <= extent <= MAX_DIMENSION && step <= 37
    ensures start == SquareStart(extent, size, step, sequence)
  {
    var span := extent - size + 1;
    MulMonotone(step, sequence % span, 16_384);
    assert (sequence % span) * step <= U64_MAX;
    start := (sequence % span) * step % span;
    MulMod(sequence, step, span);
  }

  /** The colour computed for one pixel, from the square's corner. */
  method PixelColour(layout: FrameLayout, ghost sequence: u64, x: nat, y: nat, xStart: nat, yStart: nat)
    returns (pixel: seq<bv8>)
    requires x < layout.width
    requires xStart == SquareStart(layout.width, SquareSize(layout), 37, sequence)
    requires yStart == SquareStart(layout.height, SquareSize(layout), 23, sequence)
    ensures pixel == PatternPixel(layout, sequence, x, y)
  {
    hide SquareStart;
    var squareSize := SquareSize(layout);
    pixel := Bar(layout, x);
    if xStart <= x < xStart + squareSize && yStart <= y < yStart + squareSize {
      pixel := Inverted(pixel);
    }
  }

  /**
   The raster loop. `allocates` says whether the zeroed buffer could be allocated. Pixels are
   written in raster order, so the invariant is a prefix of the specified raster.
   */
  method DrawTestPattern(id: FrameId, layout: FrameLayout, allocates: bool) returns (r: Result<Frame, FrameError>)
    ensures ValidateLayout(layout).Err? ==> r == Err(ValidateLayout(layout).error)
    ensures ValidateLayout(layout).Ok? && !allocates ==> r == Err(AllocationFailed(layout.byteLen))
    ensures ValidateLayout(layout).Ok? && allocates ==>
              && r.Ok? && r.value.id == id && r.value.layout == layout
              && |r.value.pixels| == layout.byteLen && layout.width > 0
              && (forall i | 0 <= i < layout.byteLen :: r.value.pixels[i] == PatternByte(layout, id.sequence, i))
              && ShowsSquare(r.value)
  {
    var valid := ValidateLayout(layout);
    if valid.Err? {
      return Err(valid.error);
    }
    ValidationExact(layout);
    var width, height := layout.width, layout.height;
    var squareSize := SquareSize(layout);
    var xStart := WrapStart(width, squareSize, 37, id.sequence);
    var yStart := WrapStart(height, squareSize, 23, id.sequence);
    if !allocates {
      return Err(AllocationFailed(layout.byteLen));
    }
    var pixels := new bv8[layout.byteLen](_ => 0);
    DrawRows(pixels, layout, id.sequence, xStart, yStart);
    r := FromBgrx(id, layout, pixels[..]);
    hide PatternByte, ShowsSquare;
    FrameSquareArea(r.value);
  }

  lemma RasterEnd(layout: FrameLayout)
    requires ValidLayout(layout)
    ensures 4 * Position(layout.width, 0, layout.height) == layout.byteLen
  {
  }

  method DrawRows(pixels: array<bv8>, layout: FrameLayout, ghost sequence: u64, xStart: nat, yStart: nat)
    requires ValidLayout(layout) && pixels.Length == layout.byteLen
    requires xStart == SquareStart(layout.width, SquareSize(layout), 37, sequence)
    requires yStart == SquareStart(layout.height, SquareSize(layout), 23, sequence)
    modifies pixels
    ensures Drawn(layout, sequence, pixels, layout.byteLen)
  {
    hide PatternByte, PatternPixel, SquareSize, SquareStart, Position;
    NothingDrawn(layout, sequence, pixels);
    hide Drawn;
    var width := layout.width;
    var y := 0;
    while y < layout.height
      invariant 0 <= y <= layout.height
      invariant Drawn(layout, sequence, pixels, 4 * Position(width, 0, y))
    {
      var x := 0;
      while x < width
        invariant 0 <= x <= width
        invariant Drawn(layout, sequence, pixels, 4 * Position(width, x, y))
      {
        var pixel := PixelColour(layout, sequence, x, y, xStart, yStart);
        StorePixel(pixels, layout, sequence, x, y, pixel);
        x := x + 1;
      }
      NextPosition(width, width, y);
      y := y + 1;
    }
    RasterEnd(layout);
  }

  // ---------- Meaning of the raster ----------

  /** Reading the frame at a pixel's offset gives the specified colour; every offset is in bounds. */
  lemma PixelMeaning(frame: Frame, x: nat, y: nat, offset: nat)
    requires ValidLayout(frame.layout) && |frame.pixels| == frame.layout.byteLen
    requires forall i | 0 <= i < |frame.pixels| :: frame.pixels[i] == PatternByte(frame.layout, frame.id.sequence, i)
    requires x < frame.layout.width && y < frame.layout.height
    requires offset == y * frame.layout.stride + x * BGRX_BYTES_PER_PIXEL
    ensures offset + 4 <= |frame.pixels|
    ensures frame.pixels[offset..offset + 4] == PatternPixel(frame.layout, frame.id.sequence, x, y)
  {
    hide PatternByte, PatternPixel;
    RasterBound(frame.layout, x, y);
    hide Position;
    var pixel := PatternPixel(frame.layout, frame.id.sequence, x, y);
    forall c | 0 <= c < 4 ensures frame.pixels[offset + c] == pixel[c] {
      PatternByteAt(frame.layout, frame.id.sequence, x, y, c);
    }
    assert frame.pixels[offset..offset + 4] == pixel;
  }

  function Column(width: nat, p: nat): (x: nat)
    requires width > 0
    ensures x < width
  {
    p % width
  }

  function Row(width: nat, p: nat): (y: nat)
    requires width > 0
  {
    p / width
  }

  /** Pixel `p` in raster order differs from its bar. */
  predicate Marked(layout: FrameLayout, sequence: u64, p: nat)
    requires layout.width > 0
  {
    PatternPixel(layout, sequence, Column(layout.width, p), Row(layout.width, p)) != Bar(layout, Column(layout.width, p))
  }

  function CountMarked(layout: FrameLayout, sequence: u64, n: nat): (count: nat)
    requires layout.width > 0
  {
    if n == 0 then 0
    else CountMarked(layout, sequence, n - 1) + if Marked(layout, sequence, n - 1) then 1 else 0
  }

  /** How much of the interval [start, start + size) lies below `v`. */
  function Covered(v: nat, start: nat, size: nat): (n: nat)
    ensures n <= size
  {
    if v <= start then 0 else Min(v - start, size)
  }

  /** The square with its corner at (xStart, yStart) is where this frame's square stands. */
  predicate SquareAt(layout: FrameLayout, sequence: u64, s: nat, xStart: nat, yStart: nat) {
    && s == SquareSize(layout)
    && xStart == SquareStart(layout.width, s, 37, sequence)
    && yStart == SquareStart(layout.height, s, 23, sequence)
  }

  /** Inversion always changes a colour, so a pixel is marked exactly inside the square. */
  lemma MarkedIffCovered(layout: FrameLayout, sequence: u64, s: nat, xStart: nat, yStart: nat, x: nat, y: nat)
    requires SquareAt(layout, sequence, s, xStart, yStart) && x < layout.width
    ensures Marked(layout, sequence, Position(layout.width, x, y))
            <==> xStart <= x < xStart + s && yStart <= y < yStart + s
  {
    hide SquareStart;
    DivMod(Position(layout.width, x, y), layout.width, y, x);
  }

  /** The pixels of `rows` full rows of a square. */
  function FullRows(rows: nat, s: nat): (n: nat) {
    rows * s
  }

  lemma AddRow(rows: nat, s: nat)
    ensures FullRows(rows + 1, s) == FullRows(rows, s) + s && FullRows(0, s) == 0
  {
  }

  lemma {:induction false} CountAt(layout: FrameLayout, sequence: u64, s: nat, xStart: nat, yStart: nat, x: nat, y: nat)
    requires SquareAt(layout, sequence, s, xStart, yStart) && 0 < layout.width && x <= layout.width
    requires xStart + s <= layout.width
    ensures CountMarked(layout, sequence, Position(layout.width, x, y))
            == FullRows(Covered(y, yStart, s), s) + if yStart <= y < yStart + s then Covered(x, xStart, s) else 0
    decreases y, x
  {
    hide SquareAt, Marked, Position, FullRows;
    var w := layout.width;
    if x > 0 {
      CountAt(layout, sequence, s, xStart, yStart, x - 1, y);
      MarkedIffCovered(layout, sequence, s, xStart, yStart, x - 1, y);
      NextPosition(w, x - 1, y);
    } else if y > 0 {
      CountAt(layout, sequence, s, xStart, yStart, w, y - 1);
      NextPosition(w, w, y - 1);
      AddRow(Covered(y - 1, yStart, s), s);
    } else {
      NextPosition(w, 0, 0);
      AddRow(0, s);
    }
  }

  /** Exactly the pixels of one square differ from their bar, wherever the square stands. */
  lemma SquareArea(layout: FrameLayout, sequence: u64)
    requires ValidLayout(layout)
    ensures CountMarked(layout, sequence, layout.width * layout.height) == SquareSize(layout) * SquareSize(layout)
  {
    hide CountMarked;
    var s := SquareSize(layout);
    var xStart := SquareStart(layout.width, s, 37, sequence);
    var yStart := SquareStart(layout.height, s, 23, sequence);
    CountAt(layout, sequence, s, xStart, yStart, 0, layout.height);
  }

  /** How many of the first `n` pixels stored in the frame differ from their bar. */
  function CountDiffering(frame: Frame, n: nat): (count: nat)
    requires frame.layout.width > 0 && 4 * n <= |frame.pixels|
  {
    if n == 0 then 0
    else
      CountDiffering(frame, n - 1)
      + if frame.pixels[4 * (n - 1)..4 * n] != Bar(frame.layout, Column(frame.layout.width, n - 1)) then 1 else 0
  }

  /** The stored pixels differ from their bars in as many places as the square has pixels. */
  ghost predicate ShowsSquare(frame: Frame) {
    && frame.layout.width > 0 && |frame.pixels| == 4 * (frame.layout.width * frame.layout.height)
    && CountDiffering(frame, frame.layout.width * frame.layout.height)
       == SquareSize(frame.layout) * SquareSize(frame.layout)
  }

  lemma PositionOf(width: nat, p: nat)
    requires width > 0
    ensures Position(width, Column(width, p), Row(width, p)) == p
  {
  }

  lemma RowBelow(width: nat, height: nat, p: nat)
    requires p < width * height && width > 0
    ensures Row(width, p) < height
  {
    assert p < height * width;
    DivBelow(p, width, height);
  }

  lemma PixelOffset(layout: FrameLayout, p: nat)
    requires ValidLayout(layout) && p < layout.width * layout.height
    ensures Row(layout.width, p) < layout.height
    ensures 4 * (p + 1) <= layout.byteLen
    ensures 4 * p == Row(layout.width, p) * layout.stride + Column(layout.width, p) * BGRX_BYTES_PER_PIXEL
  {
    RowBelow(layout.width, layout.height, p);
    PositionOf(layout.width, p);
    hide Row, Column, Position;
    RasterBound(layout, Column(layout.width, p), Row(layout.width, p));
  }

  lemma {:induction false} StoredCount(frame: Frame, n: nat)
    requires ValidLayout(frame.layout) && |frame.pixels| == frame.layout.byteLen
    requires forall i | 0 <= i < |frame.pixels| :: frame.pixels[i] == PatternByte(frame.layout, frame.id.sequence, i)
    requires n <= frame.layout.width * frame.layout.height && 4 * n <= |frame.pixels|
    ensures CountDiffering(frame, n) == CountMarked(frame.layout, frame.id.sequence, n)
    decreases n
  {
    hide PatternByte, PatternPixel, ValidLayout, Bar, Column, Row;
    if n > 0 {
      StoredCount(frame, n - 1);
      PixelOffset(frame.layout, n - 1);
      PixelMeaning(frame, Column(frame.layout.width, n - 1), Row(frame.layout.width, n - 1), 4 * (n - 1));
    }
  }

  /** In a drawn frame exactly the pixels of one square differ from their bar. */
  lemma FrameSquareArea(frame: Frame)
    requires ValidLayout(frame.layout) && |frame.pixels| == frame.layout.byteLen
    requires forall i | 0 <= i < |frame.pixels| :: frame.pixels[i] == PatternByte(frame.layout, frame.id.sequence, i)
    ensures ShowsSquare(frame)
  {
    hide PatternByte, CountDiffering, CountMarked, SquareSize;
    var n := frame.layout.width * frame.layout.height;
    assert 4 * n == frame.layout.byteLen;
    StoredCount(frame, n);
    SquareArea(frame.layout, frame.id.sequence);
  }

  // ---------- Colours ----------

  /** Bar `i` of eight: blue in every other bar, green in the left half, red in every other pair. */
  lemma BarColour(layout: FrameLayout, x: nat, i: nat)
    requires x < layout.width && i * layout.width <= 8 * x < (i + 1) * layout.width
    ensures i < 8
    ensures Bar(layout, x)
            == [if i % 2 == 0 then 255 else 0, if i < 4 then 255 else 0, if i % 4 < 2 then 255 else 0, 255]
  {
    DivMod(8 * x, layout.width, i, 8 * x - i * layout.width);
    DivBelow(8 * x, layout.width, 8);
  }

  /** Every column belongs to one of the eight bars, and bars follow each other from left to right. */
  lemma BarsInOrder(layout: FrameLayout, x: nat, x': nat) returns (i: nat, i': nat)
    requires x <= x' < layout.width
    ensures i <= i' < 8
    ensures i * layout.width <= 8 * x < (i + 1) * layout.width
    ensures i' * layout.width <= 8 * x' < (i' + 1) * layout.width
  {
    i, i' := 8 * x / layout.width, 8 * x' / layout.width;
    DivBelow(8 * x', layout.width, 8);
    DivBounds(8 * x, layout.width);
    DivBounds(8 * x', layout.width);
    DivMonotone(8 * x, 8 * x', layout.width);
  }

  /**
   The square moves 37 columns and 23 rows per frame, wrapped. Inside it every colour byte is the
   complement of the bar's; the fourth byte stays.
   */
  lemma SquareColour(layout: FrameLayout, sequence: u64, x: nat, y: nat)
    requires x < layout.width
    ensures var pixel, bar, s := PatternPixel(layout, sequence, x, y), Bar(layout, x), SquareSize(layout);
            var left, top := 37 * sequence % (layout.width - s + 1), 23 * sequence % (layout.height - s + 1);
            if left <= x < left + s && top <= y < top + s then
              pixel[0] ^ bar[0] == 255 && pixel[1] ^ bar[1] == 255 && pixel[2] ^ bar[2] == 255 && pixel[3] == 255
            else
              pixel == bar
  {
    hide Bar;
  }
}
