/** Frames: identity, layout and pixels. */
module Frames {
  import opened Wire
  import opened Arith

  const BGRX_BYTES_PER_PIXEL: nat := 4
  const MAX_DIMENSION: u32 := 16_384
  const MAX_FRAME_BYTES: nat := 256 * 1024 * 1024

  datatype FrameId = FrameId(generation: u64, sequence: u64)
  datatype FrameLayout = FrameLayout(width: u32, height: u32, stride: nat, byteLen: nat)

  /** Pixel bytes are complemented and hashed, so they are bit vectors. */
  datatype Frame = Frame(id: FrameId, layout: FrameLayout, pixels: seq<bv8>)

  datatype FrameError =
    | ZeroDimension
    | DimensionTooLarge(width: u32, height: u32, limit: u32)
    | SizeOverflow
    | FrameTooLarge(bytes: nat, maximum: nat)
    | PixelLength(expected: nat, actual: nat)
    | InconsistentLayout
    | AllocationFailed(bytes: nat)

  // ---------- Layout ----------

  function NewLayout(width: u32, height: u32): (r: Result<FrameLayout, FrameError>) {
    if width == 0 || height == 0 then
      Err(ZeroDimension)
    else if width > MAX_DIMENSION || height > MAX_DIMENSION then
      Err(DimensionTooLarge(width, height, MAX_DIMENSION))
    else
      var stride := width * BGRX_BYTES_PER_PIXEL;
      if stride > USIZE_MAX then Err(SizeOverflow) else
      var byteLen := stride * height;
      if byteLen > USIZE_MAX then Err(SizeOverflow)
      else if byteLen > MAX_FRAME_BYTES then Err(FrameTooLarge(byteLen, MAX_FRAME_BYTES))
      else Ok(FrameLayout(width, height, stride, byteLen))
  }

  function ValidateLayout(layout: FrameLayout): (r: Result<(), FrameError>) {
    var canonical :- NewLayout(layout.width, layout.height);
    if layout != canonical then Err(InconsistentLayout) else Ok(())
  }

  function FromBgrx(id: FrameId, layout: FrameLayout, pixels: seq<bv8>): (r: Result<Frame, FrameError>) {
    var _ :- ValidateLayout(layout);
    if |pixels| != layout.byteLen then Err(PixelLength(layout.byteLen, |pixels|))
    else Ok(Frame(id, layout, pixels))
  }

  /** The layouts that validation lets through. */
  predicate ValidLayout(layout: FrameLayout) {
    && 1 <= layout.width <= MAX_DIMENSION && 1 <= layout.height <= MAX_DIMENSION
    && layout.stride == 4 * layout.width
    && layout.byteLen == layout.stride * layout.height <= MAX_FRAME_BYTES
  }

  lemma ValidationExact(layout: FrameLayout)
    ensures ValidateLayout(layout).Ok? <==> ValidLayout(layout)
    ensures ValidateLayout(layout) != Err(SizeOverflow)
  {
    var w, h := layout.width, layout.height;
    if w <= MAX_DIMENSION && h <= MAX_DIMENSION {
      MulMonotone(4 * w, h, MAX_DIMENSION);
    }
  }

  /** Each error of the constructor, as a condition on width and height. */
  predicate LayoutRefused(width: u32, height: u32, e: FrameError) {
    match e
    case ZeroDimension => width == 0 || height == 0
    case DimensionTooLarge(w, h, limit) =>
      && w == width > 0 && h == height > 0 && limit == 16_384
      && (width > limit || height > limit)
    case FrameTooLarge(bytes, maximum) =>
      && 1 <= width <= 16_384 && 1 <= height <= 16_384
      && bytes == 4 * (width * height) && maximum == 0x1000_0000 && bytes > maximum
    case _ => false
  }

  lemma LayoutErrorsExact(width: u32, height: u32, e: FrameError)
    ensures NewLayout(width, height) == Err(e) <==> LayoutRefused(width, height, e)
    ensures NewLayout(width, height).Ok? ==>
              && ValidLayout(NewLayout(width, height).value)
              && NewLayout(width, height).value.width == width && NewLayout(width, height).value.height == height
  {
    assert (width * 4) * height == 4 * (width * height);
    if width <= MAX_DIMENSION && height <= MAX_DIMENSION {
      MulMonotone(4 * width, height, MAX_DIMENSION);
    }
  }

  /** A frame is made exactly from a valid layout and as many bytes as it asks for. */
  lemma FromBgrxExact(id: FrameId, layout: FrameLayout, pixels: seq<bv8>)
    ensures FromBgrx(id, layout, pixels) == Ok(Frame(id, layout, pixels))
            <==> ValidLayout(layout) && |pixels| == layout.byteLen
    ensures ValidLayout(layout) && |pixels| != layout.byteLen ==>
              FromBgrx(id, layout, pixels) == Err(PixelLength(layout.byteLen, |pixels|))
    ensures forall e :: LayoutRefused(layout.width, layout.height, e) ==> FromBgrx(id, layout, pixels) == Err(e)
    ensures NewLayout(layout.width, layout.height).Ok? && !ValidLayout(layout) ==>
              FromBgrx(id, layout, pixels) == Err(InconsistentLayout)
  {
    hide NewLayout, ValidLayout, LayoutRefused;
    ValidationExact(layout);
    forall e | LayoutRefused(layout.width, layout.height, e) ensures FromBgrx(id, layout, pixels) == Err(e) {
      LayoutErrorsExact(layout.width, layout.height, e);
    }
  }
}
