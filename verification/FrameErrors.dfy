/** Every way in which a captured frame packet is refused. */
module FrameErrors {
  import opened Wire

  datatype FrameParseError =
    | InvalidMaxPacketSize(size: nat)
    | TooShort(actual: nat, minimum: nat)
    | BadMagic
    | DeclaredLengthDoesNotFit(wire: u32)
    | DeclaredLengthMismatch(declared: nat, actual: nat)
    | InvalidSignature(signature: u32)
    | InvalidFrameType(byte20: byte, byte21: byte)
    | MissingJpegStart
    | ExpectedJpegMarker(offset: nat, found: byte)
    | TruncatedJpegMarker(offset: nat)
    | TruncatedJpegSegmentLength(offset: nat, marker: byte)
    | InvalidJpegSegmentLength(offset: nat, marker: byte, length: nat)
    | TruncatedJpegSegment(offset: nat, marker: byte, length: nat, available: nat)
    | InvalidJpegScanHeader(offset: nat, length: nat, components: nat)
    | UnexpectedJpegMarker(offset: nat, marker: byte)
    | JpegEndBeforeScan(offset: nat)
    | MissingJpegEnd
    | LengthOverflow
    | TruncatedDecoderMetadata(actual: nat, expected: nat)
    | PaddingTooLong(actual: nat, maximum: nat)
    | NonZeroPadding(offset: nat, value: byte)
    | UnalignedPayload(actual: nat, expected: nat, maxPacketSize: nat)

  /** The errors that report an input that ended too early. */
  predicate Incomplete(e: FrameParseError) {
    || e.MissingJpegStart?
    || e.TruncatedJpegMarker?
    || e.TruncatedJpegSegmentLength?
    || e.TruncatedJpegSegment?
    || e.MissingJpegEnd?
  }
}
