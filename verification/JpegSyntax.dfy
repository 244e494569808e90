/**
 The JPEG language that the SM768 frame parser accepts, as a grammar.

 Names follow ITU-T T.81: markers with fill bytes (B.1.1.2), marker segments (B.1.1.4),
 entropy-coded data with stuffed zero bytes and restart markers (B.1.1.5), the order of
 headers, scans and the end marker (B.2.1) and the scan header length 6 + 2 * Ns (B.2.3).
 The grammar is the parser's own: any Ns >= 1 is allowed, fill bytes may also precede
 a stuffed zero or a restart marker inside a scan, and TEM is never allowed.
 */
module JpegSyntax {
  import opened Wire

  const FILL: byte := 0xff
  const SOI: byte := 0xd8
  const EOI: byte := 0xd9
  const SOS: byte := 0xda

  /** A second byte that continues entropy-coded data: stuffing or a restart marker. */
  predicate ContinuesScan(code: byte) {
    code == 0x00 || 0xd0 <= code <= 0xd7
  }

  /** Codes that never start a segment outside entropy-coded data, other than EOI. */
  predicate Unexpected(code: byte) {
    code == 0x00 || code == 0x01 || 0xd0 <= code <= 0xd8
  }

  /** Codes that start a length-delimited segment. */
  predicate OpensSegment(code: byte) {
    !Unexpected(code) && code != EOI && code != FILL
  }

  datatype Token =
    | Plain(value: byte)
    | Escape(fill: nat, code: byte)
    | Segment(fill: nat, marker: byte, body: seq<byte>)
    | ScanHeader(fill: nat, body: seq<byte>)

  predicate WellFormed(t: Token, inScan: bool) {
    match t
    case Plain(value) => inScan && value != FILL
    case Escape(_, code) => inScan && ContinuesScan(code)
    case Segment(_, marker, body) => OpensSegment(marker) && marker != SOS && |body| + 2 <= 0xffff
    case ScanHeader(_, body) => |body| >= 1 && body[0] >= 1 && |body| + 2 == 6 + 2 * body[0] as int
  }

  function ScanAfter(t: Token, inScan: bool): (b: bool) {
    match t
    case Plain(_) => inScan
    case Escape(_, _) => inScan
    case Segment(_, _, _) => false
    case ScanHeader(_, _) => true
  }

  /** One fill byte is mandatory: it is the first byte of the marker. */
  function MarkerBytes(fill: nat, code: byte): (bs: seq<byte>)
    ensures |bs| == fill + 2
    ensures forall i | 0 <= i <= fill :: bs[i] == FILL
    ensures bs[fill + 1] == code
  {
    seq(fill + 1, _ => FILL) + [code]
  }

  function SegmentBytes(fill: nat, marker: byte, body: seq<byte>): (bs: seq<byte>)
    requires |body| + 2 <= 0xffff
  {
    MarkerBytes(fill, marker) + U16Be(|body| + 2) + body
  }

  function Encode(t: Token): (bs: seq<byte>)
    requires WellFormed(t, true)
    ensures |bs| >= 1
  {
    match t
    case Plain(value) => [value]
    case Escape(fill, code) => MarkerBytes(fill, code)
    case Segment(fill, marker, body) => SegmentBytes(fill, marker, body)
    case ScanHeader(fill, body) => SegmentBytes(fill, SOS, body)
  }

  /** `ts` is a legal token sequence when it starts inside (or outside) entropy-coded data. */
  predicate Legal(ts: seq<Token>, inScan: bool) {
    ts == [] || (WellFormed(ts[0], inScan) && Legal(ts[1..], ScanAfter(ts[0], inScan)))
  }

  function Flatten(ts: seq<Token>, inScan: bool): (bs: seq<byte>)
    requires Legal(ts, inScan)
  {
    if ts == [] then [] else Encode(ts[0]) + Flatten(ts[1..], ScanAfter(ts[0], inScan))
  }

  /** Whether entropy-coded data is open after `ts`. */
  function ScanOpen(ts: seq<Token>, inScan: bool): (b: bool) {
    if ts == [] then inScan else ScanOpen(ts[1..], ScanAfter(ts[0], inScan))
  }

  predicate HasScan(ts: seq<Token>) {
    ts != [] && (ts[0].ScanHeader? || HasScan(ts[1..]))
  }

  function Start(): (bs: seq<byte>) {
    [FILL, SOI]
  }

  /** The complete JPEG with the given tokens between SOI and EOI. */
  function Image(ts: seq<Token>, fill: nat): (bs: seq<byte>)
    requires Legal(ts, false)
  {
    Start() + Flatten(ts, false) + MarkerBytes(fill, EOI)
  }

  /** The accepted language: at least one scan, then an end marker. */
  ghost predicate IsJpeg(bs: seq<byte>) {
    exists ts: seq<Token>, fill: nat :: Legal(ts, false) && HasScan(ts) && bs == Image(ts, fill)
  }
}
