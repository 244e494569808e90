/** `parse_jpeg_end`: the loop that finds the structural end of a JPEG inside a larger buffer. */
module JpegWalker {
  import opened Wire
  import opened JpegSyntax
  import opened FrameErrors

  type Outcome = Result<nat, FrameParseError>

  // ---------- The walker as a machine: one hop per marker ----------

  datatype Hop =
    | Stop(outcome: Outcome)
    | Go(cursor: nat, inScan: bool, sawScan: bool)

  function NextFill(data: seq<byte>, c: nat): (m: nat)
    requires c <= |data|
    ensures c <= m <= |data|
    ensures forall i | c <= i < m :: data[i] != FILL
    ensures m < |data| ==> data[m] == FILL
    decreases |data| - c
  {
    if c == |data| || data[c] == FILL then c else NextFill(data, c + 1)
  }

  function SkipFill(data: seq<byte>, c: nat): (k: nat)
    requires c <= |data|
    ensures c <= k <= |data|
    ensures forall i | c <= i < k :: data[i] == FILL
    ensures k < |data| ==> data[k] != FILL
    decreases |data| - c
  {
    if c == |data| || data[c] != FILL then c else SkipFill(data, c + 1)
  }

  /** Ns of a scan header whose length field is at `c`. */
  function Components(data: seq<byte>, c: nat, length: nat): (n: nat)
    requires c + length <= |data|
  {
    if length >= 3 then data[c + 2] else 0
  }

  /** What follows the marker at `off` whose code ends just before `c`. */
  function AfterMarker(data: seq<byte>, off: nat, marker: byte, c: nat, sawScan: bool): (h: Hop)
    requires c <= |data|
    ensures h.Go? ==> c < h.cursor <= |data|
  {
    if marker == EOI then
      Stop(if sawScan then Ok(c) else Err(JpegEndBeforeScan(off)))
    else if Unexpected(marker) then
      Stop(Err(UnexpectedJpegMarker(off, marker)))
    else if |data| - c < 2 then
      Stop(Err(TruncatedJpegSegmentLength(off, marker)))
    else
      var length := ReadU16Be(data, c);
      if length < 2 then
        Stop(Err(InvalidJpegSegmentLength(off, marker, length)))
      else if c + length > |data| then
        Stop(Err(TruncatedJpegSegment(off, marker, length, |data| - c)))
      else if marker != SOS then
        Go(c + length, false, sawScan)
      else
        var components := Components(data, c, length);
        if components == 0 || length != 6 + 2 * components then
          Stop(Err(InvalidJpegScanHeader(off, length, components)))
        else
          Go(c + length, true, true)
  }

  /** The marker expected at `off`, with its fill bytes. */
  function HopFrom(data: seq<byte>, off: nat, inScan: bool, sawScan: bool): (h: Hop)
    requires off <= |data|
    ensures h.Go? ==> off < h.cursor <= |data|
  {
    if off == |data| then
      Stop(Err(if inScan || sawScan then MissingJpegEnd else TruncatedJpegMarker(off)))
    else if data[off] != FILL then
      Stop(Err(ExpectedJpegMarker(off, data[off])))
    else
      var k := SkipFill(data, off + 1);
      if k == |data| then
        Stop(Err(TruncatedJpegMarker(off)))
      else if inScan && ContinuesScan(data[k]) then
        Go(k + 1, true, sawScan)
      else
        AfterMarker(data, off, data[k], k + 1, sawScan)
  }

  /** One marker, found by search inside a scan and expected at the cursor outside. */
  function NextHop(data: seq<byte>, c: nat, inScan: bool, sawScan: bool): (h: Hop)
    requires c <= |data|
    ensures h.Go? ==> c < h.cursor <= |data|
  {
    HopFrom(data, if inScan then NextFill(data, c) else c, inScan, sawScan)
  }

  function Walk(data: seq<byte>, c: nat, inScan: bool, sawScan: bool): (r: Outcome)
    requires c <= |data|
    decreases |data| - c
  {
    match NextHop(data, c, inScan, sawScan)
    case Stop(outcome) => outcome
    case Go(c', inScan', sawScan') => Walk(data, c', inScan', sawScan')
  }

  function Resume(data: seq<byte>, h: Hop): (r: Outcome)
    requires h.Go? ==> h.cursor <= |data|
  {
    match h
    case Stop(outcome) => outcome
    case Go(c, inScan, sawScan) => Walk(data, c, inScan, sawScan)
  }

  /** The structural end of the JPEG at the front of `data`, or why there is none. */
  function JpegEnd(data: seq<byte>): (r: Outcome) {
    if Has(data, 0, Start()) then Walk(data, 2, false, false) else Err(MissingJpegStart)
  }

  // ---------- The loops ----------
  //
  // The `assert ... <= USIZE_MAX` lines stand where the source uses a checked addition or
  // multiplication: none can overflow, so `LengthOverflow` is never returned.

  method SkipFillBytes(data: Slice, start: nat) returns (cursor: nat)
    requires start <= |data|
    ensures cursor == SkipFill(data, start)
  {
    cursor := start;
    while cursor < |data| && data[cursor] == FILL
      invariant start <= cursor <= |data|
      invariant SkipFill(data, start) == SkipFill(data, cursor)
    {
      assert cursor + 1 <= USIZE_MAX;
      cursor := cursor + 1;
    }
  }

  method FindFillByte(data: Slice, start: nat) returns (cursor: nat)
    requires start <= |data|
    ensures cursor == NextFill(data, start)
  {
    cursor := start;
    while cursor < |data| && data[cursor] != FILL
      invariant start <= cursor <= |data|
      invariant NextFill(data, start) == NextFill(data, cursor)
    {
      cursor := cursor + 1;
    }
  }

  /** A marker at `off` whose code ends just before `next`. */
  datatype Marker = Marker(off: nat, code: byte, next: nat)

  /** Searches entropy-coded data for the marker that ends it. */
  method ScanMarker(data: Slice, start: nat, ghost sawScan: bool) returns (r: Result<Marker, FrameParseError>)
    requires start <= |data|
    ensures r.Err? ==> Walk(data, start, true, sawScan) == Err(r.error)
    ensures r.Ok? ==> start < r.value.next <= |data|
    ensures r.Ok? ==> Walk(data, start, true, sawScan)
                      == Resume(data, AfterMarker(data, r.value.off, r.value.code, r.value.next, sawScan))
  {
    hide AfterMarker;
    var cursor := start;
    while true
      invariant start <= cursor <= |data|
      invariant Walk(data, start, true, sawScan) == Walk(data, cursor, true, sawScan)
      decreases |data| - cursor
    {
      cursor := FindFillByte(data, cursor);
      if cursor == |data| {
        return Err(MissingJpegEnd);
      }
      var markerOffset := cursor;
      assert cursor + 1 <= USIZE_MAX;
      cursor := SkipFillBytes(data, cursor + 1);
      if cursor == |data| {
        return Err(TruncatedJpegMarker(markerOffset));
      }
      var marker := data[cursor];
      assert cursor + 1 <= USIZE_MAX;
      cursor := cursor + 1;
      if !ContinuesScan(marker) {
        return Ok(Marker(markerOffset, marker, cursor));
      }
    }
  }

  /** Reads the marker that must stand at the cursor outside entropy-coded data. */
  method HeaderMarker(data: Slice, cursor: nat, sawScan: bool) returns (r: Result<Marker, FrameParseError>)
    requires cursor <= |data|
    ensures r.Err? ==> Walk(data, cursor, false, sawScan) == Err(r.error)
    ensures r.Ok? ==> cursor < r.value.next <= |data|
    ensures r.Ok? ==> Walk(data, cursor, false, sawScan)
                      == Resume(data, AfterMarker(data, r.value.off, r.value.code, r.value.next, sawScan))
  {
    if cursor == |data| {
      return Err(if sawScan then MissingJpegEnd else TruncatedJpegMarker(cursor));
    }
    if data[cursor] != FILL {
      return Err(ExpectedJpegMarker(cursor, data[cursor]));
    }
    assert cursor + 1 <= USIZE_MAX;
    var k := SkipFillBytes(data, cursor + 1);
    if k == |data| {
      return Err(TruncatedJpegMarker(cursor));
    }
    assert k + 1 <= USIZE_MAX;
    return Ok(Marker(cursor, data[k], k + 1));
  }

  /**
   Handles the code of the marker that the walk from `start` has found: it gives the walk's answer,
   or a later place from which the walk has the same answer.
   */
  method SegmentAfter(data: Slice, m: Marker, sawScan: bool, ghost start: nat, ghost inScan: bool) returns (h: Hop)
    requires start < m.next <= |data|
    requires Walk(data, start, inScan, sawScan) == Resume(data, AfterMarker(data, m.off, m.code, m.next, sawScan))
    ensures h.Stop? ==> Walk(data, start, inScan, sawScan) == h.outcome
    ensures h.Go? ==> && start < h.cursor <= |data|
                      && Walk(data, start, inScan, sawScan) == Walk(data, h.cursor, h.inScan, h.sawScan)
  {
    hide Walk;
    var Marker(markerOffset, marker, cursor) := m;
    if marker == EOI {
      return Stop(if sawScan then Ok(cursor) else Err(JpegEndBeforeScan(markerOffset)));
    }
    if Unexpected(marker) {
      return Stop(Err(UnexpectedJpegMarker(markerOffset, marker)));
    }
    var available := |data| - cursor;
    if available < 2 {
      return Stop(Err(TruncatedJpegSegmentLength(markerOffset, marker)));
    }
    var segmentLength := ReadU16Be(data, cursor);
    if segmentLength < 2 {
      return Stop(Err(InvalidJpegSegmentLength(markerOffset, marker, segmentLength)));
    }
    assert cursor + segmentLength <= USIZE_MAX;
    var segmentEnd := cursor + segmentLength;
    if segmentEnd > |data| {
      return Stop(Err(TruncatedJpegSegment(markerOffset, marker, segmentLength, available)));
    }
    if marker != SOS {
      return Go(segmentEnd, false, sawScan);
    }
    var components: nat := if segmentLength >= 3 then data[cursor + 2] else 0;
    assert components * 2 + 6 <= USIZE_MAX;
    if components == 0 || segmentLength != components * 2 + 6 {
      return Stop(Err(InvalidJpegScanHeader(markerOffset, segmentLength, components)));
    }
    return Go(segmentEnd, true, true);
  }

  method ParseJpegEnd(data: Slice) returns (r: Outcome)
    ensures r == JpegEnd(data)
  {
    if !(|data| >= 2 && data[..2] == [FILL, SOI]) {
      return Err(MissingJpegStart);
    }
    var cursor, inScan, sawScan := 2, false, false;
    while true
      invariant 2 <= cursor <= |data|
      invariant JpegEnd(data) == Walk(data, cursor, inScan, sawScan)
      decreases |data| - cursor
    {
      var found: Result<Marker, FrameParseError>;
      if inScan {
        found := ScanMarker(data, cursor, sawScan);
      } else {
        found := HeaderMarker(data, cursor, sawScan);
      }
      if found.Err? {
        return Err(found.error);
      }
      var hop := SegmentAfter(data, found.value, sawScan, cursor, inScan);
      if hop.Stop? {
        return hop.outcome;
      }
      cursor, inScan, sawScan := hop.cursor, hop.inScan, hop.sawScan;
    }
  }
}
