/** What the JPEG walker computes: every outcome against the grammar, and prefix-freeness. */
module JpegTheorems {
  import opened Wire
  import opened JpegSyntax
  import opened FrameErrors
  import opened JpegWalker

  // ---------- Walking over tokens ----------

  lemma FillEnd(data: seq<byte>, c: nat, k: nat)
    requires c <= k < |data| && data[k] != FILL
    requires forall i | c <= i < k :: data[i] == FILL
    ensures SkipFill(data, c) == k
  {
  }

  lemma FillStart(data: seq<byte>, c: nat, m: nat)
    requires c <= m <= |data| && (m < |data| ==> data[m] == FILL)
    requires forall i | c <= i < m :: data[i] != FILL
    ensures NextFill(data, c) == m
  {
  }

  /** A run of fill bytes from `off` to `k`, then a code that ends any entropy-coded data. */
  predicate MarkerAt(data: seq<byte>, off: nat, k: nat, inScan: bool) {
    && off < k < |data|
    && (forall i | off <= i < k :: data[i] == FILL)
    && data[k] != FILL
    && !(inScan && ContinuesScan(data[k]))
  }

  lemma HopAtMarker(data: seq<byte>, off: nat, k: nat, inScan: bool, sawScan: bool)
    requires MarkerAt(data, off, k, inScan)
    ensures NextHop(data, off, inScan, sawScan) == AfterMarker(data, off, data[k], k + 1, sawScan)
  {
    FillEnd(data, off + 1, k);
    FillStart(data, off, off);
  }

  lemma MarkerBytesAt(data: seq<byte>, c: nat, fill: nat, code: byte)
    requires Has(data, c, MarkerBytes(fill, code))
    ensures forall i | c <= i <= c + fill :: data[i] == FILL
    ensures data[c + fill + 1] == code
  {
    var bs := MarkerBytes(fill, code);
    forall i | 0 <= i < |bs| ensures data[c + i] == bs[i] {
      assert data[c..c + |bs|][i] == bs[i];
    }
    forall i | c <= i <= c + fill ensures data[i] == FILL {
      assert data[c + (i - c)] == bs[i - c];
    }
    assert data[c + (fill + 1)] == bs[fill + 1];
  }

  lemma SegmentAt(data: seq<byte>, c: nat, fill: nat, marker: byte, body: seq<byte>)
    requires |body| + 2 <= 0xffff
    requires Has(data, c, SegmentBytes(fill, marker, body))
    ensures forall i | c <= i <= c + fill :: data[i] == FILL
    ensures data[c + fill + 1] == marker
    ensures c + fill + 4 + |body| == c + |SegmentBytes(fill, marker, body)| <= |data|
    ensures ReadU16Be(data, c + fill + 2) == |body| + 2
    ensures |body| > 0 ==> data[c + fill + 4] == body[0]
  {
    var marker' := MarkerBytes(fill, marker);
    var length := U16Be(|body| + 2);
    HasConcat(data, c, marker' + length, body);
    HasConcat(data, c, marker', length);
    MarkerBytesAt(data, c, fill, marker);
    var at := c + fill + 2;
    assert data[at..at + 2][0] == length[0] && data[at..at + 2][1] == length[1];
    if |body| > 0 {
      assert data[at + 2..at + 2 + |body|][0] == body[0];
    }
  }

  lemma HopOverEscape(data: seq<byte>, c: nat, sawScan: bool, fill: nat, code: byte)
    requires ContinuesScan(code) && Has(data, c, MarkerBytes(fill, code))
    ensures NextHop(data, c, true, sawScan) == Go(c + fill + 2, true, sawScan)
  {
    MarkerBytesAt(data, c, fill, code);
    FillEnd(data, c + 1, c + fill + 1);
    FillStart(data, c, c);
  }

  lemma HopOverSegment(data: seq<byte>, c: nat, inScan: bool, sawScan: bool, fill: nat, marker: byte, body: seq<byte>)
    requires OpensSegment(marker) && |body| + 2 <= 0xffff && Has(data, c, SegmentBytes(fill, marker, body))
    requires marker == SOS ==> WellFormed(ScanHeader(fill, body), inScan)
    ensures NextHop(data, c, inScan, sawScan)
            == Go(c + |SegmentBytes(fill, marker, body)|, marker == SOS, sawScan || marker == SOS)
  {
    SegmentAt(data, c, fill, marker, body);
    hide SegmentBytes, MarkerBytes, U16Be, HopFrom, NextFill, SkipFill;
    var k := c + fill + 1;
    HopAtMarker(data, c, k, inScan, sawScan);
    var length := ReadU16Be(data, k + 1);
    assert marker == SOS ==> Components(data, k + 1, length) == body[0];
  }

  lemma HopPastPlain(data: seq<byte>, c: nat, sawScan: bool)
    requires c < |data| && data[c] != FILL
    ensures NextHop(data, c, true, sawScan) == NextHop(data, c + 1, true, sawScan)
  {
    assert NextFill(data, c) == NextFill(data, c + 1);
  }

  lemma WalkToken(data: seq<byte>, c: nat, inScan: bool, sawScan: bool, t: Token)
    requires WellFormed(t, inScan) && Has(data, c, Encode(t))
    ensures Walk(data, c, inScan, sawScan)
            == Walk(data, c + |Encode(t)|, ScanAfter(t, inScan), sawScan || t.ScanHeader?)
  {
    hide NextHop;
    match t
    case Plain(value) =>
      assert data[c..c + 1][0] == value;
      HopPastPlain(data, c, sawScan);
    case Escape(fill, code) =>
      HopOverEscape(data, c, sawScan, fill, code);
    case Segment(fill, marker, body) =>
      HopOverSegment(data, c, inScan, sawScan, fill, marker, body);
    case ScanHeader(fill, body) =>
      HopOverSegment(data, c, inScan, sawScan, fill, SOS, body);
  }

  /** The walker passes over any legal token sequence and remembers only its mode. */
  lemma {:induction false} WalkTokens(data: seq<byte>, c: nat, inScan: bool, sawScan: bool, ts: seq<Token>)
    requires Legal(ts, inScan) && Has(data, c, Flatten(ts, inScan))
    ensures Walk(data, c, inScan, sawScan)
            == Walk(data, c + |Flatten(ts, inScan)|, ScanOpen(ts, inScan), sawScan || HasScan(ts))
    decreases |ts|
  {
    hide NextHop, Walk, Encode;
    if ts != [] {
      var t, rest, mode := ts[0], ts[1..], ScanAfter(ts[0], inScan);
      var saw := sawScan || t.ScanHeader?;
      var next := c + |Encode(t)|;
      HasConcat(data, c, Encode(t), Flatten(rest, mode));
      WalkToken(data, c, inScan, sawScan, t);
      WalkTokens(data, next, mode, saw, rest);
    }
  }

  // ---------- Every outcome, stated on the bytes ----------

  /**
   The declarative meaning of an outcome for data whose bytes from `c` on start with the tokens
   `ts`. `off` is where the first byte stands that belongs to no complete token, and `k` is the
   position of the marker code after the fill bytes at `off`.
   */
  ghost predicate Explains(data: seq<byte>, off: nat, k: nat, open: bool, saw: bool, r: Outcome) {
    && off <= |data|
    && match r
       case Ok(n) => MarkerAt(data, off, k, open) && data[k] == EOI && saw && n == k + 1
       case Err(MissingJpegEnd) => off == |data| && (open || saw)
       case Err(TruncatedJpegMarker(o)) =>
         && o == off
         && (if off == |data| then !open && !saw else forall i | off <= i < |data| :: data[i] == FILL)
       case Err(ExpectedJpegMarker(o, found)) => o == off < |data| && !open && data[off] == found != FILL
       case Err(JpegEndBeforeScan(o)) => o == off && MarkerAt(data, off, k, open) && data[k] == EOI && !saw
       case Err(UnexpectedJpegMarker(o, m)) =>
         o == off && MarkerAt(data, off, k, open) && data[k] == m && Unexpected(m)
       case Err(TruncatedJpegSegmentLength(o, m)) =>
         && o == off && MarkerAt(data, off, k, open) && data[k] == m && OpensSegment(m)
         && |data| < k + 3
       case Err(InvalidJpegSegmentLength(o, m, length)) =>
         && o == off && MarkerAt(data, off, k, open) && data[k] == m && OpensSegment(m)
         && k + 3 <= |data| && length == ReadU16Be(data, k + 1) < 2
       case Err(TruncatedJpegSegment(o, m, length, available)) =>
         && o == off && MarkerAt(data, off, k, open) && data[k] == m && OpensSegment(m)
         && k + 3 <= |data| && length == ReadU16Be(data, k + 1) >= 2
         && available == |data| - k - 1 < length
       case Err(InvalidJpegScanHeader(o, length, components)) =>
         && o == off && MarkerAt(data, off, k, open) && data[k] == SOS
         && k + 3 <= |data| && length == ReadU16Be(data, k + 1) >= 2 && k + 1 + length <= |data|
         && components == Components(data, k + 1, length)
         && (components == 0 || length != 6 + 2 * components)
       case _ => false
  }

  /** The tokens that the walker passes over from `c` before it stops with `r`. */
  ghost predicate Reads(data: seq<byte>, c: nat, inScan: bool, sawScan: bool, ts: seq<Token>, k: nat, r: Outcome) {
    && Legal(ts, inScan)
    && Has(data, c, Flatten(ts, inScan))
    && Explains(data, c + |Flatten(ts, inScan)|, k, ScanOpen(ts, inScan), sawScan || HasScan(ts), r)
  }

  lemma ExplainedStop(data: seq<byte>, off: nat, k: nat, open: bool, saw: bool, r: Outcome)
    requires Explains(data, off, k, open, saw, r)
    ensures NextHop(data, off, open, saw) == Stop(r)
  {
    if MarkerAt(data, off, k, open) {
      HopAtMarker(data, off, k, open, saw);
    }
  }

  /** Backward direction: an explanation determines the outcome. */
  lemma ReadsDetermine(data: seq<byte>, c: nat, inScan: bool, sawScan: bool, ts: seq<Token>, k: nat, r: Outcome)
    requires c <= |data| && Reads(data, c, inScan, sawScan, ts, k, r)
    ensures Walk(data, c, inScan, sawScan) == r
  {
    hide NextHop, Explains, Encode;
    WalkTokens(data, c, inScan, sawScan, ts);
    ExplainedStop(data, c + |Flatten(ts, inScan)|, k, ScanOpen(ts, inScan), sawScan || HasScan(ts), r);
  }

  // ---------- Forward direction: every outcome has an explanation ----------

  predicate AtPlain(data: seq<byte>, c: nat, inScan: bool) {
    inScan && c < |data| && data[c] != FILL
  }

  lemma StopExplained(data: seq<byte>, c: nat, inScan: bool, sawScan: bool) returns (k: nat)
    requires c <= |data| && !AtPlain(data, c, inScan) && NextHop(data, c, inScan, sawScan).Stop?
    ensures Explains(data, c, k, inScan, sawScan, NextHop(data, c, inScan, sawScan).outcome)
  {
    k := if c < |data| then SkipFill(data, c + 1) else c;
  }

  lemma FillRun(data: seq<byte>, off: nat, k: nat)
    requires off < k < |data| && forall i | off <= i < k :: data[i] == FILL
    ensures Has(data, off, MarkerBytes(k - off - 1, data[k]))
  {
    assert data[off..k + 1] == MarkerBytes(k - off - 1, data[k]);
  }

  lemma SegmentRun(data: seq<byte>, off: nat, k: nat, end: nat) returns (body: seq<byte>)
    requires off < k && k + 3 <= end <= |data| && forall i | off <= i < k :: data[i] == FILL
    requires ReadU16Be(data, k + 1) == end - k - 1
    ensures body == data[k + 3..end]
    ensures Has(data, off, SegmentBytes(k - off - 1, data[k], body))
  {
    body := data[k + 3..end];
    FillRun(data, off, k);
    var marker, length := MarkerBytes(k - off - 1, data[k]), U16Be(|body| + 2);
    Split256(end - k - 1, data[k + 1], data[k + 2]);
    assert data[k + 1..k + 3] == length;
    HasConcat(data, off, marker, length);
    HasConcat(data, off, marker + length, body);
  }

  lemma GoExplained(data: seq<byte>, c: nat, inScan: bool, sawScan: bool) returns (t: Token)
    requires c <= |data| && !AtPlain(data, c, inScan) && NextHop(data, c, inScan, sawScan).Go?
    ensures WellFormed(t, inScan) && Has(data, c, Encode(t))
    ensures NextHop(data, c, inScan, sawScan)
            == Go(c + |Encode(t)|, ScanAfter(t, inScan), sawScan || t.ScanHeader?)
  {
    hide AfterMarker, Encode;
    var k := SkipFill(data, c + 1);
    if inScan && ContinuesScan(data[k]) {
      t := EscapeToken(data, c, k);
    } else {
      t := SegmentToken(data, c, k, inScan, sawScan);
    }
  }

  lemma EscapeToken(data: seq<byte>, c: nat, k: nat) returns (t: Token)
    requires c < k < |data| && ContinuesScan(data[k]) && forall i | c <= i < k :: data[i] == FILL
    ensures t == Escape(k - c - 1, data[k]) && Has(data, c, Encode(t)) && |Encode(t)| == k + 1 - c
  {
    FillRun(data, c, k);
    t := Escape(k - c - 1, data[k]);
  }

  lemma SegmentToken(data: seq<byte>, c: nat, k: nat, inScan: bool, sawScan: bool) returns (t: Token)
    requires c < k < |data| && data[k] != FILL && forall i | c <= i < k :: data[i] == FILL
    requires AfterMarker(data, c, data[k], k + 1, sawScan).Go?
    ensures WellFormed(t, inScan) && Has(data, c, Encode(t))
    ensures AfterMarker(data, c, data[k], k + 1, sawScan)
            == Go(c + |Encode(t)|, ScanAfter(t, inScan), sawScan || t.ScanHeader?)
  {
    var end := AfterMarker(data, c, data[k], k + 1, sawScan).cursor;
    var body := SegmentRun(data, c, k, end);
    t := if data[k] == SOS then ScanHeader(k - c - 1, body) else Segment(k - c - 1, data[k], body);
    hide MarkerBytes;
    assert |Encode(t)| == end - c;
  }

  lemma ReadsCons(data: seq<byte>, c: nat, inScan: bool, sawScan: bool, t: Token, ts: seq<Token>, k: nat, r: Outcome)
    requires WellFormed(t, inScan) && Has(data, c, Encode(t))
    requires Reads(data, c + |Encode(t)|, ScanAfter(t, inScan), sawScan || t.ScanHeader?, ts, k, r)
    ensures Reads(data, c, inScan, sawScan, [t] + ts, k, r)
  {
    hide Encode, Explains;
    var all := [t] + ts;
    assert all[1..] == ts;
    HasConcat(data, c, Encode(t), Flatten(ts, ScanAfter(t, inScan)));
  }

  lemma StopReads(data: seq<byte>, c: nat, inScan: bool, sawScan: bool, k: nat, r: Outcome)
    requires c <= |data| && Explains(data, c, k, inScan, sawScan, r)
    ensures Reads(data, c, inScan, sawScan, [], k, r)
  {
    hide Explains;
  }

  lemma {:induction false} WalkReads(data: seq<byte>, c: nat, inScan: bool, sawScan: bool)
    returns (ts: seq<Token>, k: nat)
    requires c <= |data|
    ensures Reads(data, c, inScan, sawScan, ts, k, Walk(data, c, inScan, sawScan))
    decreases |data| - c
  {
    hide NextHop, Reads;
    var h := NextHop(data, c, inScan, sawScan);
    if AtPlain(data, c, inScan) {
      HopPastPlain(data, c, sawScan);
      var t := Plain(data[c]);
      ts, k := WalkReads(data, c + 1, inScan, sawScan);
      ReadsCons(data, c, inScan, sawScan, t, ts, k, Walk(data, c, inScan, sawScan));
      ts := [t] + ts;
    } else if h.Stop? {
      ts := [];
      k := StopExplained(data, c, inScan, sawScan);
      StopReads(data, c, inScan, sawScan, k, h.outcome);
    } else {
      var t := GoExplained(data, c, inScan, sawScan);
      ts, k := WalkReads(data, h.cursor, h.inScan, h.sawScan);
      ReadsCons(data, c, inScan, sawScan, t, ts, k, Walk(data, c, inScan, sawScan));
      ts := [t] + ts;
    }
  }

  // ---------- Main results ----------

  /** The outcome `r` is what the bytes of `data` deserve: tokens, then the reason to stop. */
  ghost predicate Deserves(data: seq<byte>, r: Outcome) {
    if Has(data, 0, Start()) then
      exists ts: seq<Token>, k: nat :: Reads(data, 2, false, false, ts, k, r)
    else
      r == Err(MissingJpegStart)
  }

  /** Every outcome, error values and offsets included, is exactly the one the bytes deserve. */
  lemma OutcomeExact(data: seq<byte>, r: Outcome)
    ensures JpegEnd(data) == r <==> Deserves(data, r)
  {
    hide Walk, Reads;
    if Has(data, 0, Start()) {
      var ts, k := WalkReads(data, 2, false, false);
      if Deserves(data, r) {
        var ts', k' :| Reads(data, 2, false, false, ts', k', r);
        ReadsDetermine(data, 2, false, false, ts', k', r);
      }
    }
  }

  /** A whole image is tokens between SOI and an EOI marker. */
  lemma ImageReads(ts: seq<Token>, fill: nat, tail: seq<byte>)
    requires Legal(ts, false) && HasScan(ts)
    ensures var s := Image(ts, fill); Has(s + tail, 0, Start()) && JpegEnd(s + tail) == Ok(|s|)
  {
    hide Encode, Walk, Explains;
    var s := Image(ts, fill);
    var data := s + tail;
    var inner, eoi := Flatten(ts, false), MarkerBytes(fill, EOI);
    assert Has(data, 0, s);
    HasConcat(data, 0, Start() + inner, eoi);
    HasConcat(data, 0, Start(), inner);
    var off := 2 + |inner|;
    MarkerBytesAt(data, off, fill, EOI);
    EoiExplains(data, off, off + fill + 1, ScanOpen(ts, false));
    ReadsDetermine(data, 2, false, false, ts, off + fill + 1, Ok(|s|));
  }

  lemma EoiExplains(data: seq<byte>, off: nat, k: nat, open: bool)
    requires off < k < |data| && data[k] == EOI && forall i | off <= i < k :: data[i] == FILL
    ensures Explains(data, off, k, open, true, Ok(k + 1))
  {
  }

  lemma ReadsImage(data: seq<byte>, ts: seq<Token>, k: nat, n: nat)
    requires Has(data, 0, Start()) && Reads(data, 2, false, false, ts, k, Ok(n))
    ensures n <= |data| && IsJpeg(data[..n])
  {
    hide Encode;
    var inner := Flatten(ts, false);
    var off := 2 + |inner|;
    FillRun(data, off, k);
    var fill := k - off - 1;
    HasConcat(data, 0, Start(), inner);
    HasConcat(data, 0, Start() + inner, MarkerBytes(fill, EOI));
    assert data[..n] == Image(ts, fill);
  }

  /** The walker accepts exactly the prefixes that derive from the grammar. */
  lemma AcceptsExactlyJpegs(data: seq<byte>, n: nat)
    ensures JpegEnd(data) == Ok(n) <==> n <= |data| && IsJpeg(data[..n])
  {
    hide Walk, Reads, Flatten, MarkerBytes;
    OutcomeExact(data, Ok(n));
    if JpegEnd(data) == Ok(n) {
      var ts, k :| Reads(data, 2, false, false, ts, k, Ok(n));
      ReadsImage(data, ts, k, n);
    }
    if n <= |data| && IsJpeg(data[..n]) {
      var ts: seq<Token>, fill: nat :| Legal(ts, false) && HasScan(ts) && data[..n] == Image(ts, fill);
      ImageReads(ts, fill, data[n..]);
      assert data[..n] + data[n..] == data;
    }
  }

  /** The checked additions of the source never fail on a slice, and the end is inside the data. */
  lemma OutcomeBounds(data: seq<byte>)
    ensures JpegEnd(data) != Err(LengthOverflow)
    ensures JpegEnd(data).Ok? ==> 4 <= JpegEnd(data).value <= |data|
  {
    hide JpegEnd;
    OutcomeExact(data, JpegEnd(data));
  }

  /** What follows a JPEG cannot move its end. */
  lemma TailIrrelevant(s: seq<byte>, tail: seq<byte>)
    requires IsJpeg(s)
    ensures JpegEnd(s + tail) == Ok(|s|)
  {
    hide JpegEnd, IsJpeg;
    assert (s + tail)[..|s|] == s;
    AcceptsExactlyJpegs(s + tail, |s|);
  }

  // ---------- Prefixes ----------

  predicate Final(r: Outcome) {
    r.Ok? || !Incomplete(r.error)
  }

  lemma FillStable(p: seq<byte>, q: seq<byte>, c: nat)
    requires c <= |p| && p <= q
    ensures NextFill(p, c) < |p| ==> NextFill(q, c) == NextFill(p, c)
    ensures SkipFill(p, c) < |p| ==> SkipFill(q, c) == SkipFill(p, c)
  {
    if SkipFill(p, c) < |p| {
      FillEnd(q, c, SkipFill(p, c));
    }
  }

  lemma HopFromStable(p: seq<byte>, q: seq<byte>, off: nat, inScan: bool, sawScan: bool)
    requires off < |p| && p <= q
    ensures var h := HopFrom(p, off, inScan, sawScan);
            (h.Stop? ==> Final(h.outcome)) ==> HopFrom(q, off, inScan, sawScan) == h
  {
    hide AfterMarker;
    FillStable(p, q, off + 1);
    var k := SkipFill(p, off + 1);
    if k < |p| {
      AfterMarkerStable(p, q, off, p[k], k + 1, sawScan);
    }
  }

  lemma HopStable(p: seq<byte>, q: seq<byte>, c: nat, inScan: bool, sawScan: bool)
    requires c <= |p| && p <= q
    ensures var h := NextHop(p, c, inScan, sawScan);
            (h.Stop? ==> Final(h.outcome)) ==> NextHop(q, c, inScan, sawScan) == h
  {
    hide AfterMarker;
    FillStable(p, q, c);
    var off := if inScan then NextFill(p, c) else c;
    if off < |p| {
      hide HopFrom;
      HopFromStable(p, q, off, inScan, sawScan);
    }
  }

  lemma AfterMarkerStable(p: seq<byte>, q: seq<byte>, off: nat, marker: byte, c: nat, sawScan: bool)
    requires c <= |p| && p <= q
    ensures var h := AfterMarker(p, off, marker, c, sawScan);
            (h.Stop? ==> Final(h.outcome)) ==> AfterMarker(q, off, marker, c, sawScan) == h
  {
  }

  lemma {:induction false} WalkStable(p: seq<byte>, q: seq<byte>, c: nat, inScan: bool, sawScan: bool)
    requires c <= |p| && p <= q && Final(Walk(p, c, inScan, sawScan))
    ensures Walk(q, c, inScan, sawScan) == Walk(p, c, inScan, sawScan)
    decreases |p| - c
  {
    hide NextHop;
    HopStable(p, q, c, inScan, sawScan);
    var h := NextHop(p, c, inScan, sawScan);
    if h.Go? {
      WalkStable(p, q, h.cursor, h.inScan, h.sawScan);
    }
  }

  /** An answer other than "ended too early" survives every extension of the input. */
  lemma AnswerStable(p: seq<byte>, tail: seq<byte>)
    requires Final(JpegEnd(p))
    ensures JpegEnd(p + tail) == JpegEnd(p)
  {
    hide Walk;
    var q := p + tail;
    assert p <= q;
    assert q[..2] == p[..2];
    WalkStable(p, q, 2, false, false);
  }

  /** No strict prefix of a JPEG is accepted: it fails with an error that says "ended too early". */
  lemma StrictPrefixIncomplete(s: seq<byte>, n: nat)
    requires IsJpeg(s) && n < |s|
    ensures JpegEnd(s[..n]).Err? && Incomplete(JpegEnd(s[..n]).error)
    ensures !IsJpeg(s[..n])
  {
    hide JpegEnd, IsJpeg;
    var p := s[..n];
    AcceptsExactlyJpegs(s, |s|);
    assert s[..|s|] == s && p + s[n..] == s && p[..n] == p;
    if Final(JpegEnd(p)) {
      AnswerStable(p, s[n..]);
      AcceptsExactlyJpegs(p, |s|);
    }
    AcceptsExactlyJpegs(p, n);
  }

  /** The walk reaches the first scan header on every prefix that extends to it. */
  lemma {:induction false} FirstScan(data: seq<byte>, c: nat, inScan: bool, ts: seq<Token>)
    returns (off: nat, open: bool, fill: nat, body: seq<byte>)
    requires Legal(ts, inScan) && HasScan(ts) && Has(data, c, Flatten(ts, inScan))
    ensures c <= off && WellFormed(ScanHeader(fill, body), open) && Has(data, off, SegmentBytes(fill, SOS, body))
    ensures off + |SegmentBytes(fill, SOS, body)| <= c + |Flatten(ts, inScan)|
    ensures forall n | off <= n <= |data| :: Walk(data[..n], c, inScan, false) == Walk(data[..n], off, open, false)
    decreases |ts|
  {
    hide Encode, Walk;
    var t, rest, mode := ts[0], ts[1..], ScanAfter(ts[0], inScan);
    HasConcat(data, c, Encode(t), Flatten(rest, mode));
    if t.ScanHeader? {
      off, open, fill, body := c, inScan, t.fill, t.body;
      ScanHeaderBytes(t);
    } else {
      var next := c + |Encode(t)|;
      off, open, fill, body := FirstScan(data, next, mode, rest);
      forall n | off <= n <= |data| ensures Walk(data[..n], c, inScan, false) == Walk(data[..n], off, open, false) {
        assert data[..n][c..next] == data[c..next];
        WalkToken(data[..n], c, inScan, false, t);
      }
    }
  }

  lemma ScanHeaderBytes(t: Token)
    requires t.ScanHeader? && WellFormed(t, true)
    ensures Encode(t) == SegmentBytes(t.fill, SOS, t.body)
  {
  }

  /** Cutting a scan header after its code, after its length, and right behind it. */
  lemma CutScanHeader(data: seq<byte>, off: nat, open: bool, fill: nat, body: seq<byte>, end: nat)
    requires WellFormed(ScanHeader(fill, body), open) && Has(data, off, SegmentBytes(fill, SOS, body))
    requires end == off + |SegmentBytes(fill, SOS, body)|
    ensures end == off + fill + 4 + |body| <= |data|
    ensures Walk(data[..off + fill + 2], off, open, false) == Err(TruncatedJpegSegmentLength(off, SOS))
    ensures Walk(data[..off + fill + 4], off, open, false) == Err(TruncatedJpegSegment(off, SOS, |body| + 2, 2))
    ensures Walk(data[..end], off, open, false) == Err(MissingJpegEnd)
  {
    hide NextHop;
    SegmentAt(data, off, fill, SOS, body);
    var k := off + fill + 1;
    var p, q, r := data[..k + 1], data[..k + 3], data[..end];
    ExplainedStop(p, off, k, open, false, Err(TruncatedJpegSegmentLength(off, SOS)));
    ExplainedStop(q, off, k, open, false, Err(TruncatedJpegSegment(off, SOS, |body| + 2, 2)));
    assert r[off..end] == data[off..end];
    HopOverSegment(r, off, open, false, fill, SOS, body);
    ExplainedStop(r, end, end, true, true, Err(MissingJpegEnd));
  }

  ghost predicate CutFails(s: seq<byte>, n: nat, e: FrameParseError) {
    n < |s| && JpegEnd(s[..n]) == Err(e)
  }

  /** Every JPEG has prefixes that fail with each of the five errors: none of the five is superfluous. */
  lemma AllFiveOccur(s: seq<byte>) returns (off: nat, length: nat, a: nat, b: nat, c: nat)
    requires IsJpeg(s)
    ensures CutFails(s, 0, MissingJpegStart)
    ensures CutFails(s, 2, TruncatedJpegMarker(2))
    ensures CutFails(s, a, TruncatedJpegSegmentLength(off, SOS))
    ensures CutFails(s, b, TruncatedJpegSegment(off, SOS, length, 2))
    ensures CutFails(s, c, MissingJpegEnd)
  {
    hide Flatten, MarkerBytes, NextHop, SegmentBytes;
    var ts: seq<Token>, fill': nat :| Legal(ts, false) && HasScan(ts) && s == Image(ts, fill');
    assert Has(s, 0, s);
    ImageParts(s, ts, fill');
    var open, fill, body;
    off, open, fill, body := FirstScan(s, 2, false, ts);
    hide Walk;
    a, b, c := off + fill + 2, off + fill + 4, off + |SegmentBytes(fill, SOS, body)|;
    length := |body| + 2;
    CutScanHeader(s, off, open, fill, body, c);
    assert forall n | 2 <= n <= |s| :: Has(s[..n], 0, Start()) by {
      forall n | 2 <= n <= |s| ensures Has(s[..n], 0, Start()) {
        assert s[..n][0..2] == s[0..2];
      }
    }
    ExplainedStop(s[..2], 2, 2, false, false, Err(TruncatedJpegMarker(2)));
    StopWalks(s[..2], 2, false, false);
  }

  lemma StopWalks(data: seq<byte>, c: nat, inScan: bool, sawScan: bool)
    requires c <= |data| && NextHop(data, c, inScan, sawScan).Stop?
    ensures Walk(data, c, inScan, sawScan) == NextHop(data, c, inScan, sawScan).outcome
  {
  }

  // ---------- The grammar is unambiguous ----------

  lemma MarkerDetermined(data: seq<byte>, c: nat, f: nat, a: byte, g: nat, b: byte)
    requires a != FILL && b != FILL && Has(data, c, MarkerBytes(f, a)) && Has(data, c, MarkerBytes(g, b))
    ensures f == g && a == b
  {
    MarkerBytesAt(data, c, f, a);
    MarkerBytesAt(data, c, g, b);
    FillEnd(data, c, c + f + 1);
    FillEnd(data, c, c + g + 1);
  }

  /** The fill count and code of a token that starts with a marker. */
  function FillOf(t: Token): (n: nat)
    requires !t.Plain?
  {
    t.fill
  }

  function CodeOf(t: Token): (code: byte)
    requires !t.Plain?
  {
    if t.Escape? then t.code else if t.Segment? then t.marker else SOS
  }

  lemma TokenStartsWithMarker(data: seq<byte>, c: nat, inScan: bool, t: Token)
    requires !t.Plain? && WellFormed(t, inScan) && Has(data, c, Encode(t))
    ensures Has(data, c, MarkerBytes(FillOf(t), CodeOf(t))) && data[c] == FILL
    ensures CodeOf(t) != FILL && CodeOf(t) != EOI && (t.Escape? <==> ContinuesScan(CodeOf(t)))
  {
    var marker := MarkerBytes(FillOf(t), CodeOf(t));
    if !t.Escape? {
      HasConcat(data, c, marker + U16Be(|t.body| + 2), t.body);
      HasConcat(data, c, marker, U16Be(|t.body| + 2));
    }
    MarkerBytesAt(data, c, FillOf(t), CodeOf(t));
  }

  lemma BodyDetermined(data: seq<byte>, c: nat, fill: nat, marker: byte, body: seq<byte>, body': seq<byte>)
    requires |body| + 2 <= 0xffff && |body'| + 2 <= 0xffff
    requires Has(data, c, SegmentBytes(fill, marker, body)) && Has(data, c, SegmentBytes(fill, marker, body'))
    ensures body == body'
  {
    SegmentAt(data, c, fill, marker, body);
    SegmentAt(data, c, fill, marker, body');
    HasConcat(data, c, MarkerBytes(fill, marker) + U16Be(|body| + 2), body);
    HasConcat(data, c, MarkerBytes(fill, marker) + U16Be(|body'| + 2), body');
  }

  lemma TokenDetermined(data: seq<byte>, c: nat, inScan: bool, t: Token, u: Token)
    requires WellFormed(t, inScan) && WellFormed(u, inScan) && Has(data, c, Encode(t)) && Has(data, c, Encode(u))
    ensures t == u
  {
    hide MarkerBytes, ContinuesScan;
    if t.Plain? || u.Plain? {
      assert t.Plain? ==> data[c..c + 1][0] == t.value;
      assert u.Plain? ==> data[c..c + 1][0] == u.value;
      if !t.Plain? {
        TokenStartsWithMarker(data, c, inScan, t);
      } else if !u.Plain? {
        TokenStartsWithMarker(data, c, inScan, u);
      }
    } else {
      TokenStartsWithMarker(data, c, inScan, t);
      TokenStartsWithMarker(data, c, inScan, u);
      MarkerDetermined(data, c, FillOf(t), CodeOf(t), FillOf(u), CodeOf(u));
      if !t.Escape? {
        BodyDetermined(data, c, FillOf(t), CodeOf(t), t.body, u.body);
      }
    }
  }

  /** No token can start where the end marker stands. */
  lemma TokenIsNotEnd(data: seq<byte>, c: nat, inScan: bool, t: Token, fill: nat)
    requires WellFormed(t, inScan) && Has(data, c, Encode(t))
    ensures !Has(data, c, MarkerBytes(fill, EOI))
  {
    assert t.Plain? ==> data[c..c + 1][0] == t.value;
    if Has(data, c, MarkerBytes(fill, EOI)) {
      MarkerBytesAt(data, c, fill, EOI);
      if !t.Plain? {
        TokenStartsWithMarker(data, c, inScan, t);
        MarkerDetermined(data, c, FillOf(t), CodeOf(t), fill, EOI);
      }
    }
  }

  /** The tokens `ts` and then an end marker with `fill` fill bytes stand at `c`. */
  ghost predicate Closed(data: seq<byte>, c: nat, inScan: bool, ts: seq<Token>, fill: nat) {
    && Legal(ts, inScan)
    && Has(data, c, Flatten(ts, inScan))
    && Has(data, c + |Flatten(ts, inScan)|, MarkerBytes(fill, EOI))
  }

  lemma ClosedTail(data: seq<byte>, c: nat, inScan: bool, ts: seq<Token>, fill: nat)
    requires Closed(data, c, inScan, ts, fill)
    ensures ts == [] ==> Has(data, c, MarkerBytes(fill, EOI))
    ensures ts != [] ==> && WellFormed(ts[0], inScan) && Has(data, c, Encode(ts[0]))
                         && Closed(data, c + |Encode(ts[0])|, ScanAfter(ts[0], inScan), ts[1..], fill)
  {
    hide Encode, MarkerBytes;
    if ts != [] {
      HasConcat(data, c, Encode(ts[0]), Flatten(ts[1..], ScanAfter(ts[0], inScan)));
    }
  }

  lemma {:induction false} TokensDetermined(data: seq<byte>, c: nat, inScan: bool, ts: seq<Token>, us: seq<Token>, f: nat, g: nat)
    requires Closed(data, c, inScan, ts, f) && Closed(data, c, inScan, us, g)
    ensures ts == us && f == g
    decreases |ts|
  {
    hide Closed, Encode, MarkerBytes, Has;
    ClosedTail(data, c, inScan, ts, f);
    ClosedTail(data, c, inScan, us, g);
    if ts == [] && us == [] {
      MarkerDetermined(data, c, f, EOI, g, EOI);
    } else if ts == [] {
      TokenIsNotEnd(data, c, inScan, us[0], f);
    } else if us == [] {
      TokenIsNotEnd(data, c, inScan, ts[0], g);
    } else {
      TokenDetermined(data, c, inScan, ts[0], us[0]);
      TokensDetermined(data, c + |Encode(ts[0])|, ScanAfter(ts[0], inScan), ts[1..], us[1..], f, g);
      assert ts == [ts[0]] + ts[1..] && us == [us[0]] + us[1..];
    }
  }

  /** An image has exactly one derivation, fill bytes included. */
  lemma DerivationUnique(ts: seq<Token>, us: seq<Token>, f: nat, g: nat)
    requires Legal(ts, false) && Legal(us, false) && Image(ts, f) == Image(us, g)
    ensures ts == us && f == g
  {
    hide Image, MarkerBytes, Flatten;
    var data := Image(ts, f);
    assert Has(data, 0, Image(ts, f)) && Has(data, 0, Image(us, g));
    ImageParts(data, ts, f);
    ImageParts(data, us, g);
    TokensDetermined(data, 2, false, ts, us, f, g);
  }

  lemma ImageParts(data: seq<byte>, ts: seq<Token>, fill: nat)
    requires Legal(ts, false) && Has(data, 0, Image(ts, fill))
    ensures Has(data, 0, Start())
    ensures Has(data, 2, Flatten(ts, false)) && Has(data, 2 + |Flatten(ts, false)|, MarkerBytes(fill, EOI))
  {
    hide MarkerBytes, Flatten;
    HasConcat(data, 0, Start() + Flatten(ts, false), MarkerBytes(fill, EOI));
    HasConcat(data, 0, Start(), Flatten(ts, false));
  }
}
