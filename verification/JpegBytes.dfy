/**
 The accepted JPEG language once more, on the bytes alone and with every code written out, and what
 the parser answers at each code.
 */
module JpegBytes {
  import opened Wire
  import opened JpegSyntax
  import opened FrameErrors
  import opened JpegWalker
  import opened JpegTheorems

  /**
   `bs` completes an image, with entropy-coded data open or not and a scan seen or not. Inside
   entropy-coded data 00 and the restart codes D0 to D7 go on; D9 ends the image; 00, 01 and D0 to D8
   are refused elsewhere; every other code opens a segment, DA a scan header of length 6 + 2 * Ns.
   */
  predicate Completes(bs: seq<byte>, open: bool, saw: bool)
    decreases |bs|
  {
    if open && bs != [] && bs[0] != 0xff then Completes(bs[1..], true, saw)
    else
      && |bs| >= 2 && bs[0] == 0xff
      && var code := bs[1];
         if code == 0xff then Completes(bs[1..], open, saw)
         else if open && (code == 0x00 || 0xd0 <= code <= 0xd7) then Completes(bs[2..], true, saw)
         else if code == 0xd9 then saw && |bs| == 2
         else
           && code != 0x00 && code != 0x01 && !(0xd0 <= code <= 0xd8)
           && |bs| >= 4
           && var length := 256 * bs[2] as int + bs[3] as int;
              && 2 <= length <= |bs| - 2
              && (code == 0xda ==> length >= 3 && bs[4] >= 1 && length == 6 + 2 * bs[4] as int)
              && Completes(bs[2 + length..], code == 0xda, saw || code == 0xda)
  }

  // ---------- The walk and the bytes ----------

  predicate SameButOffsets(h: Hop, h': Hop) {
    if h'.Go? then h == h' else h.Stop? && if h'.outcome.Ok? then h == h' else h.outcome.Err?
  }

  lemma OffsetOnlyInErrors(data: seq<byte>, off: nat, off': nat, code: byte, c: nat, saw: bool)
    requires c <= |data|
    ensures SameButOffsets(AfterMarker(data, off, code, c, saw), AfterMarker(data, off', code, c, saw))
  {
  }

  /** One fill byte more or less changes offsets in errors only. */
  lemma HopPastFill(data: seq<byte>, c: nat, open: bool, saw: bool)
    requires c + 1 < |data| && data[c] == FILL && data[c + 1] == FILL
    ensures SameButOffsets(NextHop(data, c, open, saw), NextHop(data, c + 1, open, saw))
  {
    hide AfterMarker;
    var k := SkipFill(data, c + 2);
    assert SkipFill(data, c + 1) == k;
    FillStart(data, c, c);
    FillStart(data, c + 1, c + 1);
    if k < |data| {
      OffsetOnlyInErrors(data, c, c + 1, data[k], k + 1, saw);
    }
  }

  lemma HopAtCode(data: seq<byte>, c: nat, open: bool, saw: bool)
    requires c + 1 < |data| && data[c] == FILL && data[c + 1] != FILL
    ensures NextHop(data, c, open, saw)
            == if open && ContinuesScan(data[c + 1]) then Go(c + 2, true, saw)
               else AfterMarker(data, c, data[c + 1], c + 2, saw)
  {
    FillEnd(data, c + 1, c + 1);
    FillStart(data, c, c);
  }

  lemma WalkResumes(data: seq<byte>, c: nat, open: bool, saw: bool)
    requires c <= |data|
    ensures Walk(data, c, open, saw) == Resume(data, NextHop(data, c, open, saw))
  {
  }

  /** What is at a code other than fill decides in the same way on the bytes that are left. */
  lemma CodeDecides(data: seq<byte>, c: nat, open: bool, saw: bool, h: Hop)
    requires c + 1 < |data| && data[c] == 0xff && data[c + 1] != 0xff
    requires h == if open && ContinuesScan(data[c + 1]) then Go(c + 2, true, saw)
                  else AfterMarker(data, c, data[c + 1], c + 2, saw)
    ensures Completes(data[c..], open, saw)
            <==> match h
                 case Stop(outcome) => outcome == Ok(|data|)
                 case Go(m, open', saw') => Completes(data[m..], open', saw')
  {
    var bs := data[c..];
    assert bs[0] == 0xff && bs[1] == data[c + 1];
    if |bs| >= 4 {
      var length := 256 * data[c + 2] as int + data[c + 3] as int;
      assert bs[2] == data[c + 2] && bs[3] == data[c + 3];
      if 2 <= length <= |bs| - 2 {
        assert bs[2 + length..] == data[c + 2 + length..];
      }
    }
    assert bs[2..] == data[c + 2..];
  }

  lemma {:induction false} WalkIsCompletion(data: seq<byte>, c: nat, open: bool, saw: bool)
    requires c <= |data|
    ensures Walk(data, c, open, saw) == Ok(|data|) <==> Completes(data[c..], open, saw)
    decreases |data| - c
  {
    if c + 1 < |data| && data[c] == FILL && data[c + 1] != FILL {
      hide Completes, AfterMarker, HopFrom;
      WalkResumes(data, c, open, saw);
      HopAtCode(data, c, open, saw);
      var h := NextHop(data, c, open, saw);
      CodeDecides(data, c, open, saw, h);
      if h.Go? {
        WalkIsCompletion(data, h.cursor, h.inScan, h.sawScan);
      }
      hide Walk, NextHop;
    } else if c < |data| && open && data[c] != FILL {
      hide NextHop;
      HopPastPlain(data, c, saw);
      WalkIsCompletion(data, c + 1, open, saw);
      assert data[c..][1..] == data[c + 1..];
    } else if c + 1 < |data| && data[c] == FILL {
      hide NextHop;
      HopPastFill(data, c, open, saw);
      WalkIsCompletion(data, c + 1, open, saw);
      assert data[c..][1..] == data[c + 1..];
    }
  }

  // ---------- Main results ----------

  /** After the tokens `ts` an image is completed exactly by the bytes that complete it. */
  lemma CompletionExact(ts: seq<Token>, b: seq<byte>)
    requires Legal(ts, false)
    ensures IsJpeg(Start() + Flatten(ts, false) + b) <==> Completes(b, ScanOpen(ts, false), HasScan(ts))
  {
    var a := Start() + Flatten(ts, false);
    var data := a + b;
    AtPosition(ts, b);
    AcceptsExactlyJpegs(data, |data|);
    assert data[..|data|] == data && data[|a|..] == b;
    hide JpegEnd, IsJpeg, Completes;
    WalkIsCompletion(data, |a|, ScanOpen(ts, false), HasScan(ts));
  }

  /** After the tokens `ts` the parser's answer is that of the walk from there. */
  lemma AtPosition(ts: seq<Token>, b: seq<byte>)
    requires Legal(ts, false)
    ensures var a := Start() + Flatten(ts, false);
            JpegEnd(a + b) == Walk(a + b, |a|, ScanOpen(ts, false), HasScan(ts))
  {
    hide Walk, Flatten;
    var a := Start() + Flatten(ts, false);
    assert Has(a + b, 0, a) by {
      assert (a + b)[0..|a|] == a;
    }
    HasConcat(a + b, 0, Start(), Flatten(ts, false));
    WalkTokens(a + b, 2, false, false, ts);
  }

  lemma JpegStarts(bs: seq<byte>)
    requires IsJpeg(bs)
    ensures |bs| >= 2 && bs[0] == 0xff && bs[1] == 0xd8
  {
    hide Flatten, MarkerBytes, Legal, HasScan;
    var ts: seq<Token>, fill: nat :| Legal(ts, false) && HasScan(ts) && bs == Image(ts, fill);
    assert bs == [0xff, 0xd8] + (Flatten(ts, false) + MarkerBytes(fill, EOI));
  }

  /** The accepted language, on the bytes: FF D8, then a completion. */
  lemma BytesExact(bs: seq<byte>)
    ensures IsJpeg(bs) <==> |bs| >= 2 && bs[0] == 0xff && bs[1] == 0xd8 && Completes(bs[2..], false, false)
  {
    hide Completes;
    hide IsJpeg;
    if IsJpeg(bs) {
      JpegStarts(bs);
    }
    if |bs| >= 2 && bs[0] == 0xff && bs[1] == 0xd8 {
      assert bs == Start() + Flatten([], false) + bs[2..];
      CompletionExact([], bs[2..]);
    }
  }

  /** `a` ends inside the entropy-coded data of an image. */
  ghost predicate OpenAfter(a: seq<byte>) {
    exists ts: seq<Token> :: Legal(ts, false) && ScanOpen(ts, false) && a == Start() + Flatten(ts, false)
  }

  lemma {:induction false} OpenHasScan(ts: seq<Token>, inScan: bool)
    requires ScanOpen(ts, inScan)
    ensures inScan || HasScan(ts)
    decreases |ts|
  {
    if ts != [] {
      OpenHasScan(ts[1..], ScanAfter(ts[0], inScan));
    }
  }

  lemma OpenCompletes(a: seq<byte>, b: seq<byte>)
    requires OpenAfter(a)
    ensures IsJpeg(a + b) <==> Completes(b, true, true)
  {
    hide IsJpeg, Completes;
    var ts: seq<Token> :| Legal(ts, false) && ScanOpen(ts, false) && a == Start() + Flatten(ts, false);
    OpenHasScan(ts, false);
    CompletionExact(ts, b);
  }

  /**
   A restart marker, a stuffed byte or a plain byte may stand anywhere in entropy-coded data: putting
   it in or taking it out never makes or breaks an image.
   */
  lemma EntropyInsertion(a: seq<byte>, b: seq<byte>, m: nat, v: byte)
    requires OpenAfter(a) && m < 8 && v != 0xff
    ensures IsJpeg(a + [0xff, 0xd0 + m] + b) <==> IsJpeg(a + b)
    ensures IsJpeg(a + [0xff, 0x00] + b) <==> IsJpeg(a + b)
    ensures IsJpeg(a + [v] + b) <==> IsJpeg(a + b)
  {
    hide IsJpeg, OpenAfter;
    var code: byte := 0xd0 + m;
    assert a + [0xff, code] + b == a + ([0xff, code] + b);
    assert a + [0xff, 0x00] + b == a + ([0xff, 0x00] + b);
    assert a + [v] + b == a + ([v] + b);
    OpenCompletes(a, b);
    OpenCompletes(a, [0xff, code] + b);
    OpenCompletes(a, [0xff, 0x00] + b);
    OpenCompletes(a, [v] + b);
    assert ([0xff, code] + b)[2..] == b && ([0xff, 0x00] + b)[2..] == b && ([v] + b)[1..] == b;
  }

  /** FF and a code other than fill go on with entropy-coded data exactly for 00 and D0 to D7. */
  lemma EntropyGoesOnExactly(a: seq<byte>, code: byte)
    requires OpenAfter(a) && code != 0xff
    ensures OpenAfter(a + [0xff, code]) <==> code == 0x00 || 0xd0 <= code <= 0xd7
  {
    if code == 0x00 || 0xd0 <= code <= 0xd7 {
      var ts: seq<Token> :| Legal(ts, false) && ScanOpen(ts, false) && a == Start() + Flatten(ts, false);
      EscapeAppends(ts, false, code);
      assert a + [0xff, code] == Start() + Flatten(ts + [Escape(0, code)], false);
    } else {
      hide OpenAfter, IsJpeg;
      var end: seq<byte> := [0xff, 0xd9];
      assert a + [0xff, code] + end == a + ([0xff, code] + end);
      EndAlone(code);
      hide Completes;
      OpenCompletes(a, [0xff, code] + end);
      if OpenAfter(a + [0xff, code]) {
        OpenCompletes(a + [0xff, code], end);
      }
    }
  }

  lemma EndAlone(code: byte)
    requires code != 0x00 && code != 0xff && !(0xd0 <= code <= 0xd7)
    ensures Completes([0xff, 0xd9], true, true)
    ensures !Completes([0xff, code] + [0xff, 0xd9], true, true)
  {
    var bs := [0xff, code] + [0xff, 0xd9];
    assert |bs| == 4 && bs[0] == 0xff && bs[1] == code && bs[2] == 0xff && bs[3] == 0xd9;
  }

  lemma EscapeBytes(code: byte)
    requires ContinuesScan(code)
    ensures Encode(Escape(0, code)) == [0xff, code]
  {
  }

  lemma ConsTokens(t: Token, ts: seq<Token>, us: seq<Token>, inScan: bool)
    requires us != [] && us[0] == t && us[1..] == ts
    ensures Legal(us, inScan) <==> WellFormed(t, inScan) && Legal(ts, ScanAfter(t, inScan))
    ensures Legal(us, inScan) ==> Flatten(us, inScan) == Encode(t) + Flatten(ts, ScanAfter(t, inScan))
    ensures ScanOpen(us, inScan) == ScanOpen(ts, ScanAfter(t, inScan))
  {
    hide Encode, WellFormed;
  }

  lemma NoTokens(inScan: bool)
    ensures Legal([], inScan) && Flatten([], inScan) == [] && ScanOpen([], inScan) == inScan
  {
  }

  lemma {:induction false} EscapeAppends(ts: seq<Token>, inScan: bool, code: byte)
    requires Legal(ts, inScan) && ScanOpen(ts, inScan) && ContinuesScan(code)
    ensures var us := ts + [Escape(0, code)];
            && Legal(us, inScan) && ScanOpen(us, inScan)
            && Flatten(us, inScan) == Flatten(ts, inScan) + [0xff, code]
    decreases |ts|
  {
    hide Legal, Flatten, ScanOpen, Encode;
    var t := Escape(0, code);
    var us := ts + [t];
    EscapeBytes(code);
    NoTokens(inScan);
    if ts == [] {
      ConsTokens(t, [], us, inScan);
    } else {
      var first, rest := ts[0], ts[1..];
      assert us[1..] == rest + [t];
      ConsTokens(first, rest, ts, inScan);
      ConsTokens(first, rest + [t], us, inScan);
      EscapeAppends(rest, ScanAfter(first, inScan), code);
    }
  }

  /**
   What the answer `r` has to be when FF and a code stand at `off`, outside entropy-coded data or
   ending it, with the bytes `b` behind: `length` is the field there, its high byte first.
   */
  predicate AnswerIs(off: nat, code: byte, b: seq<byte>, saw: bool, r: Outcome) {
    if code == 0xd9 then r == if saw then Ok(off + 2) else Err(JpegEndBeforeScan(off))
    else if code == 0x00 || code == 0x01 || 0xd0 <= code <= 0xd8 then r == Err(UnexpectedJpegMarker(off, code))
    else if |b| < 2 then r == Err(TruncatedJpegSegmentLength(off, code))
    else
      var length := 256 * b[0] as int + b[1] as int;
      && (length < 2 ==> r == Err(InvalidJpegSegmentLength(off, code, length)))
      && (length >= 2 && length > |b| ==> r == Err(TruncatedJpegSegment(off, code, length, |b|)))
      && (code == 0xda && length == 2 <= |b| ==> r == Err(InvalidJpegScanHeader(off, 2, 0)))
      && (code == 0xda && 3 <= length <= |b| && (b[2] == 0 || length != 6 + 2 * b[2] as int) ==>
            r == Err(InvalidJpegScanHeader(off, length, b[2])))
  }

  lemma CodeAnswers(data: seq<byte>, off: nat, code: byte, b: seq<byte>, saw: bool)
    requires off + 2 <= |data| && b == data[off + 2..]
    ensures AnswerIs(off, code, b, saw, Resume(data, AfterMarker(data, off, code, off + 2, saw)))
  {
    hide Walk;
    assert |b| >= 2 ==> b[0] == data[off + 2] && b[1] == data[off + 3];
    assert |b| >= 3 ==> b[2] == data[off + 4];
  }

  /** The parser's answer at FF and a code that does not go on with entropy-coded data, after any tokens. */
  lemma AnswerAtCode(ts: seq<Token>, code: byte, b: seq<byte>, a: seq<byte>)
    requires Legal(ts, false) && code != 0xff && a == Start() + Flatten(ts, false)
    requires ScanOpen(ts, false) ==> code != 0x00 && !(0xd0 <= code <= 0xd7)
    ensures AnswerIs(|a|, code, b, HasScan(ts), JpegEnd(a + [0xff, code] + b))
  {
    hide NextHop, JpegEnd, Flatten, Walk, AfterMarker, AnswerIs, Legal;
    var rest := [0xff, code] + b;
    var data := a + rest;
    assert a + [0xff, code] + b == data;
    assert data[|a|] == 0xff && data[|a| + 1] == code && data[|a| + 2..] == b;
    AtPosition(ts, rest);
    HopAtCode(data, |a|, ScanOpen(ts, false), HasScan(ts));
    WalkResumes(data, |a|, ScanOpen(ts, false), HasScan(ts));
    CodeAnswers(data, |a|, code, b, HasScan(ts));
  }
}
