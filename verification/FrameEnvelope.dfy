/** The SM768 frame packet: 48-byte header, JPEG, decoder metadata, zero padding. */
module FrameEnvelope {
  import opened Wire
  import opened Arith
  import opened FrameErrors
  import opened JpegSyntax
  import opened JpegWalker
  import opened JpegTheorems

  /** "smifalconsta" */
  const WIRE_MAGIC: seq<byte> := [0x73, 0x6d, 0x69, 0x66, 0x61, 0x6c, 0x63, 0x6f, 0x6e, 0x73, 0x74, 0x61]
  const HEADER_SIZE: nat := 48
  const FRAME_SIGNATURE: u32 := 0xa000_0002
  const FRAME_TYPE: byte := 0x04
  const FRAME_SUBTYPE: byte := 0x01
  const JPEG_DECODER_METADATA_SIZE: nat := 0x5000
  const HIGH_SPEED_MAX_PACKET_SIZE: nat := 512
  const SUPER_SPEED_MAX_PACKET_SIZE: nat := 1024

  datatype Envelope = Envelope(
    sequence: byte,
    unclassifiedByte23: byte,
    jpeg: seq<byte>,
    decoderMetadata: seq<byte>,
    padding: seq<byte>
  )

  type Parsed = Result<Envelope, FrameParseError>

  predicate SupportedSpeed(maxPacketSize: nat) {
    maxPacketSize == HIGH_SPEED_MAX_PACKET_SIZE || maxPacketSize == SUPER_SPEED_MAX_PACKET_SIZE
  }

  // ---------- Parser ----------

  function AlignPayloadLength(contentLength: nat, maxPacketSize: nat): (r: Result<nat, FrameParseError>)
    requires maxPacketSize > 0
  {
    var remainder := contentLength % maxPacketSize;
    if remainder == 0 then Ok(contentLength)
    else CheckedAdd(contentLength, maxPacketSize - remainder, LengthOverflow)
  }

  /** Position of the first byte that is not zero, or the length. */
  function FirstNonZero(padding: seq<byte>): (i: nat)
    ensures i <= |padding|
    ensures forall j | 0 <= j < i :: padding[j] == 0
    ensures i < |padding| ==> padding[i] != 0
  {
    if padding == [] || padding[0] != 0 then 0
    else 1 + FirstNonZero(padding[1..])
  }

  function ParseFrameEnvelope(packet: Slice, maxPacketSize: nat): (r: Parsed) {
    if !SupportedSpeed(maxPacketSize) then
      Err(InvalidMaxPacketSize(maxPacketSize))
    else if |packet| < HEADER_SIZE then
      Err(TooShort(|packet|, HEADER_SIZE))
    else if packet[..|WIRE_MAGIC|] != WIRE_MAGIC then
      Err(BadMagic)
    else
      var declared := ReadU32Le(packet, 12);
      if declared > USIZE_MAX then
        Err(DeclaredLengthDoesNotFit(declared))
      else if declared != |packet| then
        Err(DeclaredLengthMismatch(declared, |packet|))
      else
        var signature := ReadU32Le(packet, 16);
        if signature != FRAME_SIGNATURE then
          Err(InvalidSignature(signature))
        else if packet[20] != FRAME_TYPE || packet[21] != FRAME_SUBTYPE then
          Err(InvalidFrameType(packet[20], packet[21]))
        else
          ParsePayload(packet, maxPacketSize)
  }

  /** The checks after the header. */
  function ParsePayload(packet: Slice, maxPacketSize: nat): (r: Parsed)
    requires HEADER_SIZE <= |packet| && maxPacketSize > 0
  {
    var jpegLength :- JpegEnd(packet[HEADER_SIZE..]);
    var jpegEnd :- CheckedAdd(HEADER_SIZE, jpegLength, LengthOverflow);
    var decoderEnd :- CheckedAdd(jpegEnd, JPEG_DECODER_METADATA_SIZE, LengthOverflow);
    if decoderEnd > |packet| then
      Err(TruncatedDecoderMetadata(if jpegEnd <= |packet| then |packet| - jpegEnd else 0, JPEG_DECODER_METADATA_SIZE))
    else
      var padding := packet[decoderEnd..];
      if |padding| >= maxPacketSize then
        Err(PaddingTooLong(|padding|, maxPacketSize - 1))
      else
        var nonZero := FirstNonZero(padding);
        if nonZero < |padding| then
          Err(NonZeroPadding(nonZero, padding[nonZero]))
        else
          var contentLength :- CheckedAdd(jpegLength, JPEG_DECODER_METADATA_SIZE, LengthOverflow);
          var expected :- AlignPayloadLength(contentLength, maxPacketSize);
          if |packet| - HEADER_SIZE != expected then
            Err(UnalignedPayload(|packet| - HEADER_SIZE, expected, maxPacketSize))
          else
            Ok(Envelope(packet[22], packet[23], packet[HEADER_SIZE..jpegEnd], packet[jpegEnd..decoderEnd], padding))
  }

  // ---------- Layout ----------

  function Header(total: u32, sequence: byte, byte23: byte, opaqueBytes: seq<byte>): (bs: seq<byte>)
    ensures |bs| == 24 + |opaqueBytes|
  {
    WIRE_MAGIC + U32Le(total) + U32Le(FRAME_SIGNATURE) + [FRAME_TYPE, FRAME_SUBTYPE, sequence, byte23] + opaqueBytes
  }

  /** The padding that brings `content` to the next multiple of `maxPacketSize`. */
  function PaddingLength(content: nat, maxPacketSize: nat): (p: nat)
    requires maxPacketSize > 0
    ensures p < maxPacketSize
  {
    if content % maxPacketSize == 0 then 0 else maxPacketSize - content % maxPacketSize
  }

  function TotalLength(jpegLength: nat, maxPacketSize: nat): (n: nat)
    requires maxPacketSize > 0
  {
    var content := jpegLength + JPEG_DECODER_METADATA_SIZE;
    HEADER_SIZE + content + PaddingLength(content, maxPacketSize)
  }

  /** `env` is a frame for this speed: a JPEG, full metadata and minimal zero padding. */
  ghost predicate ValidFrame(env: Envelope, maxPacketSize: nat) {
    && SupportedSpeed(maxPacketSize)
    && IsJpeg(env.jpeg)
    && |env.decoderMetadata| == JPEG_DECODER_METADATA_SIZE
    && env.padding == Zeros(PaddingLength(|env.jpeg| + JPEG_DECODER_METADATA_SIZE, maxPacketSize))
    && TotalLength(|env.jpeg|, maxPacketSize) <= 0xffff_ffff
  }

  /** The packet with the given parts; the parser never looks at the `opaqueBytes` 24 to 47. */
  function Packet(env: Envelope, opaqueBytes: seq<byte>): (bs: seq<byte>)
    requires |opaqueBytes| == 24
    requires HEADER_SIZE + |env.jpeg| + |env.decoderMetadata| + |env.padding| <= 0xffff_ffff
  {
    var total := HEADER_SIZE + |env.jpeg| + |env.decoderMetadata| + |env.padding|;
    Header(total, env.sequence, env.unclassifiedByte23, opaqueBytes) + env.jpeg + env.decoderMetadata + env.padding
  }

  /** `packet` is the frame `env` for this speed, behind a header with some opaque bytes 24 to 47. */
  ghost predicate IsFrame(packet: Slice, maxPacketSize: nat, env: Envelope) {
    ValidFrame(env, maxPacketSize) && |packet| >= HEADER_SIZE && packet == Packet(env, packet[24..48])
  }

  /** The frame builder: minimal padding, zero in every byte whose meaning is not known. */
  function BuildFrame(jpeg: seq<byte>, metadata: seq<byte>, sequence: byte, maxPacketSize: nat): (packet: seq<byte>)
    requires SupportedSpeed(maxPacketSize) && |metadata| == JPEG_DECODER_METADATA_SIZE
    requires TotalLength(|jpeg|, maxPacketSize) <= 0xffff_ffff
    ensures |packet| == TotalLength(|jpeg|, maxPacketSize)
  {
    var padding := Zeros(PaddingLength(|jpeg| + |metadata|, maxPacketSize));
    Packet(Envelope(sequence, 0, jpeg, metadata, padding), Zeros(24))
  }

  // ---------- Alignment ----------

  /** Alignment finds the least multiple that holds the content, and fails only past usize. */
  lemma AlignmentIsLeast(content: nat, maxPacketSize: nat, n: nat)
    requires maxPacketSize > 0 && content <= USIZE_MAX
    requires content <= n && n % maxPacketSize == 0
    ensures match AlignPayloadLength(content, maxPacketSize)
            case Ok(a) => a <= n && content <= a && a % maxPacketSize == 0 && a == content + PaddingLength(content, maxPacketSize)
            case Err(e) => e == LengthOverflow && n > USIZE_MAX
  {
    var m := maxPacketSize;
    var q, r := content / m, content % m;
    var k := n / m;
    assert content == m * q + r && n == m * k;
    if r > 0 {
      var up := content + (m - r);
      assert up == m * (q + 1);
      MultipleMod(m, q + 1);
      if k <= q {
        MulMonotone(m, k, q);
        assert false;
      }
      MulMonotone(m, q + 1, k);
    }
  }

  // ---------- Round trips ----------

  lemma HeaderExact(packet: seq<byte>, total: u32, sequence: byte, byte23: byte, opaqueBytes: seq<byte>)
    requires |packet| >= HEADER_SIZE && |opaqueBytes| == 24
    ensures Has(packet, 0, Header(total, sequence, byte23, opaqueBytes))
            <==> && packet[..12] == WIRE_MAGIC && ReadU32Le(packet, 12) == total
                 && ReadU32Le(packet, 16) == FRAME_SIGNATURE
                 && packet[20] == FRAME_TYPE && packet[21] == FRAME_SUBTYPE
                 && packet[22] == sequence && packet[23] == byte23 && packet[24..48] == opaqueBytes
  {
    var length, signature := U32Le(total), U32Le(FRAME_SIGNATURE);
    var kind := [FRAME_TYPE, FRAME_SUBTYPE, sequence, byte23];
    HasConcat(packet, 0, WIRE_MAGIC + length + signature + kind, opaqueBytes);
    HasConcat(packet, 0, WIRE_MAGIC + length + signature, kind);
    HasConcat(packet, 0, WIRE_MAGIC + length, signature);
    HasConcat(packet, 0, WIRE_MAGIC, length);
    U32LeUnique(packet[12..16], total);
    U32LeUnique(packet[16..20], FRAME_SIGNATURE);
    assert packet[20..24] == kind <==> forall i | 0 <= i < 4 :: packet[20..24][i] == kind[i];
    assert forall i | 0 <= i < 4 :: packet[20..24][i] == packet[20 + i];
  }

  /** The checks after the header accept exactly the payloads of valid frames. */
  lemma PayloadExact(packet: Slice, maxPacketSize: nat, env: Envelope)
    requires HEADER_SIZE <= |packet| <= 0xffff_ffff && SupportedSpeed(maxPacketSize)
    ensures ParsePayload(packet, maxPacketSize) == Ok(env)
            <==> && ValidFrame(env, maxPacketSize)
                 && packet[HEADER_SIZE..] == env.jpeg + env.decoderMetadata + env.padding
                 && env.sequence == packet[22] && env.unclassifiedByte23 == packet[23]
  {
    hide JpegEnd, IsJpeg;
    if ParsePayload(packet, maxPacketSize) == Ok(env) {
      PayloadSound(packet, maxPacketSize, env);
    } else if && ValidFrame(env, maxPacketSize)
              && packet[HEADER_SIZE..] == env.jpeg + env.decoderMetadata + env.padding
              && env.sequence == packet[22] && env.unclassifiedByte23 == packet[23] {
      PayloadComplete(packet, maxPacketSize, env);
    }
  }

  lemma PayloadSound(packet: Slice, maxPacketSize: nat, env: Envelope)
    requires HEADER_SIZE <= |packet| <= 0xffff_ffff && SupportedSpeed(maxPacketSize)
    requires ParsePayload(packet, maxPacketSize) == Ok(env)
    ensures ValidFrame(env, maxPacketSize)
    ensures packet[HEADER_SIZE..] == env.jpeg + env.decoderMetadata + env.padding
  {
    hide JpegEnd, IsJpeg, FirstNonZero, PaddingLength;
    var payload := packet[HEADER_SIZE..];
    var n := JpegEnd(payload).value;
    hide ParsePayload;
    AcceptsExactlyJpegs(payload, n);
    assert payload == payload[..n] + payload[n..];
    AfterJpeg(packet, maxPacketSize, payload[..n], payload[n..]);
    ZeroPadding(env.padding);
    assert payload[n..] == env.decoderMetadata + env.padding;
  }

  lemma PayloadComplete(packet: Slice, maxPacketSize: nat, env: Envelope)
    requires HEADER_SIZE <= |packet| <= 0xffff_ffff && ValidFrame(env, maxPacketSize)
    requires packet[HEADER_SIZE..] == env.jpeg + env.decoderMetadata + env.padding
    requires env.sequence == packet[22] && env.unclassifiedByte23 == packet[23]
    ensures ParsePayload(packet, maxPacketSize) == Ok(env)
  {
    hide ParsePayload, IsJpeg, FirstNonZero, PaddingLength;
    var tail := env.decoderMetadata + env.padding;
    assert packet[HEADER_SIZE..] == env.jpeg + tail;
    AfterJpeg(packet, maxPacketSize, env.jpeg, tail);
    assert tail[JPEG_DECODER_METADATA_SIZE..] == env.padding && tail[..JPEG_DECODER_METADATA_SIZE] == env.decoderMetadata;
    assert env.padding == Zeros(|env.padding|);
    ZeroPadding(env.padding);
  }

  /**
   Both directions of the envelope: the parser accepts a packet, with the parts `env`, exactly
   when the packet is those parts laid out behind a header with some opaque bytes 24 to 47.
   */
  lemma EnvelopeExact(packet: Slice, maxPacketSize: nat, env: Envelope)
    ensures ParseFrameEnvelope(packet, maxPacketSize) == Ok(env) <==> IsFrame(packet, maxPacketSize, env)
  {
    hide ParsePayload, Header, IsJpeg;
    if SupportedSpeed(maxPacketSize) && HEADER_SIZE <= |packet| <= 0xffff_ffff {
      assert |WIRE_MAGIC| == 12;
      HeaderExact(packet, |packet|, packet[22], packet[23], packet[24..48]);
      PayloadExact(packet, maxPacketSize, env);
      if ValidFrame(env, maxPacketSize) {
        PacketSplit(packet, env);
        HeaderExact(packet, |packet|, env.sequence, env.unclassifiedByte23, packet[24..48]);
      }
    }
  }

  lemma PacketSplit(packet: seq<byte>, env: Envelope)
    requires |packet| >= HEADER_SIZE
    requires HEADER_SIZE + |env.jpeg| + |env.decoderMetadata| + |env.padding| <= 0xffff_ffff
    ensures packet == Packet(env, packet[24..48])
            <==> && |packet| == HEADER_SIZE + |env.jpeg| + |env.decoderMetadata| + |env.padding|
                 && Has(packet, 0, Header(|packet|, env.sequence, env.unclassifiedByte23, packet[24..48]))
                 && packet[HEADER_SIZE..] == env.jpeg + env.decoderMetadata + env.padding
  {
    var total := HEADER_SIZE + |env.jpeg| + |env.decoderMetadata| + |env.padding|;
    var header := Header(total, env.sequence, env.unclassifiedByte23, packet[24..48]);
    var body := env.jpeg + env.decoderMetadata + env.padding;
    assert |header| == HEADER_SIZE;
    assert Packet(env, packet[24..48]) == header + body;
    assert packet == packet[..HEADER_SIZE] + packet[HEADER_SIZE..];
    assert packet == header + body <==> packet[..HEADER_SIZE] == header && packet[HEADER_SIZE..] == body;
  }

  /** A built frame parses back to its parts, at the length the captures show. */
  lemma BuildParses(jpeg: seq<byte>, metadata: seq<byte>, sequence: byte, maxPacketSize: nat)
    requires SupportedSpeed(maxPacketSize) && IsJpeg(jpeg) && |metadata| == JPEG_DECODER_METADATA_SIZE
    requires TotalLength(|jpeg|, maxPacketSize) <= 0xffff_ffff
    ensures var packet := BuildFrame(jpeg, metadata, sequence, maxPacketSize);
            && |packet| == TotalLength(|jpeg|, maxPacketSize)
            && ParseFrameEnvelope(packet, maxPacketSize)
               == Ok(Envelope(sequence, 0, jpeg, metadata, Zeros(PaddingLength(|jpeg| + |metadata|, maxPacketSize))))
  {
    hide ParseFrameEnvelope, Header, IsJpeg;
    var packet := BuildFrame(jpeg, metadata, sequence, maxPacketSize);
    var padding := Zeros(PaddingLength(|jpeg| + |metadata|, maxPacketSize));
    var env := Envelope(sequence, 0, jpeg, metadata, padding);
    HeaderTail(|packet|, sequence, 0, Zeros(24), jpeg + metadata + padding);
    assert packet == Header(|packet|, sequence, 0, Zeros(24)) + (jpeg + metadata + padding);
    EnvelopeExact(packet, maxPacketSize, env);
  }

  lemma HeaderTail(total: u32, sequence: byte, byte23: byte, opaqueBytes: seq<byte>, rest: seq<byte>)
    requires |opaqueBytes| == 24
    ensures (Header(total, sequence, byte23, opaqueBytes) + rest)[24..48] == opaqueBytes
  {
    var known := WIRE_MAGIC + U32Le(total) + U32Le(FRAME_SIGNATURE) + [FRAME_TYPE, FRAME_SUBTYPE, sequence, byte23];
    assert Header(total, sequence, byte23, opaqueBytes) + rest == known + opaqueBytes + rest;
  }

  /** Every field of an accepted packet, byte by byte and at its offset. */
  lemma AcceptedFields(packet: Slice, maxPacketSize: nat, env: Envelope)
    requires ParseFrameEnvelope(packet, maxPacketSize) == Ok(env)
    ensures maxPacketSize == 512 || maxPacketSize == 1024
    ensures var n := |env.jpeg|;
            && 48 + n + 20480 <= |packet| == ReadU32Le(packet, 12)
            && ReadU32Le(packet, 16) == 0xa000_0002 && packet[20] == 0x04 && packet[21] == 0x01
            && env.sequence == packet[22] && env.unclassifiedByte23 == packet[23]
            && env.jpeg == packet[48..48 + n] && env.decoderMetadata == packet[48 + n..48 + n + 20480]
            && env.padding == packet[48 + n + 20480..] && |env.padding| < maxPacketSize
            && (|packet| - 48) % maxPacketSize == 0
  {
    hide ParsePayload;
    EnvelopeExact(packet, maxPacketSize, env);
    hide ParseFrameEnvelope, Header, IsJpeg;
    PacketSplit(packet, env);
    HeaderExact(packet, |packet|, env.sequence, env.unclassifiedByte23, packet[24..48]);
    var payload, n := packet[48..], |env.jpeg|;
    assert payload[..n] == env.jpeg && payload[n..n + 20480] == env.decoderMetadata && payload[n + 20480..] == env.padding;
    hide PaddingLength, Packet;
    AlignedUnique(n + JPEG_DECODER_METADATA_SIZE, maxPacketSize, |packet| - 48);
  }

  /** A packet has at most one division into header, JPEG, metadata and padding, whatever the speed. */
  lemma DivisionUnique(packet: Slice, env: Envelope, env': Envelope, speed: nat, speed': nat)
    requires IsFrame(packet, speed, env) && IsFrame(packet, speed', env')
    ensures env == env'
  {
    hide IsJpeg, JpegEnd;
    var payload := packet[HEADER_SIZE..];
    PacketSplit(packet, env);
    PacketSplit(packet, env');
    HeaderExact(packet, |packet|, env.sequence, env.unclassifiedByte23, packet[24..48]);
    HeaderExact(packet, |packet|, env'.sequence, env'.unclassifiedByte23, packet[24..48]);
    assert payload == env.jpeg + (env.decoderMetadata + env.padding);
    assert payload == env'.jpeg + (env'.decoderMetadata + env'.padding);
    TailIrrelevant(env.jpeg, env.decoderMetadata + env.padding);
    TailIrrelevant(env'.jpeg, env'.decoderMetadata + env'.padding);
    var n := |env.jpeg|;
    assert env.jpeg == payload[..n] == env'.jpeg;
    assert env.decoderMetadata == payload[n..n + JPEG_DECODER_METADATA_SIZE] == env'.decoderMetadata;
    assert env.padding == payload[n + JPEG_DECODER_METADATA_SIZE..] == env'.padding;
  }

  /** `n` is the least multiple of `maxPacketSize` that holds `content` bytes. */
  predicate LeastAligned(content: nat, maxPacketSize: nat, n: nat)
    requires maxPacketSize > 0
  {
    n % maxPacketSize == 0 && content <= n < content + maxPacketSize
  }

  /** The bytes behind a JPEG deserve to be refused with `e`. */
  ghost predicate TailRefused(jpegLength: nat, tail: seq<byte>, maxPacketSize: nat, e: FrameParseError)
    requires maxPacketSize > 0
  {
    match e
    case TruncatedDecoderMetadata(actual, expected) => actual == |tail| < expected == JPEG_DECODER_METADATA_SIZE
    case PaddingTooLong(actual, maximum) =>
      |tail| == JPEG_DECODER_METADATA_SIZE + actual && actual > maximum == maxPacketSize - 1
    case NonZeroPadding(offset, value) =>
      && JPEG_DECODER_METADATA_SIZE + offset < |tail| < JPEG_DECODER_METADATA_SIZE + maxPacketSize
      && Has(tail, JPEG_DECODER_METADATA_SIZE, Zeros(offset) + [value]) && value != 0
    case UnalignedPayload(actual, expected, size) =>
      && JPEG_DECODER_METADATA_SIZE <= |tail| < JPEG_DECODER_METADATA_SIZE + maxPacketSize
      && tail[JPEG_DECODER_METADATA_SIZE..] == Zeros(|tail| - JPEG_DECODER_METADATA_SIZE)
      && actual == jpegLength + |tail| && size == maxPacketSize
      && LeastAligned(jpegLength + JPEG_DECODER_METADATA_SIZE, maxPacketSize, expected) && actual != expected
    case _ => false
  }

  /** Behind a JPEG the parser looks at the tail only. */
  lemma AfterJpeg(packet: Slice, maxPacketSize: nat, jpeg: seq<byte>, tail: seq<byte>)
    requires HEADER_SIZE <= |packet| && SupportedSpeed(maxPacketSize)
    requires IsJpeg(jpeg) && packet[HEADER_SIZE..] == jpeg + tail
    ensures var content := |jpeg| + JPEG_DECODER_METADATA_SIZE;
            ParsePayload(packet, maxPacketSize)
            == if |tail| < JPEG_DECODER_METADATA_SIZE then
                 Err(TruncatedDecoderMetadata(|tail|, JPEG_DECODER_METADATA_SIZE))
               else
                 var padding := tail[JPEG_DECODER_METADATA_SIZE..];
                 var nonZero, aligned := FirstNonZero(padding), content + PaddingLength(content, maxPacketSize);
                 if |padding| >= maxPacketSize then Err(PaddingTooLong(|padding|, maxPacketSize - 1))
                 else if nonZero < |padding| then Err(NonZeroPadding(nonZero, padding[nonZero]))
                 else if content + |padding| != aligned then Err(UnalignedPayload(content + |padding|, aligned, maxPacketSize))
                 else Ok(Envelope(packet[22], packet[23], jpeg, tail[..JPEG_DECODER_METADATA_SIZE], padding))
  {
    hide JpegEnd, IsJpeg, FirstNonZero, AlignPayloadLength, PaddingLength;
    TailIrrelevant(jpeg, tail);
    var content := |jpeg| + JPEG_DECODER_METADATA_SIZE;
    assert packet[HEADER_SIZE..HEADER_SIZE + |jpeg|] == (jpeg + tail)[..|jpeg|] == jpeg;
    AlignSmall(content, maxPacketSize);
    if |tail| >= JPEG_DECODER_METADATA_SIZE {
      assert packet[HEADER_SIZE + content..] == tail[JPEG_DECODER_METADATA_SIZE..];
      assert packet[HEADER_SIZE + |jpeg|..HEADER_SIZE + content] == tail[..JPEG_DECODER_METADATA_SIZE];
    }
  }

  /** Behind a sound header and a JPEG, each refusal is exactly what the remaining bytes deserve. */
  lemma PayloadErrorExact(packet: Slice, maxPacketSize: nat, jpeg: seq<byte>, tail: seq<byte>, e: FrameParseError)
    requires HEADER_SIZE <= |packet| && SupportedSpeed(maxPacketSize)
    requires IsJpeg(jpeg) && packet[HEADER_SIZE..] == jpeg + tail
    ensures ParsePayload(packet, maxPacketSize) == Err(e) <==> TailRefused(|jpeg|, tail, maxPacketSize, e)
    ensures ParsePayload(packet, maxPacketSize).Ok? ==> ParsePayload(packet, maxPacketSize).value.jpeg == jpeg
  {
    hide ParsePayload, IsJpeg, FirstNonZero, PaddingLength, LeastAligned, Has, Zeros;
    AfterJpeg(packet, maxPacketSize, jpeg, tail);
    if e.UnalignedPayload? {
      AlignedUnique(|jpeg| + JPEG_DECODER_METADATA_SIZE, maxPacketSize, e.expected);
    }
    if |tail| >= JPEG_DECODER_METADATA_SIZE {
      var padding := tail[JPEG_DECODER_METADATA_SIZE..];
      ZeroPadding(padding);
      if e.NonZeroPadding? && e.value != 0 {
        FirstNonZeroExact(padding, e.offset, e.value);
        FrontOfPadding(tail, padding, e.offset, e.value);
      }
    }
  }

  lemma AlignedUnique(content: nat, maxPacketSize: nat, n: nat)
    requires SupportedSpeed(maxPacketSize)
    ensures LeastAligned(content, maxPacketSize, n) <==> n == content + PaddingLength(content, maxPacketSize)
  {
  }

  lemma FrontOfPadding(tail: seq<byte>, padding: seq<byte>, offset: nat, value: byte)
    requires |tail| >= JPEG_DECODER_METADATA_SIZE && padding == tail[JPEG_DECODER_METADATA_SIZE..]
    ensures Has(tail, JPEG_DECODER_METADATA_SIZE, Zeros(offset) + [value]) <==> Has(padding, 0, Zeros(offset) + [value])
  {
    var front := Zeros(offset) + [value];
    if |front| <= |padding| {
      assert padding[0..|front|] == tail[JPEG_DECODER_METADATA_SIZE..JPEG_DECODER_METADATA_SIZE + |front|];
    }
  }

  lemma FirstNonZeroExact(padding: seq<byte>, offset: nat, value: byte)
    requires value != 0
    ensures Has(padding, 0, Zeros(offset) + [value])
            <==> FirstNonZero(padding) == offset < |padding| && padding[offset] == value
  {
    hide FirstNonZero;
    HasConcat(padding, 0, Zeros(offset), [value]);
    if offset < |padding| {
      assert padding[offset..offset + 1] == [padding[offset]];
      assert padding[0..offset] == Zeros(offset) <==> forall i | 0 <= i < offset :: padding[0..offset][i] == 0;
    }
  }

  lemma ZeroPadding(padding: seq<byte>)
    ensures padding == Zeros(|padding|) <==> FirstNonZero(padding) == |padding|
  {
  }

  lemma AlignSmall(content: nat, maxPacketSize: nat)
    requires SupportedSpeed(maxPacketSize) && content <= ISIZE_MAX + 0x5000
    ensures AlignPayloadLength(content, maxPacketSize) == Ok(content + PaddingLength(content, maxPacketSize))
  {
  }

  /** A payload deserves to be refused with `e`: no JPEG, for that reason, or a JPEG with a bad tail. */
  ghost predicate PayloadRefused(payload: seq<byte>, maxPacketSize: nat, e: FrameParseError)
    requires maxPacketSize > 0
  {
    || Deserves(payload, Err(e))
    || exists n: nat :: n <= |payload| && IsJpeg(payload[..n]) && TailRefused(n, payload[n..], maxPacketSize, e)
  }

  lemma PayloadRefusalExact(packet: Slice, maxPacketSize: nat, e: FrameParseError)
    requires HEADER_SIZE <= |packet| && SupportedSpeed(maxPacketSize)
    ensures ParsePayload(packet, maxPacketSize) == Err(e) <==> PayloadRefused(packet[HEADER_SIZE..], maxPacketSize, e)
  {
    hide JpegEnd, IsJpeg, Deserves, TailRefused;
    var payload := packet[HEADER_SIZE..];
    OutcomeExact(payload, Err(e));
    forall n: nat | n <= |payload| && IsJpeg(payload[..n]) ensures JpegEnd(payload) == Ok(n) {
      AcceptsExactlyJpegs(payload, n);
    }
    var end := JpegEnd(payload);
    if end.Ok? {
      hide ParsePayload;
      var n := end.value;
      AcceptsExactlyJpegs(payload, n);
      assert payload == payload[..n] + payload[n..];
      PayloadErrorExact(packet, maxPacketSize, payload[..n], payload[n..], e);
    }
  }

  /** The header fields that every frame starts with. */
  function FixedHeader(total: u32, signature: u32): (bs: seq<byte>) {
    WIRE_MAGIC + U32Le(total) + U32Le(signature)
  }

  /** The first defect of the speed or the header, in the order in which the fields are checked. */
  ghost predicate HeaderRefused(packet: Slice, maxPacketSize: nat, e: FrameParseError) {
    match e
    case InvalidMaxPacketSize(size) => size == maxPacketSize && !SupportedSpeed(maxPacketSize)
    case TooShort(actual, minimum) => SupportedSpeed(maxPacketSize) && actual == |packet| < minimum == HEADER_SIZE
    case BadMagic => SupportedSpeed(maxPacketSize) && |packet| >= HEADER_SIZE && !Has(packet, 0, WIRE_MAGIC)
    case DeclaredLengthMismatch(declared, actual) =>
      && SupportedSpeed(maxPacketSize) && |packet| >= HEADER_SIZE
      && declared <= 0xffff_ffff && Has(packet, 0, WIRE_MAGIC + U32Le(declared)) && declared != actual == |packet|
    case InvalidSignature(signature) =>
      && SupportedSpeed(maxPacketSize) && HEADER_SIZE <= |packet| <= 0xffff_ffff
      && Has(packet, 0, FixedHeader(|packet|, signature)) && signature != FRAME_SIGNATURE
    case InvalidFrameType(byte20, byte21) =>
      && SupportedSpeed(maxPacketSize) && HEADER_SIZE <= |packet| <= 0xffff_ffff
      && Has(packet, 0, FixedHeader(|packet|, FRAME_SIGNATURE) + [byte20, byte21])
      && [byte20, byte21] != [FRAME_TYPE, FRAME_SUBTYPE]
    case _ => false
  }

  ghost predicate HeaderSound(packet: Slice, maxPacketSize: nat) {
    && SupportedSpeed(maxPacketSize) && HEADER_SIZE <= |packet| <= 0xffff_ffff
    && Has(packet, 0, FixedHeader(|packet|, FRAME_SIGNATURE) + [FRAME_TYPE, FRAME_SUBTYPE])
  }

  /** What the fixed fields at the front of a long enough packet are, field by field. */
  lemma FixedHeaderExact(packet: Slice, total: u32, signature: u32, a: byte, b: byte)
    requires |packet| >= HEADER_SIZE
    ensures Has(packet, 0, WIRE_MAGIC) <==> packet[..|WIRE_MAGIC|] == WIRE_MAGIC
    ensures Has(packet, 0, WIRE_MAGIC + U32Le(total)) <==> Has(packet, 0, WIRE_MAGIC) && ReadU32Le(packet, 12) == total
    ensures Has(packet, 0, FixedHeader(total, signature))
            <==> Has(packet, 0, WIRE_MAGIC + U32Le(total)) && ReadU32Le(packet, 16) == signature
    ensures Has(packet, 0, FixedHeader(total, signature) + [a, b])
            <==> Has(packet, 0, FixedHeader(total, signature)) && packet[20] == a && packet[21] == b
  {
    HasConcat(packet, 0, WIRE_MAGIC, U32Le(total));
    HasConcat(packet, 0, WIRE_MAGIC + U32Le(total), U32Le(signature));
    HasConcat(packet, 0, FixedHeader(total, signature), [a, b]);
    U32LeUnique(packet[12..16], total);
    U32LeUnique(packet[16..20], signature);
    assert packet[20..22] == [packet[20], packet[21]];
  }

  /** Every refusal of a packet, error value included, is exactly the one the packet deserves. */
  lemma RefusalExact(packet: Slice, maxPacketSize: nat, e: FrameParseError)
    ensures ParseFrameEnvelope(packet, maxPacketSize) == Err(e)
            <==> || HeaderRefused(packet, maxPacketSize, e)
                 || (HeaderSound(packet, maxPacketSize) && PayloadRefused(packet[HEADER_SIZE..], maxPacketSize, e))
  {
    hide ParsePayload, PayloadRefused, FixedHeader, Has;
    if SupportedSpeed(maxPacketSize) && |packet| >= HEADER_SIZE {
      PayloadRefusalExact(packet, maxPacketSize, e);
      var declared, signature := ReadU32Le(packet, 12), ReadU32Le(packet, 16);
      FixedHeaderExact(packet, declared, signature, packet[20], packet[21]);
      if |packet| <= 0xffff_ffff {
        FixedHeaderExact(packet, |packet|, FRAME_SIGNATURE, FRAME_TYPE, FRAME_SUBTYPE);
      }
      match e
      case DeclaredLengthMismatch(d, _) =>
        if d <= 0xffff_ffff {
          FixedHeaderExact(packet, d, signature, 0, 0);
        }
      case InvalidSignature(s) =>
        if |packet| <= 0xffff_ffff {
          FixedHeaderExact(packet, |packet|, s, 0, 0);
        }
      case InvalidFrameType(a, b) =>
        if |packet| <= 0xffff_ffff {
          FixedHeaderExact(packet, |packet|, FRAME_SIGNATURE, a, b);
        }
      case _ =>
    }
  }

  /** Neither overflow error can be returned for a slice on this platform. */
  lemma NoOverflow(packet: Slice, maxPacketSize: nat)
    ensures match ParseFrameEnvelope(packet, maxPacketSize)
            case Err(LengthOverflow) => false
            case Err(DeclaredLengthDoesNotFit(_)) => false
            case _ => true
  {
    hide JpegEnd;
    if SupportedSpeed(maxPacketSize) && HEADER_SIZE <= |packet| {
      OutcomeBounds(packet[HEADER_SIZE..]);
      OutcomeExact(packet[HEADER_SIZE..], JpegEnd(packet[HEADER_SIZE..]));
    }
  }

  // ---------- The decoder's choice of speed ----------

  /** The frame branch of `decode`. */
  function DecodeFrame(packet: Slice): (r: Parsed) {
    var payloadLength := if |packet| >= HEADER_SIZE then |packet| - HEADER_SIZE else 0;
    ParseFrameEnvelope(packet, ChosenSpeed(payloadLength))
  }

  /** The speed that `decode` picks for a payload length. */
  function ChosenSpeed(payloadLength: nat): (speed: nat)
    ensures SupportedSpeed(speed)
  {
    if payloadLength % SUPER_SPEED_MAX_PACKET_SIZE == 0 then SUPER_SPEED_MAX_PACKET_SIZE else HIGH_SPEED_MAX_PACKET_SIZE
  }

  /** The choice loses nothing: it finds the frame whenever the packet is one at either speed. */
  lemma SpeedChoiceComplete(packet: Slice, env: Envelope)
    ensures DecodeFrame(packet) == Ok(env)
            <==> exists speed :: SupportedSpeed(speed) && ParseFrameEnvelope(packet, speed) == Ok(env)
  {
    hide ParseFrameEnvelope;
    if exists speed :: SupportedSpeed(speed) && ParseFrameEnvelope(packet, speed) == Ok(env) {
      var speed :| SupportedSpeed(speed) && ParseFrameEnvelope(packet, speed) == Ok(env);
      SpeedChosen(packet, env, speed);
    }
  }

  lemma PaddingAtChosenSpeed(content: nat, speed: nat)
    requires SupportedSpeed(speed)
    ensures var n := content + PaddingLength(content, speed);
            PaddingLength(content, ChosenSpeed(n)) == PaddingLength(content, speed)
  {
    hide PaddingLength;
    var n := content + PaddingLength(content, speed);
    AlignedUnique(content, speed, n);
    AlignedUnique(content, ChosenSpeed(n), n);
  }

  /** A frame aligned at one speed is aligned at the speed its length suggests. */
  lemma ValidAtChosenSpeed(env: Envelope, speed: nat)
    requires ValidFrame(env, speed)
    ensures ValidFrame(env, ChosenSpeed(|env.jpeg| + |env.decoderMetadata| + |env.padding|))
  {
    hide IsJpeg, PaddingLength, ChosenSpeed;
    PaddingAtChosenSpeed(|env.jpeg| + JPEG_DECODER_METADATA_SIZE, speed);
  }

  lemma FrameLength(packet: Slice, speed: nat, env: Envelope)
    requires IsFrame(packet, speed, env)
    ensures |packet| == HEADER_SIZE + |env.jpeg| + |env.decoderMetadata| + |env.padding|
  {
    hide IsJpeg, Header;
  }

  lemma SpeedChosen(packet: Slice, env: Envelope, speed: nat)
    requires SupportedSpeed(speed) && ParseFrameEnvelope(packet, speed) == Ok(env)
    ensures DecodeFrame(packet) == Ok(env)
  {
    hide ParseFrameEnvelope, ValidFrame, Packet, ChosenSpeed;
    EnvelopeExact(packet, speed, env);
    FrameLength(packet, speed, env);
    ValidAtChosenSpeed(env, speed);
    EnvelopeExact(packet, ChosenSpeed(|packet| - HEADER_SIZE), env);
  }

  /** Refused packets: a payload of whole 1024-byte packets is refused as at SuperSpeed, any other as at high speed. */
  lemma DecodeRefusalExact(packet: Slice, e: FrameParseError)
    ensures var payloadLength := if |packet| >= 48 then |packet| - 48 else 0;
            var speed := if payloadLength % 1024 == 0 then 1024 else 512;
            DecodeFrame(packet) == Err(e)
            <==> || HeaderRefused(packet, speed, e)
                 || (HeaderSound(packet, speed) && PayloadRefused(packet[HEADER_SIZE..], speed, e))
  {
    hide ParseFrameEnvelope, HeaderRefused, HeaderSound, PayloadRefused;
    var payloadLength := if |packet| >= 48 then |packet| - 48 else 0;
    RefusalExact(packet, if payloadLength % 1024 == 0 then 1024 else 512, e);
  }

  /** The magic is the text "smifalconsta" in ASCII. */
  lemma MagicText()
    ensures |WIRE_MAGIC| == |"smifalconsta"| && forall i | 0 <= i < 12 :: WIRE_MAGIC[i] == "smifalconsta"[i] as int
  {
  }
}
