/** Command requests: the zeroed request shape, the bulk heartbeat and its decimal client tag. */
module Requests {
  import opened Wire
  import FrameEnvelope

  const COMMAND_CLASS: u32 := 6
  const BULK_HEARTBEAT_OPCODE: byte := 0xec
  const HEARTBEAT_SIZE: nat := 44
  const HEARTBEAT_TAG_OFFSET: nat := 35
  const HEARTBEAT_TAG_CAPACITY: nat := HEARTBEAT_SIZE - HEARTBEAT_TAG_OFFSET - 1
  const MAGIC: seq<byte> := FrameEnvelope.WIRE_MAGIC

  datatype WireHeader = WireHeader(word12: u32, word16: u32, byte20: byte)
  datatype CommandRequest = CommandRequest(length: nat, opcode: byte)
  datatype ParseError =
    | TooShort(actual: nat, minimum: nat)
    | BadMagic
    | InvalidRequestLength(declared: nat, actual: nat)
    | InvalidRequestClass(word: u32)
  datatype BuildError = ClientTagTooLong(digits: nat, maximum: nat)

  // ---------- Parser ----------

  function ParseHeader(packet: Slice): (r: Result<WireHeader, ParseError>) {
    if |packet| < 21 then Err(TooShort(|packet|, 21))
    else if packet[..|MAGIC|] != MAGIC then Err(BadMagic)
    else Ok(WireHeader(ReadU32Le(packet, 12), ReadU32Le(packet, 16), packet[20]))
  }

  function ParseCanonicalCommandRequest(packet: Slice): (r: Result<CommandRequest, ParseError>) {
    var header :- ParseHeader(packet);
    if header.word12 != |packet| then Err(InvalidRequestLength(header.word12, |packet|))
    else if header.word16 != COMMAND_CLASS then Err(InvalidRequestClass(header.word16))
    else Ok(CommandRequest(header.word12, header.byte20))
  }

  // ---------- Builders ----------

  function ZeroedRequest(n: nat, opcode: byte): (bs: seq<byte>)
    requires 21 <= n <= 0xffff_ffff
    ensures |bs| == n
  {
    MAGIC + U32Le(n) + U32Le(COMMAND_CLASS) + [opcode] + Zeros(n - 21)
  }

  method CopyInto(packet: array<byte>, at: nat, source: seq<byte>)
    requires at + |source| <= packet.Length
    modifies packet
    ensures packet[..] == old(packet[..at]) + source + old(packet[at + |source|..])
  {
    forall i | 0 <= i < |source| {
      packet[at + i] := source[i];
    }
    assert packet[..at] == old(packet[..at]);
    assert packet[at..at + |source|] == source;
    assert packet[at + |source|..] == old(packet[at + |source|..]);
    assert packet[..] == packet[..at] + packet[at..at + |source|] + packet[at + |source|..];
  }

  method BuildZeroedRequest(n: nat, opcode: byte) returns (packet: array<byte>)
    requires 21 <= n <= 0xffff_ffff
    ensures fresh(packet) && packet[..] == ZeroedRequest(n, opcode)
  {
    packet := new byte[n](_ => 0);
    assert packet[..] == Zeros(n);
    CopyInto(packet, 0, MAGIC);
    assert packet[..] == MAGIC + Zeros(n - 12);
    CopyInto(packet, 12, U32Le(n));
    assert packet[..] == MAGIC + U32Le(n) + Zeros(n - 16);
    CopyInto(packet, 16, U32Le(COMMAND_CLASS));
    assert packet[..] == MAGIC + U32Le(n) + U32Le(COMMAND_CLASS) + Zeros(n - 20);
    CopyInto(packet, 20, [opcode]);
    assert packet[..] == MAGIC + U32Le(n) + U32Le(COMMAND_CLASS) + [opcode] + Zeros(n - 21);
  }

  /** ASCII decimal text without leading zeros, as `to_string` prints it. */
  function Decimal(n: nat): (text: seq<byte>)
    ensures |text| >= 1
  {
    if n < 10 then [48 + n] else Decimal(n / 10) + [48 + n % 10]
  }

  function Heartbeat(tag: u32): (bs: seq<byte>)
    requires |Decimal(tag)| <= HEARTBEAT_TAG_CAPACITY
    ensures |bs| == HEARTBEAT_SIZE
  {
    var text := Decimal(tag);
    ZeroedRequest(HEARTBEAT_SIZE, BULK_HEARTBEAT_OPCODE)[..HEARTBEAT_TAG_OFFSET] + text
    + Zeros(HEARTBEAT_SIZE - HEARTBEAT_TAG_OFFSET - |text|)
  }

  method BuildBulkHeartbeatRequest(clientTag: u32) returns (r: Result<seq<byte>, BuildError>)
    ensures r.Ok? <==> clientTag <= 99_999_999
    ensures r.Err? ==> r.error == ClientTagTooLong(|Decimal(clientTag)|, 8)
    ensures r.Ok? ==> |Decimal(clientTag)| <= HEARTBEAT_TAG_CAPACITY && r.value == Heartbeat(clientTag)
  {
    var text := Decimal(clientTag);
    TagFits(clientTag);
    if |text| > HEARTBEAT_TAG_CAPACITY {
      return Err(ClientTagTooLong(|text|, HEARTBEAT_TAG_CAPACITY));
    }
    var packet := BuildZeroedRequest(HEARTBEAT_SIZE, BULK_HEARTBEAT_OPCODE);
    var end := HEARTBEAT_TAG_OFFSET + |text|;
    assert packet[end..] == Zeros(HEARTBEAT_SIZE - end);
    CopyInto(packet, HEARTBEAT_TAG_OFFSET, text);
    return Ok(packet[..]);
  }

  // ---------- Reading the tag back ----------

  /** Reads decimal digits from `i` up to the first NUL. */
  function ReadDecimal(bs: seq<byte>, i: nat, read: nat): (r: Option<nat>)
    decreases |bs| - i
  {
    if i >= |bs| then None
    else if bs[i] == 0 then Some(read)
    else if 48 <= bs[i] <= 57 then ReadDecimal(bs, i + 1, 10 * read + bs[i] as int - 48)
    else None
  }

  lemma {:induction false} DecimalReads(bs: seq<byte>, i: nat, n: nat)
    requires Has(bs, i, Decimal(n))
    ensures ReadDecimal(bs, i, 0) == ReadDecimal(bs, i + |Decimal(n)|, n)
    decreases n
  {
    if n < 10 {
      assert bs[i..i + 1][0] == 48 + n;
    } else {
      HasConcat(bs, i, Decimal(n / 10), [48 + n % 10]);
      DecimalReads(bs, i, n / 10);
      var j := i + |Decimal(n / 10)|;
      assert bs[j..j + 1][0] == 48 + n % 10;
      assert 10 * (n / 10) + n % 10 == n;
    }
  }

  function Pow10(k: nat): (p: nat)
    ensures p >= 1
  {
    if k == 0 then 1 else 10 * Pow10(k - 1)
  }

  lemma {:induction false} DecimalLength(n: nat, k: nat)
    requires k >= 1
    ensures |Decimal(n)| <= k <==> n < Pow10(k)
    decreases k
  {
    if k > 1 {
      if n >= 10 {
        DecimalLength(n / 10, k - 1);
      } else {
        assert Pow10(k) == 10 * Pow10(k - 1);
      }
    } else {
      assert Pow10(1) == 10 * Pow10(0);
    }
  }

  lemma TagFits(tag: nat)
    ensures |Decimal(tag)| <= HEARTBEAT_TAG_CAPACITY <==> tag <= 99_999_999
  {
    DecimalLength(tag, 8);
    assert Pow10(4) == 10_000 && Pow10(8) == 10_000 * Pow10(4);
  }

  /** A heartbeat gives back its tag, is NUL-terminated, and passes the canonical parser. */
  lemma HeartbeatRoundTrip(tag: u32)
    requires tag <= 99_999_999
    ensures |Decimal(tag)| <= HEARTBEAT_TAG_CAPACITY
    ensures |Heartbeat(tag)| == 44 && ReadDecimal(Heartbeat(tag), 35, 0) == Some(tag)
    ensures ParseCanonicalCommandRequest(Heartbeat(tag)) == Ok(CommandRequest(44, 0xec))
    ensures forall i | 21 <= i < 35 :: Heartbeat(tag)[i] == 0
  {
    TagFits(tag);
    var text, bs := Decimal(tag), Heartbeat(tag);
    var end := HEARTBEAT_TAG_OFFSET + |text|;
    assert Has(bs, HEARTBEAT_TAG_OFFSET, text);
    DecimalReads(bs, HEARTBEAT_TAG_OFFSET, tag);
    assert bs[end] == 0;
    assert bs[..21] == ZeroedRequest(HEARTBEAT_SIZE, BULK_HEARTBEAT_OPCODE)[..21];
    CanonicalExact(bs, HEARTBEAT_SIZE, BULK_HEARTBEAT_OPCODE);
  }

  /** The canonical parser accepts exactly the packets that start like a built request of their length. */
  lemma CanonicalExact(bs: Slice, n: nat, opcode: byte)
    ensures ParseCanonicalCommandRequest(bs) == Ok(CommandRequest(n, opcode))
            <==> 21 <= n <= 0xffff_ffff && |bs| == n && bs[..21] == ZeroedRequest(n, opcode)[..21]
  {
    if 21 <= |bs| == n <= 0xffff_ffff {
      var front := MAGIC + U32Le(n) + U32Le(COMMAND_CLASS);
      assert ZeroedRequest(n, opcode)[..21] == front + [opcode];
      assert bs[..21] == bs[0..21];
      HasConcat(bs, 0, front, [opcode]);
      HasConcat(bs, 0, MAGIC + U32Le(n), U32Le(COMMAND_CLASS));
      HasConcat(bs, 0, MAGIC, U32Le(n));
      U32LeUnique(bs[12..16], n);
      U32LeUnique(bs[16..20], COMMAND_CLASS);
      assert bs[20..21] == [bs[20]];
    }
  }

  /** Each refusal of the canonical parser, on the bytes. */
  ghost predicate RequestRefused(bs: Slice, e: ParseError) {
    match e
    case TooShort(actual, minimum) => actual == |bs| < minimum == 21
    case BadMagic => |bs| >= 21 && !Has(bs, 0, MAGIC)
    case InvalidRequestLength(declared, actual) =>
      |bs| >= 21 && declared <= 0xffff_ffff && Has(bs, 0, MAGIC + U32Le(declared)) && declared != actual == |bs|
    case InvalidRequestClass(word) =>
      21 <= |bs| <= 0xffff_ffff && Has(bs, 0, MAGIC + U32Le(|bs|) + U32Le(word)) && word != 6
  }

  lemma RequestRefusalExact(bs: Slice, e: ParseError)
    ensures ParseCanonicalCommandRequest(bs) == Err(e) <==> RequestRefused(bs, e)
  {
    if |bs| >= 21 {
      assert |MAGIC| == 12 && bs[..12] == bs[0..12];
      hide U32Le;
      match e
      case InvalidRequestLength(declared, _) =>
        if declared <= 0xffff_ffff {
          FrontExact(bs, declared, 0);
        }
      case InvalidRequestClass(word) =>
        if |bs| <= 0xffff_ffff {
          FrontExact(bs, |bs|, word);
        }
      case _ =>
    }
  }

  lemma FrontExact(bs: Slice, n: u32, word: u32)
    requires |bs| >= 21
    ensures Has(bs, 0, MAGIC + U32Le(n)) <==> Has(bs, 0, MAGIC) && ReadU32Le(bs, 12) == n
    ensures Has(bs, 0, MAGIC + U32Le(n) + U32Le(word)) <==> Has(bs, 0, MAGIC + U32Le(n)) && ReadU32Le(bs, 16) == word
  {
    HasConcat(bs, 0, MAGIC, U32Le(n));
    HasConcat(bs, 0, MAGIC + U32Le(n), U32Le(word));
    U32LeUnique(bs[12..16], n);
    U32LeUnique(bs[16..20], word);
  }

  /** Different tags make different packets. */
  lemma HeartbeatInjective(a: u32, b: u32)
    requires a <= 99_999_999 && b <= 99_999_999
    requires |Decimal(a)| <= HEARTBEAT_TAG_CAPACITY && |Decimal(b)| <= HEARTBEAT_TAG_CAPACITY
    requires Heartbeat(a) == Heartbeat(b)
    ensures a == b
  {
    HeartbeatRoundTrip(a);
    HeartbeatRoundTrip(b);
  }
}
