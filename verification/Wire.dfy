/** Bytes, machine widths and integer encodings shared by the protocol model. */
module Wire {

  /** A protocol byte. Lengths are computed from protocol bytes, so they are integers. */
  type byte = b: int | 0 <= b < 256

  const U64_MAX: nat := 0xffff_ffff_ffff_ffff

  // The model is of a 64-bit platform.
  const USIZE_MAX: nat := U64_MAX
  const ISIZE_MAX: nat := 0x7fff_ffff_ffff_ffff

  type u32 = n: int | 0 <= n <= 0xffff_ffff
  type u64 = n: int | 0 <= n <= U64_MAX

  /** A borrowed byte slice: Rust guarantees that none is longer than isize::MAX bytes. */
  type Slice = s: seq<byte> | |s| <= ISIZE_MAX

  datatype Option<+T> = None | Some(value: T)

  datatype Result<+R, +E> = Ok(value: R) | Err(error: E) {
    predicate IsFailure() {
      Err?
    }

    function PropagateFailure<U>(): (r: Result<U, E>)
      requires Err?
    {
      Err(error)
    }

    function Extract(): R
      requires Ok?
    {
      value
    }
  }

  function Bit(b: bool): (n: nat) {
    if b then 1 else 0
  }

  /** Rust's usize::checked_add, with the given error for an overflow. */
  function CheckedAdd<E>(a: nat, b: nat, overflow: E): (r: Result<nat, E>) {
    if a + b <= USIZE_MAX then Ok(a + b) else Err(overflow)
  }

  /** True when `bs` occurs in `data` at offset `at`. */
  predicate Has(data: seq<byte>, at: nat, bs: seq<byte>) {
    at + |bs| <= |data| && data[at..at + |bs|] == bs
  }

  lemma HasConcat(data: seq<byte>, at: nat, a: seq<byte>, b: seq<byte>)
    ensures Has(data, at, a + b) <==> Has(data, at, a) && Has(data, at + |a|, b)
  {
    if at + |a| + |b| <= |data| {
      var both := data[at..at + |a + b|];
      assert both[..|a|] == data[at..at + |a|] && both[|a|..] == data[at + |a|..at + |a| + |b|];
      assert both == a + b <==> both[..|a|] == a && both[|a|..] == b;
    }
  }

  function Zeros(n: nat): (zs: seq<byte>)
    ensures |zs| == n && forall i | 0 <= i < n :: zs[i] == 0
  {
    seq(n, _ => 0)
  }

  function ReadU16Be(bytes: seq<byte>, offset: nat): (n: nat)
    requires offset + 2 <= |bytes|
    ensures n <= 0xffff
  {
    256 * bytes[offset] as int + bytes[offset + 1] as int
  }

  function U16Be(n: nat): (bs: seq<byte>)
    requires n <= 0xffff
    ensures |bs| == 2 && ReadU16Be(bs, 0) == n
  {
    [n / 256, n % 256]
  }

  function ReadU32Le(bytes: seq<byte>, offset: nat): (n: u32)
    requires offset + 4 <= |bytes|
  {
    bytes[offset] as int + 0x100 * bytes[offset + 1] as int + 0x1_0000 * bytes[offset + 2] as int
    + 0x100_0000 * bytes[offset + 3] as int
  }

  function U32Le(n: u32): (bs: seq<byte>)
    ensures |bs| == 4 && ReadU32Le(bs, 0) == n
  {
    var high := n / 256;
    var top := high / 256;
    [n % 256, high % 256, top % 256, top / 256]
  }

  lemma Split256(x: int, q: int, r: byte)
    requires x == 256 * q + r
    ensures x / 256 == q && x % 256 == r
  {
  }

  /** The four bytes of a little-endian word are determined by its value. */
  lemma U32LeUnique(bs: seq<byte>, n: u32)
    requires |bs| == 4
    ensures ReadU32Le(bs, 0) == n <==> bs == U32Le(n)
  {
    if ReadU32Le(bs, 0) == n {
      var top := bs[2] as int + 256 * bs[3] as int;
      var high := bs[1] as int + 256 * top;
      Split256(n, high, bs[0]);
      Split256(high, top, bs[1]);
      Split256(top, bs[3], bs[2]);
    }
  }

  /** The order of bytes: lengths in a JPEG have the high byte first, words of a packet the low byte first. */
  lemma ByteOrder(a: byte, b: byte, c: byte, d: byte)
    ensures ReadU16Be([a, b], 0) == 256 * a as int + b as int
    ensures ReadU32Le([a, b, c, d], 0) == a as int + 256 * (b as int + 256 * (c as int + 256 * d as int))
    ensures U16Be(0x0102) == [0x01, 0x02] && U32Le(0x0102_0304) == [0x04, 0x03, 0x02, 0x01]
  {
  }
}
