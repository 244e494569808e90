/** `Frame::checksum`: FNV-1a over the frame's identity, dimensions and pixels. */
module FrameChecksum {
  import opened Wire
  import opened Arith
  import opened Frames
  import opened Fnv

  function LowByte(n: nat): (b: bv8) {
    (n % 256) as bv8
  }

  function Number(b: bv8): (n: nat)
    ensures n < 256
  {
    b as int
  }

  lemma NextByte(b: bv8)
    requires b != 255
    ensures Number(b + 1) == Number(b) + 1
  {
  }

  lemma LastByte()
    ensures Number(0) == 0 && Number(255) == 255
  {
  }

  lemma {:induction false} ByteFor(d: nat) returns (b: bv8)
    requires d < 256
    ensures Number(b) == d
    decreases d
  {
    hide Number;
    LastByte();
    b := 0;
    if d > 0 {
      b := ByteFor(d - 1);
      NextByte(b);
      b := b + 1;
    }
  }

  lemma NumberRoundTrip(b: bv8)
    ensures Number(b) as bv8 == b
  {
  }

  lemma ByteRoundTrip(d: nat)
    requires d < 256
    ensures Number(d as bv8) == d
  {
    hide Number;
    var b := ByteFor(d);
    NumberRoundTrip(b);
  }

  lemma LowByteValue(n: nat)
    ensures Number(LowByte(n)) == n % 256
  {
    ByteRoundTrip(n % 256);
  }

  /** The `k` little-endian bytes of `n`. */
  function LittleEndian(n: nat, k: nat): (bs: seq<bv8>)
    ensures |bs| == k
  {
    if k == 0 then [] else [LowByte(n)] + LittleEndian(n / 256, k - 1)
  }

  function Serialized(frame: Frame): (bs: seq<bv8>)
    ensures |bs| == 24 + |frame.pixels|
  {
    LittleEndian(frame.id.generation, 8) + LittleEndian(frame.id.sequence, 8)
    + LittleEndian(frame.layout.width, 4) + LittleEndian(frame.layout.height, 4) + frame.pixels
  }

  /** The chained iteration of the source is `fnv1a64` of the serialized frame. */
  method ComputeChecksum(frame: Frame) returns (checksum: bv64)
    ensures checksum == Fnv1a64(Serialized(frame))
  {
    var generation := LittleEndian(frame.id.generation, 8);
    var sequence := LittleEndian(frame.id.sequence, 8);
    var width := LittleEndian(frame.layout.width, 4);
    var height := LittleEndian(frame.layout.height, 4);
    checksum := MixBytes(FNV_OFFSET, generation);
    checksum := MixBytes(checksum, sequence);
    checksum := MixBytes(checksum, width);
    checksum := MixBytes(checksum, height);
    checksum := MixBytes(checksum, frame.pixels);
    FoldConcat(FNV_OFFSET, generation, sequence);
    FoldConcat(FNV_OFFSET, generation + sequence, width);
    FoldConcat(FNV_OFFSET, generation + sequence + width, height);
    FoldConcat(FNV_OFFSET, generation + sequence + width + height, frame.pixels);
  }

  // ---------- Byte order ----------

  function Pow256(k: nat): (p: nat)
    ensures p >= 1
  {
    if k == 0 then 1 else 256 * Pow256(k - 1)
  }

  /** Digit `i` of `n` to the base 256. */
  function Digit(n: nat, i: nat): (d: nat)
    ensures d < 256
  {
    n / Pow256(i) % 256
  }

  /** The number whose digits to the base 256 are `bs`, the first of them worth least. */
  function Value(bs: seq<bv8>): (n: nat) {
    if bs == [] then 0 else Number(bs[0]) + 256 * Value(bs[1..])
  }

  lemma DivDiv(n: nat, p: nat)
    requires p >= 1
    ensures n / 256 / p == n / (256 * p)
  {
    var q, r := n / 256, n % 256;
    var q', r' := q / p, q % p;
    assert n == 256 * (p * q' + r') + r;
    assert 256 * (p * q' + r') == (256 * p) * q' + 256 * r';
    DivMod(n, 256 * p, q', 256 * r' + r);
  }

  lemma DigitShift(n: nat, i: nat)
    ensures i == 0 ==> Digit(n, i) == n % 256
    ensures i > 0 ==> Digit(n, i) == Digit(n / 256, i - 1)
  {
    if i > 0 {
      DivDiv(n, Pow256(i - 1));
    }
  }

  lemma ModSplit(n: nat, p: nat)
    requires p >= 1
    ensures n % 256 + 256 * (n / 256 % p) == n % (256 * p)
  {
    var q, r := n / 256 / p, n / 256 % p;
    assert n == 256 * (p * q + r) + n % 256;
    assert 256 * (p * q + r) == (256 * p) * q + 256 * r;
    DivMod(n, 256 * p, q, 256 * r + n % 256);
  }

  /** Byte `i` is digit `i`: the order is little-endian. */
  lemma {:induction false} ByteIsDigit(n: nat, k: nat, i: nat)
    requires i < k
    ensures Number(LittleEndian(n, k)[i]) == Digit(n, i)
    decreases k
  {
    hide Digit, LowByte, Number;
    DigitShift(n, i);
    LowByteValue(n);
    if i > 0 {
      ByteIsDigit(n / 256, k - 1, i - 1);
    }
  }

  /** Reading the bytes back gives the number, cut off at `k` digits. */
  lemma {:induction false} ReadsBack(n: nat, k: nat)
    ensures Value(LittleEndian(n, k)) == n % Pow256(k)
    decreases k
  {
    hide LowByte, Number;
    LowByteValue(n);
    if k > 0 {
      ReadsBack(n / 256, k - 1);
      assert LittleEndian(n, k)[1..] == LittleEndian(n / 256, k - 1);
      ModSplit(n, Pow256(k - 1));
    } else {
      DivMod(n, 1, n, 0);
    }
  }

  lemma WordSizes()
    ensures Pow256(4) == 0x1_0000_0000 && Pow256(8) == U64_MAX + 1
  {
    assert Pow256(2) == 0x1_0000;
    assert Pow256(4) == 256 * (256 * Pow256(2));
    assert Pow256(6) == 256 * (256 * Pow256(4));
    assert Pow256(8) == 256 * (256 * Pow256(6));
  }

  lemma FieldDetermined(a: nat, b: nat, k: nat)
    requires a < Pow256(k) && b < Pow256(k) && LittleEndian(a, k) == LittleEndian(b, k)
    ensures a == b
  {
    ReadsBack(a, k);
    ReadsBack(b, k);
    DivMod(a, Pow256(k), 0, a);
    DivMod(b, Pow256(k), 0, b);
  }

  /** Where the fields stand in the serialized frame. */
  lemma Fields(frame: Frame)
    ensures var bs := Serialized(frame);
            && bs[..8] == LittleEndian(frame.id.generation, 8) && bs[8..16] == LittleEndian(frame.id.sequence, 8)
            && bs[16..20] == LittleEndian(frame.layout.width, 4) && bs[20..24] == LittleEndian(frame.layout.height, 4)
            && bs[24..] == frame.pixels
  {
    hide LittleEndian;
  }

  /** The serialized bytes determine id, dimensions and pixels. */
  lemma SerializedInjective(f: Frame, g: Frame)
    requires Serialized(f) == Serialized(g)
    ensures f.id == g.id && f.layout.width == g.layout.width && f.layout.height == g.layout.height && f.pixels == g.pixels
  {
    hide Serialized, LittleEndian, Pow256;
    Fields(f);
    Fields(g);
    WordSizes();
    FieldDetermined(f.id.generation, g.id.generation, 8);
    FieldDetermined(f.id.sequence, g.id.sequence, 8);
    FieldDetermined(f.layout.width, g.layout.width, 4);
    FieldDetermined(f.layout.height, g.layout.height, 4);
  }

  // ---------- One byte changed ----------

  /** `a` and `b` differ in their base-256 digit `i` and in no other of the first `k`. */
  predicate DifferAt(a: nat, b: nat, k: nat, i: nat) {
    i < k && Digit(a, i) != Digit(b, i) && forall j | 0 <= j < k && j != i :: Digit(a, j) == Digit(b, j)
  }

  lemma FieldUpdate(a: nat, b: nat, k: nat, i: nat)
    requires DifferAt(a, b, k, i)
    ensures LittleEndian(b, k)[i] != LittleEndian(a, k)[i]
    ensures LittleEndian(b, k) == LittleEndian(a, k)[i := LittleEndian(b, k)[i]]
  {
    hide LittleEndian, Digit, Number;
    forall j | 0 <= j < k
      ensures LittleEndian(a, k)[j] == LittleEndian(b, k)[j] <==> Digit(a, j) == Digit(b, j)
    {
      ByteIsDigit(a, k, j);
      ByteIsDigit(b, k, j);
      NumberRoundTrip(LittleEndian(a, k)[j]);
      NumberRoundTrip(LittleEndian(b, k)[j]);
    }
  }

  /** A byte changed inside a field changes the hash, whatever stands around it. */
  lemma FieldByteChangesHash(front: seq<bv8>, a: nat, b: nat, k: nat, i: nat, back: seq<bv8>)
    requires DifferAt(a, b, k, i)
    ensures Fnv1a64(front + LittleEndian(a, k) + back) != Fnv1a64(front + LittleEndian(b, k) + back)
  {
    hide Fold, LittleEndian, Digit;
    FieldUpdate(a, b, k, i);
    var s := front + LittleEndian(a, k) + back;
    var c := LittleEndian(b, k)[i];
    assert front + LittleEndian(b, k) + back == s[|front| + i := c];
    OneByteNeverCollides(FNV_OFFSET, s, |front| + i, c);
  }

  /** The four numbers that are hashed before the pixels. */
  datatype Field = Generation | Sequence | Width | Height

  function Size(field: Field): (k: nat) {
    if field.Generation? || field.Sequence? then 8 else 4
  }

  function Get(frame: Frame, field: Field): (n: nat) {
    match field
    case Generation => frame.id.generation
    case Sequence => frame.id.sequence
    case Width => frame.layout.width
    case Height => frame.layout.height
  }

  /** Changing one byte of the generation, sequence, width or height always changes the checksum. */
  lemma HeaderByteChangesChecksum(f: Frame, g: Frame, field: Field, i: nat)
    requires DifferAt(Get(f, field), Get(g, field), Size(field), i) && f.pixels == g.pixels
    requires forall other | other != field :: Get(f, other) == Get(g, other)
    ensures Fnv1a64(Serialized(f)) != Fnv1a64(Serialized(g))
  {
    hide LittleEndian, DifferAt, Fnv1a64;
    var a, b := Get(f, field), Get(g, field);
    var generation, sequence := LittleEndian(f.id.generation, 8), LittleEndian(f.id.sequence, 8);
    var width, height := LittleEndian(f.layout.width, 4), LittleEndian(f.layout.height, 4);
    match field
    case Generation =>
      assert Get(f, Sequence) == Get(g, Sequence) && Get(f, Width) == Get(g, Width) && Get(f, Height) == Get(g, Height);
      FieldByteChangesHash([], a, b, 8, i, sequence + width + height + f.pixels);
      assert Serialized(f) == [] + LittleEndian(a, 8) + (sequence + width + height + f.pixels);
      assert Serialized(g) == [] + LittleEndian(b, 8) + (sequence + width + height + f.pixels);
    case Sequence =>
      assert Get(f, Generation) == Get(g, Generation) && Get(f, Width) == Get(g, Width) && Get(f, Height) == Get(g, Height);
      FieldByteChangesHash(generation, a, b, 8, i, width + height + f.pixels);
      assert Serialized(f) == generation + LittleEndian(a, 8) + (width + height + f.pixels);
      assert Serialized(g) == generation + LittleEndian(b, 8) + (width + height + f.pixels);
    case Width =>
      assert Get(f, Generation) == Get(g, Generation) && Get(f, Sequence) == Get(g, Sequence) && Get(f, Height) == Get(g, Height);
      FieldByteChangesHash(generation + sequence, a, b, 4, i, height + f.pixels);
      assert Serialized(f) == generation + sequence + LittleEndian(a, 4) + (height + f.pixels);
      assert Serialized(g) == generation + sequence + LittleEndian(b, 4) + (height + f.pixels);
    case Height =>
      assert Get(f, Generation) == Get(g, Generation) && Get(f, Sequence) == Get(g, Sequence) && Get(f, Width) == Get(g, Width);
      FieldByteChangesHash(generation + sequence + width, a, b, 4, i, f.pixels);
  }

  /** Changing one pixel byte always changes the checksum. */
  lemma PixelByteChangesChecksum(frame: Frame, i: nat, b: bv8)
    requires i < |frame.pixels| && frame.pixels[i] != b
    ensures Fnv1a64(Serialized(frame.(pixels := frame.pixels[i := b]))) != Fnv1a64(Serialized(frame))
  {
    hide Fold, LittleEndian;
    var other := frame.(pixels := frame.pixels[i := b]);
    assert Serialized(other) == Serialized(frame)[24 + i := b];
    OneByteNeverCollides(FNV_OFFSET, Serialized(frame), 24 + i, b);
  }
}
