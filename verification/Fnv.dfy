/** FNV-1a with 64 bits (draft-eastlake-fnv, section 2). Arithmetic wraps, so states are bit vectors. */
module Fnv {

  const FNV_OFFSET: bv64 := 0xcbf2_9ce4_8422_2325

  /** Multiplication by the FNV prime, modulo 2^64. */
  function TimesPrime(x: bv64): (y: bv64) {
    x * 0x0000_0100_0000_01b3
  }

  /** Multiplication by the inverse of the FNV prime, modulo 2^64. */
  function TimesInverse(x: bv64): (y: bv64) {
    x * 0xce96_5057_aff6_957b
  }

  function Mix(h: bv64, b: bv8): (h': bv64) {
    TimesPrime(h ^ b as bv64)
  }

  function Unmix(h: bv64, b: bv8): (h': bv64) {
    TimesInverse(h) ^ b as bv64
  }

  function Fold(h: bv64, bytes: seq<bv8>): (h': bv64)
    decreases |bytes|
  {
    if bytes == [] then h else Fold(Mix(h, bytes[0]), bytes[1..])
  }

  function Unfold(h: bv64, bytes: seq<bv8>): (h': bv64) {
    if bytes == [] then h else Unmix(Unfold(h, bytes[1..]), bytes[0])
  }

  /** The checksum loop, from any state. */
  method MixBytes(start: bv64, bytes: seq<bv8>) returns (checksum: bv64)
    ensures checksum == Fold(start, bytes)
  {
    hide TimesPrime;
    checksum := start;
    for i := 0 to |bytes|
      invariant Fold(start, bytes) == Fold(checksum, bytes[i..])
    {
      checksum := TimesPrime(checksum ^ bytes[i] as bv64);
      assert bytes[i..][1..] == bytes[i + 1..];
    }
  }

  /** `fnv1a64`, a pure fold in the source. */
  function Fnv1a64(bytes: seq<bv8>): (checksum: bv64) {
    Fold(FNV_OFFSET, bytes)
  }

  /** Values of the hash that draft-eastlake-fnv lists: of nothing, of "a" and of "fo". */
  lemma KnownAnswers()
    ensures Fnv1a64([]) == 0xcbf2_9ce4_8422_2325
    ensures Fnv1a64([0x61]) == 0xaf63_dc4c_8601_ec8c
    ensures Fnv1a64([0x66, 0x6f]) == 0x0898_5907_b541_d342
  {
    assert Fold(FNV_OFFSET, [0x61]) == Fold(Mix(FNV_OFFSET, 0x61), []);
    var fo: seq<bv8> := [0x66, 0x6f];
    assert fo[1..] == [0x6f];
    assert Fold(FNV_OFFSET, fo) == Fold(Mix(FNV_OFFSET, 0x66), [0x6f]) == Fold(Mix(Mix(FNV_OFFSET, 0x66), 0x6f), []);
  }

  lemma PrimeInvertible(x: bv64)
    ensures TimesInverse(TimesPrime(x)) == x
    ensures TimesPrime(TimesInverse(x)) == x
  {
    assert TimesInverse(x * 0x0000_0100_0000_01b3) == x;
    assert TimesPrime(x * 0xce96_5057_aff6_957b) == x;
  }

  lemma XorTwice(x: bv64, b: bv64)
    ensures (x ^ b) ^ b == x
  {
  }

  lemma MixInverse(h: bv64, b: bv8)
    ensures Unmix(Mix(h, b), b) == h
    ensures Mix(Unmix(h, b), b) == h
  {
    hide TimesPrime, TimesInverse;
    XorTwice(h, b as bv64);
    XorTwice(TimesInverse(h), b as bv64);
    PrimeInvertible(h ^ b as bv64);
    PrimeInvertible(h);
  }

  /** For every byte string the fold is a bijection on the start state. */
  lemma {:induction false} FoldBijective(h: bv64, bytes: seq<bv8>)
    ensures Unfold(Fold(h, bytes), bytes) == h
    ensures Fold(Unfold(h, bytes), bytes) == h
    decreases |bytes|
  {
    hide Mix, Unmix;
    if bytes != [] {
      FoldBijective(Mix(h, bytes[0]), bytes[1..]);
      MixInverse(h, bytes[0]);
      FoldBijective(h, bytes[1..]);
      MixInverse(Unfold(h, bytes[1..]), bytes[0]);
    }
  }

  lemma XorInjective(x: bv64, a: bv8, b: bv8)
    requires x ^ a as bv64 == x ^ b as bv64
    ensures a == b
  {
    XorTwice(a as bv64, x);
    XorTwice(b as bv64, x);
  }

  lemma MixInjective(h: bv64, a: bv8, b: bv8)
    requires Mix(h, a) == Mix(h, b)
    ensures a == b
  {
    hide TimesPrime, TimesInverse;
    PrimeInvertible(h ^ a as bv64);
    PrimeInvertible(h ^ b as bv64);
    XorInjective(h, a, b);
  }

  lemma {:induction false} FoldConcat(h: bv64, s: seq<bv8>, t: seq<bv8>)
    ensures Fold(h, s + t) == Fold(Fold(h, s), t)
    decreases |s|
  {
    if s == [] {
      assert s + t == t;
    } else {
      assert (s + t)[1..] == s[1..] + t;
      FoldConcat(Mix(h, s[0]), s[1..], t);
    }
  }

  /** Byte strings of one length that differ in exactly one position never collide. */
  lemma OneByteNeverCollides(h: bv64, s: seq<bv8>, i: nat, b: bv8)
    requires i < |s| && s[i] != b
    ensures Fold(h, s) != Fold(h, s[i := b])
  {
    hide Mix, Unmix;
    var before, after := s[..i], s[i + 1..];
    var state := Fold(h, before);
    assert s == before + ([s[i]] + after);
    assert s[i := b] == before + ([b] + after);
    FoldConcat(h, before, [s[i]] + after);
    FoldConcat(h, before, [b] + after);
    assert ([s[i]] + after)[1..] == after && ([b] + after)[1..] == after;
    FoldBijective(Mix(state, s[i]), after);
    FoldBijective(Mix(state, b), after);
    if Mix(state, s[i]) == Mix(state, b) {
      MixInjective(state, s[i], b);
    }
  }
}
