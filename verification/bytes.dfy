/**
 * Bytes and the fixed-width little-endian integers the Prefetch layout is
 * made of. A byte is an `int` in 0..255; a width-`w` little-endian field is
 * decoded to a natural number below 256^w, and 32-bit `int` fields are then
 * reinterpreted as two's complement.
 */
module Bytes {

  type byte = x: int | 0 <= x < 0x100

  /** 256 to the power `w`: the number of distinct `w`-byte values. */
  function Pow256(w: nat): (r: nat)
    ensures r >= 1
  {
    if w == 0 then 1 else 0x100 * Pow256(w - 1)
  }

  const TwoTo32: int := 0x1_0000_0000
  const TwoTo31: int := 0x8000_0000

  /** The unsigned value of `bs` read least significant byte first. */
  function LeDecode(bs: seq<byte>): (n: nat)
    ensures n < Pow256(|bs|)
  {
    if |bs| == 0 then 0
    else
      var rest := LeDecode(bs[1..]);
      assert rest <= Pow256(|bs| - 1) - 1;
      bs[0] + 0x100 * rest
  }

  /** The `w`-byte little-endian representation of `n`. */
  function LeEncode(n: nat, w: nat): (bs: seq<byte>)
    requires n < Pow256(w)
    ensures |bs| == w
  {
    if w == 0 then []
    else [n % 0x100] + LeEncode(n / 0x100, w - 1)
  }

  /** Encoding then decoding gives the number back. */
  lemma {:induction false} DecodeEncode(n: nat, w: nat)
    requires n < Pow256(w)
    ensures LeDecode(LeEncode(n, w)) == n
  {
    if w > 0 {
      var bs := LeEncode(n, w);
      assert bs[1..] == LeEncode(n / 0x100, w - 1);
      DecodeEncode(n / 0x100, w - 1);
    }
  }

  /** Decoding then re-encoding at the same width gives the bytes back: the
      decoded value determines every byte of the field. */
  lemma {:induction false} EncodeDecode(bs: seq<byte>)
    ensures LeEncode(LeDecode(bs), |bs|) == bs
  {
    if |bs| > 0 {
      var n := LeDecode(bs);
      var rest := LeDecode(bs[1..]);
      assert n % 0x100 == bs[0] && n / 0x100 == rest;
      EncodeDecode(bs[1..]);
    }
  }

  /** Two byte strings of the same width decode equally exactly when they are equal. */
  lemma DecodeInjective(a: seq<byte>, b: seq<byte>)
    requires |a| == |b|
    ensures LeDecode(a) == LeDecode(b) <==> a == b
  {
    if LeDecode(a) == LeDecode(b) {
      EncodeDecode(a);
      EncodeDecode(b);
    }
  }

  /** The two's complement reading of a 32-bit pattern, as a C++ `int`. */
  function ToInt32(u: nat): (i: int)
    requires u < TwoTo32
    ensures -TwoTo31 <= i < TwoTo31
    ensures (u - i) % TwoTo32 == 0
    ensures 0 <= i <==> u < TwoTo31
  {
    if u < TwoTo31 then u else u - TwoTo32
  }

  /** The 32-bit pattern that stores the `int` value `i`. */
  function FromInt32(i: int): (u: nat)
    requires -TwoTo31 <= i < TwoTo31
    ensures u < TwoTo32
    ensures (u - i) % TwoTo32 == 0
  {
    if i < 0 then i + TwoTo32 else i
  }

  /** The reinterpretation is a bijection between 32-bit patterns and `int` values. */
  lemma Int32RoundTrip(u: nat, i: int)
    requires u < TwoTo32 && -TwoTo31 <= i < TwoTo31
    ensures FromInt32(ToInt32(u)) == u
    ensures ToInt32(FromInt32(i)) == i
  {
  }

  /** Concrete decodes used by the header: 'M','A','M' little-endian. */
  lemma LeDecodeFour(bs: seq<byte>)
    requires |bs| == 4
    ensures LeDecode(bs) == bs[0] as int + 0x100 * (bs[1] as int) + 0x1_0000 * (bs[2] as int) + 0x100_0000 * (bs[3] as int)
  {
    var s1, s2, s3 := bs[1..], bs[2..], bs[3..];
    assert s1[1..] == s2 && s2[1..] == s3 && s3[1..] == [];
    assert LeDecode(s3) == bs[3];
    assert LeDecode(s2) == bs[2] + 0x100 * LeDecode(s3);
    assert LeDecode(s1) == bs[1] + 0x100 * LeDecode(s2);
  }

  lemma LeDecodeTwo(bs: seq<byte>)
    requires |bs| == 2
    ensures LeDecode(bs) == bs[0] as int + 0x100 * (bs[1] as int)
  {
    assert bs[1..][1..] == [];
  }
}
