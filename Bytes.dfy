/** Bytes and the fixed-width integer fields of the on-disk records.
    Python's struct module with the "=" prefix uses the host byte order with
    standard sizes and no padding; this model fixes that order to
    little-endian. Field widths: 'i' = 4 bytes, 'h' = 2 bytes, 'b' = 1 byte,
    all two's complement. */
module Bytes {

  type byte = x: int | 0 <= x < 256

  /** 256^n */
  function Pow256(n: nat): (r: nat)
    ensures r >= 1
    ensures n >= 1 ==> r % 2 == 0 && r >= 256
  {
    if n == 0 then 1 else 256 * Pow256(n - 1)
  }

  /** n zero bytes (bytearray(n)). */
  function Zeros(n: nat): (s: seq<byte>)
    ensures |s| == n
    ensures forall i :: 0 <= i < n ==> s[i] == 0
  {
    seq(n, _ => 0)
  }

  /** The low n bytes of x, least significant first. */
  function EncodeUnsigned(x: nat, n: nat): (s: seq<byte>)
    ensures |s| == n
  {
    if n == 0 then [] else [x % 256] + EncodeUnsigned(x / 256, n - 1)
  }

  /** The little-endian value of s. */
  function DecodeUnsigned(s: seq<byte>): (x: nat)
    ensures x < Pow256(|s|)
  {
    if s == [] then 0 else s[0] + 256 * DecodeUnsigned(s[1..])
  }

  lemma {:induction false} DecodeEncodeUnsigned(x: nat, n: nat)
    requires x < Pow256(n)
    ensures DecodeUnsigned(EncodeUnsigned(x, n)) == x
  {
    if n > 0 {
      var s := EncodeUnsigned(x, n);
      assert s[1..] == EncodeUnsigned(x / 256, n - 1);
      DecodeEncodeUnsigned(x / 256, n - 1);
    }
  }

  lemma {:induction false} EncodeDecodeUnsigned(s: seq<byte>)
    ensures EncodeUnsigned(DecodeUnsigned(s), |s|) == s
  {
    if s != [] {
      var d := DecodeUnsigned(s[1..]);
      var x := s[0] + 256 * d;
      assert x % 256 == s[0] && x / 256 == d;
      EncodeDecodeUnsigned(s[1..]);
    }
  }

  /** x fits an n-byte two's complement field. */
  predicate InSigned(x: int, n: nat) {
    -(Pow256(n) / 2) <= x < Pow256(n) / 2
  }

  function EncodeSigned(x: int, n: nat): (s: seq<byte>)
    requires InSigned(x, n)
    ensures |s| == n
  {
    EncodeUnsigned(if x >= 0 then x else x + Pow256(n), n)
  }

  function DecodeSigned(s: seq<byte>): (x: int)
    requires |s| >= 1
    ensures InSigned(x, |s|)
  {
    var u := DecodeUnsigned(s);
    if u >= Pow256(|s|) / 2 then u - Pow256(|s|) else u
  }

  /** struct.unpack of a struct.pack restores an in-range value. */
  lemma DecodeEncodeSigned(x: int, n: nat)
    requires n >= 1 && InSigned(x, n)
    ensures DecodeSigned(EncodeSigned(x, n)) == x
  {
    DecodeEncodeUnsigned(if x >= 0 then x else x + Pow256(n), n);
  }

  /** ... and every n-byte field is the encoding of the value it decodes to. */
  lemma EncodeDecodeSigned(s: seq<byte>)
    requires |s| >= 1
    ensures EncodeSigned(DecodeSigned(s), |s|) == s
  {
    EncodeDecodeUnsigned(s);
  }

  // The struct format letters used by the records.

  predicate IsI32(x: int) { InSigned(x, 4) }
  predicate IsI16(x: int) { InSigned(x, 2) }
  predicate IsI8(x: int) { InSigned(x, 1) }

  lemma SignedRanges()
    ensures Pow256(1) == 0x100 && Pow256(2) == 0x1_0000 && Pow256(4) == 0x1_0000_0000
  {
  }
}
