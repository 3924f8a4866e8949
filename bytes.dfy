/**
 * Bytes, the fixed-width little-endian integer encoding bincode uses for
 * `usize`/`u64`, and the hexadecimal alphabet of the `hex` crate.
 */
module Bytes {

  type byte = x: int | 0 <= x < 256

  /** 256^width: the number of values a `width`-byte integer can hold. */
  function Radix(width: nat): (r: nat)
    ensures r >= 1
  {
    if width == 0 then 1 else 256 * Radix(width - 1)
  }

  const U64Bound: nat := 0x1_0000_0000_0000_0000
  const U32Bound: nat := 0x1_0000_0000

  /** The `width` low bytes of `n`, least significant first. */
  function EncodeLittleEndian(n: nat, width: nat): (bs: seq<byte>)
    requires n < Radix(width)
    ensures |bs| == width
  {
    if width == 0 then [] else [n % 256] + EncodeLittleEndian(n / 256, width - 1)
  }

  function DecodeLittleEndian(bs: seq<byte>): (n: nat)
    ensures n < Radix(|bs|)
  {
    if |bs| == 0 then 0 else bs[0] + 256 * DecodeLittleEndian(bs[1..])
  }

  lemma {:induction false} DecodeEncode(n: nat, width: nat)
    requires n < Radix(width)
    ensures DecodeLittleEndian(EncodeLittleEndian(n, width)) == n
  {
    if width != 0 {
      var bs := EncodeLittleEndian(n, width);
      assert bs[1..] == EncodeLittleEndian(n / 256, width - 1);
      DecodeEncode(n / 256, width - 1);
    }
  }

  lemma {:induction false} EncodeDecode(bs: seq<byte>)
    ensures EncodeLittleEndian(DecodeLittleEndian(bs), |bs|) == bs
  {
    if |bs| != 0 {
      EncodeDecode(bs[1..]);
      var n := DecodeLittleEndian(bs);
      assert n % 256 == bs[0];
      assert n / 256 == DecodeLittleEndian(bs[1..]);
      assert bs == [bs[0]] + bs[1..];
    }
  }

  lemma Radix8()
    ensures Radix(8) == U64Bound
  {
  }

  /** The characters `hex::decode` accepts, in either case. */
  predicate IsHexDigit(c: char)
  {
    ('0' <= c <= '9') || ('a' <= c <= 'f') || ('A' <= c <= 'F')
  }

  /** `hex::decode(s)` succeeds iff `s` has even length and only hex digits. */
  predicate IsHex(s: string)
  {
    |s| % 2 == 0 && forall i :: 0 <= i < |s| ==> IsHexDigit(s[i])
  }

  function HexValue(c: char): (v: nat)
    requires IsHexDigit(c)
    ensures v < 16
  {
    if '0' <= c <= '9' then (c as int) - ('0' as int)
    else if 'a' <= c <= 'f' then (c as int) - ('a' as int) + 10
    else (c as int) - ('A' as int) + 10
  }

  /** The bytes `hex::decode` produces: two digits per byte, high nibble first. */
  function HexDecode(s: string): (bs: seq<byte>)
    requires IsHex(s)
    ensures |bs| == |s| / 2
  {
    if |s| == 0 then []
    else [16 * HexValue(s[0]) + HexValue(s[1])] + HexDecode(s[2..])
  }
}
