/** Fixed-width integers and their little-endian byte encodings.

    The BMP headers store every field least-significant byte first, with
    no alignment bytes between fields. This module gives the byte type,
    the integer widths the headers use, and the codecs between them.
 */
module Bytes {

  type Byte = b: int | 0 <= b < 0x100
  type U16 = x: int | 0 <= x < 0x1_0000
  type U32 = x: int | 0 <= x < 0x1_0000_0000
  type I32 = x: int | -0x8000_0000 <= x < 0x8000_0000

  /** 256 to the power n: one more than the largest value n bytes can hold. */
  function Pow256(n: nat): (p: nat)
    ensures p >= 1
  {
    if n == 0 then 1 else 0x100 * Pow256(n - 1)
  }

  /** The unsigned value of a little-endian byte string: b[0] is the least
      significant byte. */
  function DecodeLE(b: seq<Byte>): (v: nat)
    ensures v < Pow256(|b|)
  {
    if |b| == 0 then 0 else b[0] + 0x100 * DecodeLE(b[1..])
  }

  /** The n-byte little-endian encoding of v; decoding it gives v back. */
  function EncodeLE(v: nat, n: nat): (b: seq<Byte>)
    requires v < Pow256(n)
    ensures |b| == n
    ensures DecodeLE(b) == v
  {
    if n == 0 then []
    else
      var rest := EncodeLE(v / 0x100, n - 1);
      assert ([v % 0x100] + rest)[1..] == rest;
      [v % 0x100] + rest
  }

  /** Splitting a byte into its low part and the rest of the number. */
  lemma DivModByte(lo: int, hi: int)
    requires 0 <= lo < 0x100
    ensures (lo + 0x100 * hi) % 0x100 == lo
    ensures (lo + 0x100 * hi) / 0x100 == hi
  {
    var q := (lo + 0x100 * hi) / 0x100;
    var r := (lo + 0x100 * hi) % 0x100;
    assert 0x100 * (q - hi) == lo - r;
  }

  /** Re-encoding a decoded byte string at its own width reproduces it. */
  lemma {:induction false} EncodeDecodeLE(b: seq<Byte>)
    ensures EncodeLE(DecodeLE(b), |b|) == b
  {
    if |b| > 0 {
      DivModByte(b[0], DecodeLE(b[1..]));
      EncodeDecodeLE(b[1..]);
      assert b == [b[0]] + b[1..];
    }
  }

  /** A four-byte little-endian string weighs its bytes by 1, 2^8, 2^16, 2^24. */
  lemma DecodeLE4(b: seq<Byte>)
    requires |b| == 4
    ensures DecodeLE(b) == b[0] as int + 0x100 * (b[1] as int) + 0x1_0000 * (b[2] as int) + 0x100_0000 * (b[3] as int)
  {
    assert b[1..][1..] == b[2..];
    assert b[2..][1..] == b[3..];
    assert DecodeLE(b[3..]) == b[3] by {
      assert b[3..][1..] == [];
    }
    assert DecodeLE(b[2..]) == b[2] as int + 0x100 * (b[3] as int);
    assert DecodeLE(b[1..]) == b[1] as int + 0x100 * (b[2] as int + 0x100 * (b[3] as int));
  }

  function DecodeU16(b: seq<Byte>): (v: U16)
    requires |b| == 2
  {
    DecodeLE(b)
  }

  function EncodeU16(v: U16): (b: seq<Byte>)
    ensures |b| == 2
    ensures DecodeU16(b) == v
  {
    EncodeLE(v, 2)
  }

  function DecodeU32(b: seq<Byte>): (v: U32)
    requires |b| == 4
  {
    DecodeLE(b)
  }

  function EncodeU32(v: U32): (b: seq<Byte>)
    ensures |b| == 4
    ensures DecodeU32(b) == v
  {
    EncodeLE(v, 4)
  }

  /** A signed 32-bit field read as two's complement: the unsigned value,
      less 2^32 when the top bit is set. */
  function DecodeI32(b: seq<Byte>): (v: I32)
    requires |b| == 4
  {
    var u := DecodeLE(b);
    if u < 0x8000_0000 then u else u - 0x1_0000_0000
  }

  function EncodeI32(v: I32): (b: seq<Byte>)
    ensures |b| == 4
    ensures DecodeI32(b) == v
  {
    EncodeLE(if v >= 0 then v else v + 0x1_0000_0000, 4)
  }

  /** The sign of a decoded signed field is the top bit of its last byte. */
  lemma DecodeI32Sign(b: seq<Byte>)
    requires |b| == 4
    ensures DecodeI32(b) < 0 <==> b[3] >= 0x80
  {
    DecodeLE4(b);
  }

  lemma EncodeDecodeU16(b: seq<Byte>)
    requires |b| == 2
    ensures EncodeU16(DecodeU16(b)) == b
  {
    EncodeDecodeLE(b);
  }

  lemma EncodeDecodeU32(b: seq<Byte>)
    requires |b| == 4
    ensures EncodeU32(DecodeU32(b)) == b
  {
    EncodeDecodeLE(b);
  }

  lemma EncodeDecodeI32(b: seq<Byte>)
    requires |b| == 4
    ensures EncodeI32(DecodeI32(b)) == b
  {
    EncodeDecodeLE(b);
  }
}
