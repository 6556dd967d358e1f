/**
 * Fixed-width integers and the little-endian 32-bit field codec shared by the
 * container records (they are declared packed with little-endian scalar
 * storage order, so every `uint32_t` field is four bytes, low byte first).
 */
module Bytes {

  type uint8 = x: int | 0 <= x < 0x100
  type uint16 = x: int | 0 <= x < 0x1_0000
  type uint32 = x: int | 0 <= x < 0x1_0000_0000

  const TwoTo32: int := 0x1_0000_0000

  datatype Option<T> = None | Some(value: T)

  datatype Result<T, E> = Ok(value: T) | Err(error: E)

  /** The bytes of an ASCII string literal. */
  function AsciiBytes(s: string): (b: seq<uint8>)
    requires forall i :: 0 <= i < |s| ==> s[i] as int < 0x80
    ensures |b| == |s| && forall i :: 0 <= i < |s| ==> b[i] == s[i] as int
  {
    seq(|s|, i requires 0 <= i < |s| => s[i] as int)
  }

  /** 256 to the power k. */
  function Pow256(k: nat): (r: nat)
    ensures r > 0
  {
    if k == 0 then 1 else 0x100 * Pow256(k - 1)
  }

  /** Four bytes, least significant first. */
  function EncodeU32(v: uint32): (r: seq<uint8>)
    ensures |r| == 4
  {
    [v % 0x100, v / 0x100 % 0x100, v / 0x1_0000 % 0x100, v / 0x100_0000]
  }

  function DecodeU32(b: seq<uint8>): (v: uint32)
    requires |b| == 4
  {
    b[0] as int + 0x100 * b[1] as int + 0x1_0000 * b[2] as int + 0x100_0000 * b[3] as int
  }

  /** Byte k of an encoded field is bits 8k..8k+7 of the value: `(v >> 8k) & 0xFF`. */
  lemma EncodeU32ByteIsShiftedField(v: uint32, k: nat)
    requires k < 4
    ensures EncodeU32(v)[k] == (v / Pow256(k)) % 0x100
  {
    assert Pow256(1) == 0x100 by { assert Pow256(0) == 1; }
    assert Pow256(2) == 0x1_0000;
    assert Pow256(3) == 0x100_0000;
  }

  lemma DecodeEncodeU32(v: uint32)
    ensures DecodeU32(EncodeU32(v)) == v
  {
    var q1, q2, q3 := v / 0x100, v / 0x1_0000, v / 0x100_0000;
    assert v == v % 0x100 + 0x100 * q1;
    assert q1 == q1 % 0x100 + 0x100 * q2;
    assert q2 == q2 % 0x100 + 0x100 * q3;
  }

  lemma EncodeDecodeU32(b: seq<uint8>)
    requires |b| == 4
    ensures EncodeU32(DecodeU32(b)) == b
  {
    var v := DecodeU32(b);
    var hi := b[1] as int + 0x100 * b[2] as int + 0x1_0000 * b[3] as int;
    assert v == b[0] + 0x100 * hi;
    assert v % 0x100 == b[0] && v / 0x100 == hi;
    var hi2 := b[2] as int + 0x100 * b[3] as int;
    assert hi == b[1] + 0x100 * hi2;
    assert v / 0x1_0000 == hi / 0x100 == hi2;
    assert v / 0x100_0000 == hi2 / 0x100 == b[3];
  }

  /** The field codec is injective: distinct values never share an encoding. */
  lemma EncodeU32Injective(v: uint32, w: uint32)
    requires EncodeU32(v) == EncodeU32(w)
    ensures v == w
  {
    DecodeEncodeU32(v);
    DecodeEncodeU32(w);
  }
}
