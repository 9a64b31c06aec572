/** Bytes, little-endian words and bit strings, shared by every component. */
module Bytes {

  type byte = b: int | 0 <= b < 256

  const MAX_U32 := 0xFFFF_FFFF

  datatype Option<+T> = None | Some(value: T)

  datatype Result<+T, +E> = Ok(value: T) | Err(error: E)

  /** `struct.unpack_from("<H", data, offset)`. */
  function U16(data: seq<byte>, offset: int): (v: int)
    requires 0 <= offset <= |data| - 2
    ensures 0 <= v < 0x1_0000
  {
    data[offset] + data[offset + 1] as int * 0x100
  }

  /** `struct.unpack_from("<I", data, offset)`. */
  function U32(data: seq<byte>, offset: int): (v: int)
    requires 0 <= offset <= |data| - 4
    ensures 0 <= v <= MAX_U32
  {
    data[offset] as int + data[offset + 1] as int * 0x100
    + data[offset + 2] as int * 0x1_0000 + data[offset + 3] as int * 0x100_0000
  }

  /** `struct.pack("<I", v)`. */
  function PackU32(v: int): (data: seq<byte>)
    requires 0 <= v <= MAX_U32
    ensures |data| == 4
  {
    [v % 0x100, v / 0x100 % 0x100, v / 0x1_0000 % 0x100, v / 0x100_0000]
  }

  lemma UnpackPacked(v: int)
    requires 0 <= v <= MAX_U32
    ensures U32(PackU32(v), 0) == v
  {
    assert v / 0x100 == v / 0x100 % 0x100 + 0x100 * (v / 0x1_0000);
    assert v / 0x1_0000 == v / 0x1_0000 % 0x100 + 0x100 * (v / 0x100_0000);
  }

  lemma PackUnpacked(data: seq<byte>, offset: int)
    requires 0 <= offset <= |data| - 4
    ensures PackU32(U32(data, offset)) == data[offset..offset + 4]
  {
    var b: int, c: int, d: int := data[offset + 1], data[offset + 2], data[offset + 3];
    var v := U32(data, offset);
    assert v == data[offset] as int + 0x100 * (b + 0x100 * c + 0x1_0000 * d);
    assert v / 0x100 == b + 0x100 * c + 0x1_0000 * d;
    assert v / 0x1_0000 == c + 0x100 * d;
    assert v / 0x100_0000 == d;
  }

  /** A field read from a slice is the field read from the whole. */
  lemma U32OfSlice(data: seq<byte>, start: int, end: int, offset: int)
    requires 0 <= start <= end <= |data| && 0 <= offset <= end - start - 4
    ensures U32(data[start..end], offset) == U32(data, start + offset)
  {
  }

  /** The low `n` bits of `v`, least significant first. */
  function Bits(v: nat, n: nat): (bits: seq<bool>)
    ensures |bits| == n
  {
    if n == 0 then [] else [v % 2 == 1] + Bits(v / 2, n - 1)
  }

  function Number(bits: seq<bool>): nat {
    if bits == [] then 0 else (if bits[0] then 1 else 0) + 2 * Number(bits[1..])
  }

  lemma {:induction false} BitsOfNumber(bits: seq<bool>)
    ensures Bits(Number(bits), |bits|) == bits
  {
    if bits != [] {
      BitsOfNumber(bits[1..]);
    }
  }

  function Power2(n: nat): nat {
    if n == 0 then 1 else 2 * Power2(n - 1)
  }

  lemma {:induction false} NumberBound(bits: seq<bool>)
    ensures Number(bits) < Power2(|bits|)
  {
    if bits != [] {
      NumberBound(bits[1..]);
    }
  }

  lemma {:induction false} BitsInjective(v: nat, w: nat, n: nat)
    requires v < Power2(n) && w < Power2(n) && Bits(v, n) == Bits(w, n)
    ensures v == w
  {
    if n > 0 {
      assert Bits(v, n)[0] == Bits(w, n)[0];
      assert Bits(v, n)[1..] == Bits(v / 2, n - 1) && Bits(w, n)[1..] == Bits(w / 2, n - 1);
      BitsInjective(v / 2, w / 2, n - 1);
    }
  }
}
