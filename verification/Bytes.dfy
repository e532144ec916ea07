/** Bytes, fixed-width integers and the big-endian loads and stores of mpack-common.h. */
module Bytes {

  type u8 = x: int | 0 <= x < 0x100
  type u16 = x: int | 0 <= x < 0x1_0000
  type u32 = x: int | 0 <= x < 0x1_0000_0000
  type u64 = x: int | 0 <= x < 0x1_0000_0000_0000_0000
  type i8 = x: int | -0x80 <= x < 0x80
  type i16 = x: int | -0x8000 <= x < 0x8000
  type i32 = x: int | -0x8000_0000 <= x < 0x8000_0000
  type i64 = x: int | -0x8000_0000_0000_0000 <= x < 0x8000_0000_0000_0000

  type byte = u8
  type bytes = seq<byte>

  /** `size_t` is 32 bits wide on the Cortex-M0 target. */
  const SIZE_MAX: int := 0xFFFF_FFFF

  // Reinterpreting a signed value as unsigned of the same width, and back.

  function U8OfI8(v: i8): u8 { if v < 0 then v + 0x100 else v }
  function U16OfI16(v: i16): u16 { if v < 0 then v + 0x1_0000 else v }
  function U32OfI32(v: i32): u32 { if v < 0 then v + 0x1_0000_0000 else v }
  function U64OfI64(v: i64): u64 { if v < 0 then v + 0x1_0000_0000_0000_0000 else v }

  function I8OfU8(v: u8): i8 { if v < 0x80 then v else v - 0x100 }
  function I16OfU16(v: u16): i16 { if v < 0x8000 then v else v - 0x1_0000 }
  function I32OfU32(v: u32): i32 { if v < 0x8000_0000 then v else v - 0x1_0000_0000 }
  function I64OfU64(v: u64): i64 { if v < 0x8000_0000_0000_0000 then v else v - 0x1_0000_0000_0000_0000 }

  // Big-endian loads from the start of a byte sequence.

  function LoadU16(p: bytes): u16
    requires |p| >= 2
  {
    p[0] as int * 0x100 + p[1] as int
  }

  function LoadU32(p: bytes): u32
    requires |p| >= 4
  {
    p[0] as int * 0x100_0000 + p[1] as int * 0x1_0000 + p[2] as int * 0x100 + p[3] as int
  }

  function LoadU64(p: bytes): u64
    requires |p| >= 8
  {
    LoadU32(p) as int * 0x1_0000_0000 + LoadU32(p[4..]) as int
  }

  // Big-endian stores.

  function StoreU16(v: u16): (p: bytes)
    ensures |p| == 2
  {
    [v / 0x100, v % 0x100]
  }

  function StoreU32(v: u32): (p: bytes)
    ensures |p| == 4
  {
    [v / 0x100_0000, v / 0x1_0000 % 0x100, v / 0x100 % 0x100, v % 0x100]
  }

  function StoreU64(v: u64): (p: bytes)
    ensures |p| == 8
  {
    StoreU32(v / 0x1_0000_0000) + StoreU32(v % 0x1_0000_0000)
  }

  lemma LoadStoreU16(v: u16, tail: bytes)
    ensures LoadU16(StoreU16(v) + tail) == v
  {
  }

  lemma LoadStoreU32(v: u32, tail: bytes)
    ensures LoadU32(StoreU32(v) + tail) == v
  {
    assert v == v / 0x100_0000 * 0x100_0000 + v / 0x1_0000 % 0x100 * 0x1_0000 + v / 0x100 % 0x100 * 0x100 + v % 0x100;
  }

  lemma LoadStoreU64(v: u64, tail: bytes)
    ensures LoadU64(StoreU64(v) + tail) == v
  {
    var hi, lo := v / 0x1_0000_0000, v % 0x1_0000_0000;
    assert StoreU64(v) + tail == StoreU32(hi) + (StoreU32(lo) + tail);
    assert (StoreU64(v) + tail)[4..] == StoreU32(lo) + tail;
    LoadStoreU32(hi, StoreU32(lo) + tail);
    LoadStoreU32(lo, tail);
  }

  // Slicing facts used throughout.

  lemma DropDrop<T>(s: seq<T>, i: nat, j: nat)
    requires i + j <= |s|
    ensures s[i..][j..] == s[i + j..]
  {
  }

  lemma DropOfConcat<T>(a: seq<T>, b: seq<T>)
    ensures (a + b)[|a|..] == b && (a + b)[..|a|] == a
  {
  }
}
