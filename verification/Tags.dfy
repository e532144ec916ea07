/** MessagePack object headers: the tag type, the header printer of mpack-writer.c and the header
    parser of mpack-reader.c. */
module Tags {
  import opened Bytes

  /** mpack_tag_t. Floats are carried as bit patterns. */
  datatype Tag =
    | Missing
    | Nil
    | Bool(b: bool)
    | Int(i: i64)
    | Uint(u: u64)
    | Float(f: u32)
    | Double(d: u64)
    | Str(l: u32)
    | Bin(l: u32)
    | Ext(exttype: i8, l: u32)
    | Array(n: u32)
    | Map(n: u32)

  /** The number a tag holds, whichever of the two integer types it has. */
  function IntegerOf(t: Tag): int
    requires t.Int? || t.Uint?
  {
    if t.Int? then t.i else t.u
  }

  // ---------------------------------------------------------------------------------------------
  // Encoders. Each precondition is the assertion the C encoder makes about its argument.

  function EncodeFixuint(v: u8): bytes
    requires v <= 127
  { [v] }

  function EncodeU8(v: u8): bytes
    requires v > 127
  { [0xcc, v] }

  function EncodeU16(v: u16): bytes
    requires v > 0xFF
  { [0xcd] + StoreU16(v) }

  function EncodeU32(v: u32): bytes
    requires v > 0xFFFF
  { [0xce] + StoreU32(v) }

  function EncodeU64(v: u64): bytes
    requires v > 0xFFFF_FFFF
  { [0xcf] + StoreU64(v) }

  function EncodeFixint(v: i8): bytes
    requires v >= -32
  { [U8OfI8(v)] }

  function EncodeI8(v: i8): bytes
    requires v < -32
  { [0xd0, U8OfI8(v)] }

  function EncodeI16(v: i16): bytes
    requires v < -0x80
  { [0xd1] + StoreU16(U16OfI16(v)) }

  function EncodeI32(v: i32): bytes
    requires v < -0x8000
  { [0xd2] + StoreU32(U32OfI32(v)) }

  function EncodeI64(v: i64): bytes
    requires v < -0x8000_0000
  { [0xd3] + StoreU64(U64OfI64(v)) }

  function EncodeFloat(v: u32): bytes { [0xca] + StoreU32(v) }

  function EncodeDouble(v: u64): bytes { [0xcb] + StoreU64(v) }

  function EncodeFixarray(n: u8): bytes
    requires n <= 15
  { [0x90 + n as int] }

  function EncodeArray16(n: u16): bytes
    requires n > 15
  { [0xdc] + StoreU16(n) }

  function EncodeArray32(n: u32): bytes
    requires n > 0xFFFF
  { [0xdd] + StoreU32(n) }

  function EncodeFixmap(n: u8): bytes
    requires n <= 15
  { [0x80 + n as int] }

  function EncodeMap16(n: u16): bytes
    requires n > 15
  { [0xde] + StoreU16(n) }

  function EncodeMap32(n: u32): bytes
    requires n > 0xFFFF
  { [0xdf] + StoreU32(n) }

  function EncodeFixstr(n: u8): bytes
    requires n <= 31
  { [0xa0 + n as int] }

  function EncodeStr8(n: u8): bytes
    requires n > 31
  { [0xd9, n] }

  function EncodeStr16(n: u16): bytes
    requires n > 31
  { [0xda] + StoreU16(n) }

  function EncodeStr32(n: u32): bytes
    requires n > 0xFFFF
  { [0xdb] + StoreU32(n) }

  function EncodeBin8(n: u8): bytes { [0xc4, n] }

  function EncodeBin16(n: u16): bytes
    requires n > 0xFF
  { [0xc5] + StoreU16(n) }

  function EncodeBin32(n: u32): bytes
    requires n > 0xFFFF
  { [0xc6] + StoreU32(n) }

  function EncodeFixext(op: u8, exttype: i8): bytes
    requires 0xd4 <= op <= 0xd8
  { [op, U8OfI8(exttype)] }

  function EncodeExt8(exttype: i8, n: u8): bytes
    requires n !in {1, 2, 4, 8, 16}
  { [0xc7, n, U8OfI8(exttype)] }

  function EncodeExt16(exttype: i8, n: u16): bytes
    requires n > 0xFF
  { [0xc8] + StoreU16(n) + [U8OfI8(exttype)] }

  function EncodeExt32(exttype: i8, n: u32): bytes
    requires n > 0xFFFF
  { [0xc9] + StoreU32(n) + [U8OfI8(exttype)] }

  // ---------------------------------------------------------------------------------------------
  // Which encoder each write function picks.

  function WriteU8(v: u8): bytes {
    if v <= 127 then EncodeFixuint(v) else EncodeU8(v)
  }

  function WriteU16(v: u16): bytes {
    if v <= 127 then EncodeFixuint(v)
    else if v <= 0xFF then EncodeU8(v)
    else EncodeU16(v)
  }

  function WriteU32(v: u32): bytes {
    if v <= 127 then EncodeFixuint(v)
    else if v <= 0xFF then EncodeU8(v)
    else if v <= 0xFFFF then EncodeU16(v)
    else EncodeU32(v)
  }

  function WriteU64(v: u64): bytes {
    if v <= 127 then EncodeFixuint(v)
    else if v <= 0xFF then EncodeU8(v)
    else if v <= 0xFFFF then EncodeU16(v)
    else if v <= 0xFFFF_FFFF then EncodeU32(v)
    else EncodeU64(v)
  }

  function WriteI8(v: i8): bytes {
    if v >= -32 then EncodeFixint(v) else EncodeI8(v)
  }

  function WriteI16(v: i16): bytes {
    if v >= -32 then
      if v <= 127 then EncodeFixint(v)
      else if v <= 0xFF then EncodeU8(v)
      else EncodeU16(v)
    else if v >= -0x80 then EncodeI8(v)
    else EncodeI16(v)
  }

  function WriteI32(v: i32): bytes {
    if v >= -32 then
      if v <= 127 then EncodeFixint(v)
      else if v <= 0xFF then EncodeU8(v)
      else if v <= 0xFFFF then EncodeU16(v)
      else EncodeU32(v)
    else if v >= -0x80 then EncodeI8(v)
    else if v >= -0x8000 then EncodeI16(v)
    else EncodeI32(v)
  }

  function WriteI64(v: i64): bytes {
    if v >= -32 then
      if v <= 127 then EncodeFixint(v)
      else if v <= 0xFF then EncodeU8(v)
      else if v <= 0xFFFF then EncodeU16(v)
      else if v <= 0xFFFF_FFFF then EncodeU32(v)
      else EncodeU64(v)
    else if v >= -0x80 then EncodeI8(v)
    else if v >= -0x8000 then EncodeI16(v)
    else if v >= -0x8000_0000 then EncodeI32(v)
    else EncodeI64(v)
  }

  function StartArray(n: u32): bytes {
    if n <= 15 then EncodeFixarray(n)
    else if n <= 0xFFFF then EncodeArray16(n)
    else EncodeArray32(n)
  }

  function StartMap(n: u32): bytes {
    if n <= 15 then EncodeFixmap(n)
    else if n <= 0xFFFF then EncodeMap16(n)
    else EncodeMap32(n)
  }

  function StartStr(n: u32): bytes {
    if n <= 31 then EncodeFixstr(n)
    else if n <= 0xFF then EncodeStr8(n)
    else if n <= 0xFFFF then EncodeStr16(n)
    else EncodeStr32(n)
  }

  function StartBin(n: u32): bytes {
    if n <= 0xFF then EncodeBin8(n)
    else if n <= 0xFFFF then EncodeBin16(n)
    else EncodeBin32(n)
  }

  function StartExt(exttype: i8, n: u32): bytes {
    if n == 1 then EncodeFixext(0xd4, exttype)
    else if n == 2 then EncodeFixext(0xd5, exttype)
    else if n == 4 then EncodeFixext(0xd6, exttype)
    else if n == 8 then EncodeFixext(0xd7, exttype)
    else if n == 16 then EncodeFixext(0xd8, exttype)
    else if n <= 0xFF then EncodeExt8(exttype, n)
    else if n <= 0xFFFF then EncodeExt16(exttype, n)
    else EncodeExt32(exttype, n)
  }

  /** mpack_write_tag. The missing tag is a usage error and writes nothing. */
  function EncodeTag(t: Tag): bytes {
    match t
    case Missing => []
    case Nil => [0xc0]
    case Bool(b) => [if b then 0xc3 else 0xc2]
    case Int(i) => WriteI64(i)
    case Uint(u) => WriteU64(u)
    case Float(f) => EncodeFloat(f)
    case Double(d) => EncodeDouble(d)
    case Str(l) => StartStr(l)
    case Bin(l) => StartBin(l)
    case Ext(e, l) => StartExt(e, l)
    case Array(n) => StartArray(n)
    case Map(n) => StartMap(n)
  }

  // ---------------------------------------------------------------------------------------------
  // The header parser.

  datatype Header = Header(tag: Tag, size: nat) | Truncated | Reserved

  /** Bytes in a header that starts with `t`, the first byte included. */
  function HeaderSize(t: byte): (n: nat)
    ensures 1 <= n <= 9
  {
    if t < 0xc4 || t >= 0xe0 then 1
    else if t in {0xc4, 0xcc, 0xd0, 0xd9} then 2
    else if t in {0xc5, 0xcd, 0xd1, 0xda, 0xdc, 0xde} then 3
    else if t in {0xc6, 0xca, 0xce, 0xd2, 0xdb, 0xdd, 0xdf} then 5
    else if t in {0xcb, 0xcf, 0xd3} then 9
    else if t == 0xc7 then 3
    else if t == 0xc8 then 4
    else if t == 0xc9 then 6
    else 2
  }

  /** The tag of a complete header. */
  function TagOf(s: bytes): Tag
    requires s != [] && s[0] != 0xc1 && |s| >= HeaderSize(s[0])
  {
    var t := s[0];
    if t < 0x80 then Uint(t)
    else if t < 0x90 then Map(t - 0x80)
    else if t < 0xa0 then Array(t - 0x90)
    else if t < 0xc0 then Str(t - 0xa0)
    else if t >= 0xe0 then Int(I8OfU8(t))
    else if t < 0xd4 then LowTag(s)
    else HighTag(s)
  }

  function LowTag(s: bytes): Tag
    requires s != [] && 0xc0 <= s[0] < 0xd4 && s[0] != 0xc1 && |s| >= HeaderSize(s[0])
  {
    var t := s[0];
    if t == 0xc0 then Nil
    else if t == 0xc2 then Bool(false)
    else if t == 0xc3 then Bool(true)
    else if t == 0xc4 then Bin(s[1])
    else if t == 0xc5 then Bin(LoadU16(s[1..]))
    else if t == 0xc6 then Bin(LoadU32(s[1..]))
    else if t == 0xc7 then Ext(I8OfU8(s[2]), s[1])
    else if t == 0xc8 then Ext(I8OfU8(s[3]), LoadU16(s[1..]))
    else if t == 0xc9 then Ext(I8OfU8(s[5]), LoadU32(s[1..]))
    else if t == 0xca then Float(LoadU32(s[1..]))
    else if t == 0xcb then Double(LoadU64(s[1..]))
    else if t == 0xcc then Uint(s[1])
    else if t == 0xcd then Uint(LoadU16(s[1..]))
    else if t == 0xce then Uint(LoadU32(s[1..]))
    else if t == 0xcf then Uint(LoadU64(s[1..]))
    else if t == 0xd0 then Int(I8OfU8(s[1]))
    else if t == 0xd1 then Int(I16OfU16(LoadU16(s[1..])))
    else if t == 0xd2 then Int(I32OfU32(LoadU32(s[1..])))
    else Int(I64OfU64(LoadU64(s[1..])))
  }

  function HighTag(s: bytes): Tag
    requires s != [] && 0xd4 <= s[0] < 0xe0 && |s| >= HeaderSize(s[0])
  {
    var t := s[0];
    if t == 0xd4 then Ext(I8OfU8(s[1]), 1)
    else if t == 0xd5 then Ext(I8OfU8(s[1]), 2)
    else if t == 0xd6 then Ext(I8OfU8(s[1]), 4)
    else if t == 0xd7 then Ext(I8OfU8(s[1]), 8)
    else if t == 0xd8 then Ext(I8OfU8(s[1]), 16)
    else if t == 0xd9 then Str(s[1])
    else if t == 0xda then Str(LoadU16(s[1..]))
    else if t == 0xdb then Str(LoadU32(s[1..]))
    else if t == 0xdc then Array(LoadU16(s[1..]))
    else if t == 0xdd then Array(LoadU32(s[1..]))
    else if t == 0xde then Map(LoadU16(s[1..]))
    else Map(LoadU32(s[1..]))
  }

  /** mpack_parse_tag on the bytes still to be read. */
  function ParseTag(s: bytes): (h: Header)
    ensures h.Header? ==> 1 <= h.size <= 9 && h.size <= |s| && h.tag != Missing
  {
    if s == [] then Truncated
    else if s[0] == 0xc1 then Reserved
    else if |s| < HeaderSize(s[0]) then Truncated
    else Header(TagOf(s), HeaderSize(s[0]))
  }

  // ---------------------------------------------------------------------------------------------
  // Printer and parser are inverse.

  /** Positive numbers held as signed are the same number held as unsigned: the identification
      mpack_tag_cmp makes before it compares. */
  function Canon(t: Tag): Tag {
    if t.Int? && t.i >= 0 then Uint(t.i) else t
  }

  lemma Field16(op: byte, v: u16, tail: bytes)
    ensures var e := [op] + StoreU16(v) + tail;
      e[0] == op && |e| == 3 + |tail| && LoadU16(e[1..]) == v
  {
    assert ([op] + StoreU16(v) + tail)[1..] == StoreU16(v) + tail;
    LoadStoreU16(v, tail);
  }

  lemma Field32(op: byte, v: u32, tail: bytes)
    ensures var e := [op] + StoreU32(v) + tail;
      e[0] == op && |e| == 5 + |tail| && LoadU32(e[1..]) == v
  {
    assert ([op] + StoreU32(v) + tail)[1..] == StoreU32(v) + tail;
    LoadStoreU32(v, tail);
  }

  lemma Field64(op: byte, v: u64, tail: bytes)
    ensures var e := [op] + StoreU64(v) + tail;
      e[0] == op && |e| == 9 + |tail| && LoadU64(e[1..]) == v
  {
    assert ([op] + StoreU64(v) + tail)[1..] == StoreU64(v) + tail;
    LoadStoreU64(v, tail);
  }

  lemma UintRoundTrip(v: u64, tail: bytes)
    ensures ParseTag(WriteU64(v) + tail) == Header(Uint(v), |WriteU64(v)|)
  {
    if 0xFF < v <= 0xFFFF {
      Field16(0xcd, v, tail);
    } else if 0xFFFF < v <= 0xFFFF_FFFF {
      Field32(0xce, v, tail);
    } else if v > 0xFFFF_FFFF {
      Field64(0xcf, v, tail);
    }
  }

  lemma IntRoundTrip(v: i64, tail: bytes)
    ensures ParseTag(WriteI64(v) + tail) == Header(Canon(Int(v)), |WriteI64(v)|)
  {
    if v >= 0 {
      UintRoundTrip(v, tail);
    } else if -0x8000 <= v < -0x80 {
      Field16(0xd1, U16OfI16(v), tail);
    } else if -0x8000_0000 <= v < -0x8000 {
      Field32(0xd2, U32OfI32(v), tail);
    } else if v < -0x8000_0000 {
      Field64(0xd3, U64OfI64(v), tail);
    }
  }

  lemma BlobRoundTrip(l: u32, tail: bytes)
    ensures ParseTag(StartStr(l) + tail) == Header(Str(l), |StartStr(l)|)
    ensures ParseTag(StartBin(l) + tail) == Header(Bin(l), |StartBin(l)|)
  {
    if 0xFF < l <= 0xFFFF {
      Field16(0xda, l, tail);
      Field16(0xc5, l, tail);
    } else if l > 0xFFFF {
      Field32(0xdb, l, tail);
      Field32(0xc6, l, tail);
    }
  }

  lemma CountRoundTrip(n: u32, tail: bytes)
    ensures ParseTag(StartArray(n) + tail) == Header(Array(n), |StartArray(n)|)
    ensures ParseTag(StartMap(n) + tail) == Header(Map(n), |StartMap(n)|)
  {
    if 15 < n <= 0xFFFF {
      Field16(0xdc, n, tail);
      Field16(0xde, n, tail);
    } else if n > 0xFFFF {
      Field32(0xdd, n, tail);
      Field32(0xdf, n, tail);
    }
  }

  lemma ExtRoundTrip(e: i8, l: u32, tail: bytes)
    ensures ParseTag(StartExt(e, l) + tail) == Header(Ext(e, l), |StartExt(e, l)|)
  {
    var t := [U8OfI8(e)] + tail;
    if 0xFF < l <= 0xFFFF {
      Field16(0xc8, l, t);
      assert StartExt(e, l) + tail == [0xc8] + StoreU16(l) + t;
    } else if l > 0xFFFF {
      Field32(0xc9, l, t);
      assert StartExt(e, l) + tail == [0xc9] + StoreU32(l) + t;
    }
  }

  /** The parser takes back exactly the bytes the printer wrote and returns an equal tag. */
  lemma TagRoundTrip(t: Tag, tail: bytes)
    requires t != Missing
    ensures ParseTag(EncodeTag(t) + tail) == Header(Canon(t), |EncodeTag(t)|)
  {
    match t
    case Nil =>
    case Bool(b) =>
    case Int(i) => IntRoundTrip(i, tail);
    case Uint(u) => UintRoundTrip(u, tail);
    case Float(f) => Field32(0xca, f, tail);
    case Double(d) => Field64(0xcb, d, tail);
    case Str(l) => BlobRoundTrip(l, tail);
    case Bin(l) => BlobRoundTrip(l, tail);
    case Ext(e, l) => ExtRoundTrip(e, l, tail);
    case Array(n) => CountRoundTrip(n, tail);
    case Map(n) => CountRoundTrip(n, tail);
  }

  lemma LowIsMinimal(t: Tag, s: bytes)
    requires s != [] && 0xc0 <= s[0] < 0xd4 && s[0] != 0xc1 && |s| >= HeaderSize(s[0]) && Canon(LowTag(s)) == Canon(t)
    ensures HeaderSize(s[0]) >= |EncodeTag(t)|
  {
  }

  lemma HighIsMinimal(t: Tag, s: bytes)
    requires s != [] && 0xd4 <= s[0] < 0xe0 && |s| >= HeaderSize(s[0]) && Canon(HighTag(s)) == Canon(t)
    ensures HeaderSize(s[0]) >= |EncodeTag(t)|
  {
  }

  /** No header that parses to an equal tag is shorter than the printed one. */
  lemma PrinterIsMinimal(t: Tag, s: bytes)
    requires ParseTag(s).Header? && Canon(ParseTag(s).tag) == Canon(t)
    ensures ParseTag(s).size >= |EncodeTag(t)|
  {
    hide LowTag, HighTag;
    if 0xc0 <= s[0] < 0xd4 {
      LowIsMinimal(t, s);
    } else if 0xd4 <= s[0] < 0xe0 {
      HighIsMinimal(t, s);
    }
  }

  /** The width-specific integer writers emit what the 64-bit ones emit. */
  lemma WidthsAgree(u: u32, i: i32)
    ensures WriteU32(u) == WriteU64(u) == WriteI64(u)
    ensures u <= 0xFFFF ==> WriteU16(u) == WriteU64(u)
    ensures u <= 0xFF ==> WriteU8(u) == WriteU64(u)
    ensures WriteI32(i) == WriteI64(i)
    ensures -0x8000 <= i < 0x8000 ==> WriteI16(i) == WriteI64(i)
    ensures -0x80 <= i < 0x80 ==> WriteI8(i) == WriteI64(i)
  {
  }

  /** Parsing looks at the header bytes only. */
  lemma ParseTagPrefix(s: bytes, t: bytes)
    requires s <= t && ParseTag(s).Header?
    ensures ParseTag(t) == ParseTag(s)
  {
    var k := |s| - 1;
    assert s == t[..|s|];
    assert s[1..] == t[1..][..k];
    assert TagOf(s) == TagOf(t);
  }

  /** When a header is complete, and what it is. */
  lemma ParseTagCases(s: bytes)
    ensures ParseTag(s).Header? <==> s != [] && s[0] != 0xc1 && |s| >= HeaderSize(s[0])
    ensures ParseTag(s).Header? ==>
      var n := HeaderSize(s[0]); ParseTag(s) == Header(TagOf(s[..n]), n)
  {
    if s != [] && s[0] != 0xc1 && |s| >= HeaderSize(s[0]) {
      ParseTagPrefix(s[..HeaderSize(s[0])], s);
    }
  }

  /** The type of an ext is the last byte of its header. */
  lemma ExtTypeIsLast(s: bytes)
    requires ParseTag(s).Header? && ParseTag(s).tag.Ext?
    ensures ParseTag(s).tag.exttype == I8OfU8(s[ParseTag(s).size - 1])
  {
  }
}
