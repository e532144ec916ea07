/** The timestamp extension type: three payload widths for one pair of seconds and nanoseconds. */
module Timestamps {
  import opened Bytes
  import opened Tags
  import opened Formats
  import opened Values

  const EXTTYPE_TIMESTAMP: i8 := -1
  const NANOSECONDS_MAX: u32 := 999_999_999

  datatype Timestamp = Timestamp(seconds: i64, nanoseconds: u32) | BadTimestamp

  /** The payload mpack_write_timestamp picks. */
  function PayloadOf(seconds: i64, nanoseconds: u32): (p: bytes)
    requires nanoseconds <= NANOSECONDS_MAX
    ensures |p| == if seconds < 0 || seconds >= 0x4_0000_0000 then 12
                   else if seconds > 0xFFFF_FFFF || nanoseconds > 0 then 8 else 4
  {
    if seconds < 0 || seconds >= 0x4_0000_0000 then StoreU32(nanoseconds) + StoreU64(U64OfI64(seconds))
    else if seconds > 0xFFFF_FFFF || nanoseconds > 0 then StoreU64(nanoseconds as int * 0x4_0000_0000 + seconds)
    else StoreU32(seconds)
  }

  /** The bytes mpack_write_timestamp emits: fixext4, fixext8 or ext8 with type -1. */
  function EncodeTimestamp(seconds: i64, nanoseconds: u32): bytes
    requires nanoseconds <= NANOSECONDS_MAX
  {
    if seconds < 0 || seconds >= 0x4_0000_0000 then
      EncodeExt8(EXTTYPE_TIMESTAMP, 12) + StoreU32(nanoseconds) + StoreU64(U64OfI64(seconds))
    else if seconds > 0xFFFF_FFFF || nanoseconds > 0 then
      EncodeFixext(0xd7, EXTTYPE_TIMESTAMP) + StoreU64(nanoseconds as int * 0x4_0000_0000 + seconds)
    else EncodeFixext(0xd6, EXTTYPE_TIMESTAMP) + StoreU32(seconds)
  }

  /** The pair held by a payload, as the standard defines it. */
  function TimestampOf(p: bytes): Timestamp {
    if |p| == 4 then Timestamp(LoadU32(p), 0)
    else if |p| == 8 then
      var value := LoadU64(p);
      Checked(value % 0x4_0000_0000, value / 0x4_0000_0000)
    else if |p| == 12 then Checked(I64OfU64(LoadU64(p[4..])), LoadU32(p))
    else BadTimestamp
  }

  function Checked(seconds: i64, nanoseconds: u32): Timestamp {
    if nanoseconds > NANOSECONDS_MAX then BadTimestamp else Timestamp(seconds, nanoseconds)
  }

  lemma LoadsOfPayload12(seconds: i64, nanoseconds: u32)
    ensures var p := StoreU32(nanoseconds) + StoreU64(U64OfI64(seconds));
      LoadU32(p) == nanoseconds && |p| == 12 && LoadU64(p[4..]) == U64OfI64(seconds)
  {
    hide LoadU32, LoadU64;
    var tail := StoreU64(U64OfI64(seconds));
    var p := StoreU32(nanoseconds) + tail;
    LoadStoreU32(nanoseconds, tail);
    LoadStoreU64(U64OfI64(seconds), []);
    assert p[4..] == tail + [];
  }

  /** Every pair survives its payload. */
  lemma TimestampRoundTrip(seconds: i64, nanoseconds: u32)
    requires nanoseconds <= NANOSECONDS_MAX
    ensures TimestampOf(PayloadOf(seconds, nanoseconds)) == Timestamp(seconds, nanoseconds)
  {
    hide StoreU32, StoreU64, LoadU32, LoadU64;
    var p := PayloadOf(seconds, nanoseconds);
    if |p| == 12 {
      LoadsOfPayload12(seconds, nanoseconds);
    } else if |p| == 8 {
      assert p + [] == p;
      LoadStoreU64(nanoseconds as int * 0x4_0000_0000 + seconds, []);
    } else {
      assert p + [] == p;
      LoadStoreU32(seconds, []);
    }
  }

  /** The emitted bytes are one ext value that carries the payload. */
  lemma TimestampIsOneValue(seconds: i64, nanoseconds: u32)
    requires nanoseconds <= NANOSECONDS_MAX
    ensures var p := PayloadOf(seconds, nanoseconds);
      EncodeTimestamp(seconds, nanoseconds) == EncodeTag(Ext(-1, |p|)) + p
  {
  }

  /** Reading the emitted bytes back gives the ext header and a payload that holds the pair. */
  lemma TimestampReadsBack(seconds: i64, nanoseconds: u32, tail: bytes)
    requires nanoseconds <= NANOSECONDS_MAX
    ensures var it := FirstItem(EncodeTimestamp(seconds, nanoseconds) + tail);
      && it.Item? && it.used == |EncodeTimestamp(seconds, nanoseconds)|
      && it.tag == Ext(-1, |it.payload|) && TimestampOf(it.payload) == Timestamp(seconds, nanoseconds)
  {
    hide PayloadOf, EncodeTimestamp, TimestampOf, EncodeTag, FirstItem;
    var p := PayloadOf(seconds, nanoseconds);
    TimestampRoundTrip(seconds, nanoseconds);
    TimestampIsOneValue(seconds, nanoseconds);
    FirstItemOfEncoding(Ext(EXTTYPE_TIMESTAMP, |p|), p, tail);
  }

  /** No shorter payload holds the same pair. */
  lemma TimestampIsMinimal(p: bytes, seconds: i64, nanoseconds: u32)
    requires TimestampOf(p) == Timestamp(seconds, nanoseconds) && nanoseconds <= NANOSECONDS_MAX
    ensures |p| >= |PayloadOf(seconds, nanoseconds)|
  {
  }

  /** The bytes, by the numbers they hold: type -1, that is 0xff, and one of three layouts. */
  lemma TimestampBytes(seconds: i64, nanoseconds: u32)
    requires nanoseconds <= NANOSECONDS_MAX
    ensures var s := EncodeTimestamp(seconds, nanoseconds);
      if 0 <= seconds < 0x1_0000_0000 && nanoseconds == 0 then
        |s| == 6 && s[..2] == [0xd6, 0xff] && BigEndian(s[2..]) == seconds
      else if 0 <= seconds < 0x4_0000_0000 then
        |s| == 10 && s[..2] == [0xd7, 0xff] && BigEndian(s[2..]) == nanoseconds as int * 0x4_0000_0000 + seconds
      else
        && |s| == 15 && s[..3] == [0xc7, 12, 0xff]
        && BigEndian(s[3..7]) == nanoseconds && TwosComplement(s[7..]) == seconds
  {
    hide BigEndian, TwosComplement;
    var s := EncodeTimestamp(seconds, nanoseconds);
    if seconds < 0 || seconds >= 0x4_0000_0000 {
      StoresAreBigEndian(0, nanoseconds, 0);
      StoreIsSigned(seconds);
      hide StoreU32, StoreU64;
      assert s[3..7] == StoreU32(nanoseconds) && s[7..] == StoreU64(U64OfI64(seconds));
    } else if seconds > 0xFFFF_FFFF || nanoseconds > 0 {
      StoresAreBigEndian(0, 0, nanoseconds as int * 0x4_0000_0000 + seconds);
      hide StoreU64;
      assert s[2..] == StoreU64(nanoseconds as int * 0x4_0000_0000 + seconds);
    } else {
      StoresAreBigEndian(0, seconds, 0);
      hide StoreU32;
      assert s[2..] == StoreU32(seconds);
    }
  }

  lemma StoreIsSigned(v: i64)
    ensures TwosComplement(StoreU64(U64OfI64(v))) == v
  {
    hide TwosComplement, StoreU64, LoadU64;
    var p := StoreU64(U64OfI64(v));
    LoadStoreU64(U64OfI64(v), []);
    SignedLoads(p);
    assert p + [] == p == p[..8];
  }

  /** The pair in a payload, by the numbers it holds. */
  lemma TimestampNumbers(p: bytes)
    ensures var t := TimestampOf(p); var n := BigEndian(p);
      && (|p| == 4 ==> t.Timestamp? && t.seconds == n && t.nanoseconds == 0)
      && (|p| == 8 ==> (t.Timestamp? <==> n / 0x4_0000_0000 <= 999_999_999))
      && (|p| == 8 && t.Timestamp? ==> t.seconds == n % 0x4_0000_0000 && t.nanoseconds == n / 0x4_0000_0000)
      && (|p| == 12 ==> (t.Timestamp? <==> BigEndian(p[..4]) <= 999_999_999))
      && (|p| == 12 && t.Timestamp? ==> t.seconds == TwosComplement(p[4..]) && t.nanoseconds == BigEndian(p[..4]))
      && (|p| !in {4, 8, 12} ==> t.BadTimestamp?)
  {
    LoadsAreBigEndian(p);
    assert p[..|p|] == p;
    if |p| == 12 {
      SignedLoads(p[4..]);
      assert p[4..][..8] == p[4..];
    }
    hide BigEndian, TwosComplement, LoadU32, LoadU64;
  }
}
