/** The header formats of the MessagePack specification, section "Formats", written down once more on
    plain numbers: which bytes are a header of which tag. The printer and the parser of the code are
    measured against it. */
module Formats {
  import opened Bytes
  import opened Tags

  /** The number a byte string stands for, most significant byte first. */
  function BigEndian(p: bytes): nat {
    if p == [] then 0 else 256 * BigEndian(p[..|p| - 1]) + p[|p| - 1]
  }

  /** 256 to the power of the length: the numbers below it are those that fit. */
  function Span(k: nat): (n: nat)
    ensures n > 0
  {
    if k == 0 then 1 else 256 * Span(k - 1)
  }

  /** The same in two's complement. */
  function TwosComplement(p: bytes): int {
    if 2 * BigEndian(p) < Span(|p|) then BigEndian(p) else BigEndian(p) - Span(|p|)
  }

  lemma {:induction false} BigEndianFits(p: bytes)
    ensures BigEndian(p) < Span(|p|)
  {
    if p != [] { BigEndianFits(p[..|p| - 1]); }
  }

  /** A number has one byte string of a given length. */
  lemma {:induction false} BigEndianIsUnique(p: bytes, q: bytes)
    requires |p| == |q| && BigEndian(p) == BigEndian(q)
    ensures p == q
  {
    if p != [] {
      BigEndianIsUnique(p[..|p| - 1], q[..|q| - 1]);
      assert p == p[..|p| - 1] + [p[|p| - 1]] && q == q[..|q| - 1] + [q[|q| - 1]];
    }
  }

  lemma {:induction false} BigEndianAppend(p: bytes, q: bytes)
    ensures BigEndian(p + q) == BigEndian(p) * Span(|q|) + BigEndian(q)
  {
    if q == [] {
      assert p + q == p;
    } else {
      var r := q[..|q| - 1];
      BigEndianAppend(p, r);
      assert (p + q)[..|p + q| - 1] == p + r;
      OneDigitMore(BigEndian(p), Span(|r|), BigEndian(r), q[|q| - 1]);
    }
  }

  lemma OneDigitMore(a: nat, span: nat, b: nat, c: nat)
    ensures 256 * (a * span + b) + c == a * (256 * span) + (256 * b + c)
  {
  }

  lemma Spans()
    ensures Span(1) == 0x100 && Span(2) == 0x1_0000 && Span(4) == 0x1_0000_0000 && Span(8) == 0x1_0000_0000_0000_0000
  {
    assert Span(3) == 0x100_0000;
    assert Span(5) == 0x100_0000_0000 && Span(6) == 0x1_0000_0000_0000;
  }

  lemma BigEndianOfOne(a: byte)
    ensures BigEndian([a]) == a
  {
    assert BigEndian([a][..0]) == 0;
  }

  lemma BigEndianOfTwo(p: bytes)
    requires |p| == 2
    ensures BigEndian(p) == p[0] as int * 0x100 + p[1]
  {
    assert p == [p[0]] + [p[1]];
    BigEndianAppend([p[0]], [p[1]]);
    BigEndianOfOne(p[0]);
    BigEndianOfOne(p[1]);
    Spans();
  }

  /** The loads give the number of the first two, four or eight bytes. */
  lemma LoadsAreBigEndian(p: bytes)
    ensures |p| >= 2 ==> LoadU16(p) == BigEndian(p[..2])
    ensures |p| >= 4 ==> LoadU32(p) == BigEndian(p[..4])
    ensures |p| >= 8 ==> LoadU64(p) == BigEndian(p[..8])
  {
    Spans();
    if |p| >= 2 { BigEndianOfTwo(p[..2]); }
    if |p| >= 4 { LoadOfFour(p); }
    if |p| >= 8 {
      hide BigEndian, LoadU32;
      LoadOfFour(p);
      LoadOfFour(p[4..]);
      assert p[..8] == p[..4] + p[4..][..4];
      BigEndianAppend(p[..4], p[4..][..4]);
    }
  }

  lemma LoadOfFour(p: bytes)
    requires |p| >= 4
    ensures LoadU32(p) == BigEndian(p[..4])
  {
    Spans();
    BigEndianOfTwo(p[..2]);
    BigEndianOfTwo(p[2..4]);
    assert p[..4] == p[..2] + p[2..4];
    BigEndianAppend(p[..2], p[2..4]);
    hide BigEndian;
  }

  /** The stores give the bytes of the number. */
  lemma StoresAreBigEndian(a: u16, b: u32, c: u64)
    ensures BigEndian(StoreU16(a)) == a && BigEndian(StoreU32(b)) == b && BigEndian(StoreU64(c)) == c
  {
    hide BigEndian, StoreU16, StoreU32, StoreU64, LoadU16, LoadU32, LoadU64;
    LoadStoreU16(a, []);
    LoadStoreU32(b, []);
    LoadStoreU64(c, []);
    var p, q, r := StoreU16(a), StoreU32(b), StoreU64(c);
    assert p + [] == p == p[..2] && q + [] == q == q[..4] && r + [] == r == r[..8];
    LoadsAreBigEndian(p);
    LoadsAreBigEndian(q);
    LoadsAreBigEndian(r);
  }

  // ---------------------------------------------------------------------------------------------
  // The formats

  /** The first byte `op` is one of the four that start at `first`, and the field behind it has the length
      that goes with it: 1, 2, 4 or 8 bytes. */
  predicate Widths(op: byte, first: byte, f: bytes) {
    || (op as int == first && |f| == 1)
    || (op as int == first + 1 && |f| == 2)
    || (op as int == first + 2 && |f| == 4)
    || (op as int == first + 3 && |f| == 8)
  }

  /** `op` with the bytes `f` is a header of the tag `t`. */
  predicate IsFormat(op: byte, f: bytes, t: Tag) {
    match t
    case Missing => false
    case Nil => op == 0xc0 && f == []
    case Bool(b) => op == (if b then 0xc3 else 0xc2) && f == []
    case Uint(u) => (op <= 0x7f && f == [] && u == op) || (Widths(op, 0xcc, f) && u == BigEndian(f))
    case Int(i) => (op >= 0xe0 && f == [] && i == op as int - 0x100) || (Widths(op, 0xd0, f) && i == TwosComplement(f))
    case Float(d) => op == 0xca && |f| == 4 && d == BigEndian(f)
    case Double(d) => op == 0xcb && |f| == 8 && d == BigEndian(f)
    case Str(l) =>
      || (0xa0 <= op <= 0xbf && f == [] && l as int == op as int - 0xa0)
      || (op <= 0xdb && Widths(op, 0xd9, f) && l == BigEndian(f))
    case Bin(l) => op <= 0xc6 && Widths(op, 0xc4, f) && l == BigEndian(f)
    case Ext(e, l) =>
      && |f| >= 1 && e == TwosComplement(f[|f| - 1..])
      && var n := f[..|f| - 1];
         || (0xd4 <= op <= 0xd8 && n == [] && (op, l) in {(0xd4, 1), (0xd5, 2), (0xd6, 4), (0xd7, 8), (0xd8, 16)})
         || (op <= 0xc9 && Widths(op, 0xc7, n) && l == BigEndian(n))
    case Array(n) =>
      || (0x90 <= op <= 0x9f && f == [] && n as int == op as int - 0x90)
      || (op in {0xdc, 0xdd} && |f| == (if op == 0xdc then 2 else 4) && n == BigEndian(f))
    case Map(n) =>
      || (0x80 <= op <= 0x8f && f == [] && n as int == op as int - 0x80)
      || (op in {0xde, 0xdf} && |f| == (if op == 0xde then 2 else 4) && n == BigEndian(f))
  }

  /** `s` is a header of the tag `t`. */
  predicate IsHeader(s: bytes, t: Tag) {
    s != [] && IsFormat(s[0], s[1..], t)
  }

  // ---------------------------------------------------------------------------------------------
  // The code follows the formats

  /** Reinterpreting as signed is two's complement. */
  lemma SignedLoads(p: bytes)
    ensures |p| >= 1 ==> I8OfU8(p[0]) == TwosComplement(p[..1])
    ensures |p| >= 2 ==> I16OfU16(LoadU16(p)) == TwosComplement(p[..2])
    ensures |p| >= 4 ==> I32OfU32(LoadU32(p)) == TwosComplement(p[..4])
    ensures |p| >= 8 ==> I64OfU64(LoadU64(p)) == TwosComplement(p[..8])
  {
    Spans();
    LoadsAreBigEndian(p);
    if |p| >= 1 {
      assert p[..1] == [p[0]];
      BigEndianOfOne(p[0]);
    }
    hide BigEndian, LoadU16, LoadU32, LoadU64, Span;
  }

  lemma FormatSize(op: byte, f: bytes, t: Tag)
    requires IsFormat(op, f, t)
    ensures op != 0xc1 && |f| == HeaderSize(op) - 1
  {
    hide BigEndian, TwosComplement;
    if t.Ext? {
      hide HeaderSize;
      ExtFormatSize(op, f, t);
    }
  }

  lemma ExtFormatSize(op: byte, f: bytes, t: Tag)
    requires t.Ext? && IsFormat(op, f, t)
    ensures op != 0xc1 && |f| == HeaderSize(op) - 1
  {
    hide BigEndian, TwosComplement;
  }

  /** The fields of a header, as the parser loads them. */
  lemma Fields(f: bytes)
    ensures |f| == 1 ==> BigEndian(f) == f[0] && TwosComplement(f) == I8OfU8(f[0])
    ensures |f| == 2 ==> BigEndian(f) == LoadU16(f) && TwosComplement(f) == I16OfU16(LoadU16(f))
    ensures |f| == 4 ==> BigEndian(f) == LoadU32(f) && TwosComplement(f) == I32OfU32(LoadU32(f))
    ensures |f| == 8 ==> BigEndian(f) == LoadU64(f) && TwosComplement(f) == I64OfU64(LoadU64(f))
  {
    LoadsAreBigEndian(f);
    SignedLoads(f);
    if |f| == 1 {
      BigEndianOfOne(f[0]);
      assert f == [f[0]];
    }
    assert f[..|f|] == f;
    hide BigEndian, TwosComplement, LoadU16, LoadU32, LoadU64;
  }

  lemma ExtFields(op: byte, f: bytes)
    requires |f| == HeaderSize(op) - 1 && (0xc7 <= op <= 0xc9 || 0xd4 <= op <= 0xd8)
    ensures var s := [op] + f; var n := f[..|f| - 1];
      && TwosComplement(f[|f| - 1..]) == I8OfU8(f[|f| - 1])
      && (op == 0xc7 ==> BigEndian(n) == f[0]) && (op == 0xc8 ==> BigEndian(n) == LoadU16(f))
      && (op == 0xc9 ==> BigEndian(n) == LoadU32(f))
  {
    Fields(f[|f| - 1..]);
    Fields(f[..|f| - 1]);
    LoadsAreBigEndian(f);
    hide BigEndian, TwosComplement;
  }

  /** A complete header is a header of the tag that the parser returns, and of no other. */
  lemma FormatOfTag(s: bytes, t: Tag)
    requires s != [] && s[0] != 0xc1 && |s| == HeaderSize(s[0])
    ensures IsHeader(s, t) <==> t == TagOf(s)
  {
    hide IsFormat, LowTag, HighTag;
    if s[0] < 0xc0 || s[0] >= 0xe0 {
      FixFormat(s, t);
    } else if s[0] < 0xd4 {
      LowFormat(s, t);
    } else {
      HighFormat(s, t);
    }
  }

  lemma FixFormat(s: bytes, t: Tag)
    requires |s| == 1 && (s[0] < 0xc0 || s[0] >= 0xe0)
    ensures IsFormat(s[0], s[1..], t) <==> t == TagOf(s)
  {
    hide BigEndian, TwosComplement;
  }

  lemma LowFormat(s: bytes, t: Tag)
    requires s != [] && 0xc0 <= s[0] < 0xd4 && s[0] != 0xc1 && |s| == HeaderSize(s[0])
    ensures IsFormat(s[0], s[1..], t) <==> t == LowTag(s)
  {
    hide BigEndian, TwosComplement, LoadU16, LoadU32, LoadU64, I8OfU8, I16OfU16, I32OfU32, I64OfU64;
    Fields(s[1..]);
    if 0xc7 <= s[0] <= 0xc9 { ExtFields(s[0], s[1..]); }
  }

  lemma HighFormat(s: bytes, t: Tag)
    requires s != [] && 0xd4 <= s[0] < 0xe0 && |s| == HeaderSize(s[0])
    ensures IsFormat(s[0], s[1..], t) <==> t == HighTag(s)
  {
    hide BigEndian, TwosComplement, LoadU16, LoadU32, LoadU64, I8OfU8, I16OfU16, I32OfU32, I64OfU64;
    Fields(s[1..]);
    if s[0] <= 0xd8 { ExtFields(s[0], s[1..]); }
  }

  /** The parser takes exactly the headers of the specification, each as its tag. */
  lemma ParserFollowsFormats(s: bytes, t: Tag, k: nat)
    ensures ParseTag(s) == Header(t, k) <==> k <= |s| && IsHeader(s[..k], t)
  {
    hide IsFormat, TagOf, HeaderSize;
    ParseTagCases(s);
    if k <= |s| && IsHeader(s[..k], t) {
      FormatSize(s[0], s[..k][1..], t);
    }
    if s != [] && s[0] != 0xc1 && |s| >= HeaderSize(s[0]) {
      FormatOfTag(s[..HeaderSize(s[0])], t);
    }
  }

  /** The printer writes a header of the specification, for a non-negative int that of the uint. */
  lemma PrinterFollowsFormats(t: Tag)
    requires t != Missing
    ensures IsHeader(EncodeTag(t), Canon(t))
  {
    hide ParseTag, EncodeTag, IsHeader;
    TagRoundTrip(t, []);
    assert EncodeTag(t) + [] == EncodeTag(t) == EncodeTag(t)[..|EncodeTag(t)|];
    ParserFollowsFormats(EncodeTag(t), Canon(t), |EncodeTag(t)|);
  }

  /** Two headers of one tag that have the same length are the same. */
  lemma FormatIsUnique(s: bytes, r: bytes, t: Tag)
    requires |s| == |r| && IsHeader(s, t) && IsHeader(r, t)
    ensures s == r
  {
    OpcodeIsUnique(s[0], s[1..], r[0], r[1..], t);
    FieldIsUnique(s[0], s[1..], r[1..], t);
    assert s == [s[0]] + s[1..] && r == [r[0]] + r[1..];
  }

  lemma OpcodeIsUnique(op: byte, f: bytes, op': byte, g: bytes, t: Tag)
    requires |f| == |g| && IsFormat(op, f, t) && IsFormat(op', g, t)
    ensures op == op'
  {
    hide BigEndian, TwosComplement;
  }

  lemma FieldIsUnique(op: byte, f: bytes, g: bytes, t: Tag)
    requires |f| == |g| && IsFormat(op, f, t) && IsFormat(op, g, t)
    ensures f == g
  {
    SameNumber(f, g);
    if t.Ext? {
      SameNumber(f[..|f| - 1], g[..|f| - 1]);
      SameNumber(f[|f| - 1..], g[|f| - 1..]);
      assert f == f[..|f| - 1] + f[|f| - 1..] && g == g[..|f| - 1] + g[|f| - 1..];
    }
    hide BigEndian, TwosComplement;
  }

  lemma SameNumber(f: bytes, g: bytes)
    requires |f| == |g|
    ensures BigEndian(f) == BigEndian(g) || TwosComplement(f) == TwosComplement(g) ==> f == g
  {
    BigEndianFits(f);
    BigEndianFits(g);
    if BigEndian(f) == BigEndian(g) { BigEndianIsUnique(f, g); }
  }

  /** What the printer writes is the only shortest header of the tag. */
  lemma PrinterIsShortest(t: Tag, s: bytes)
    requires t != Missing && IsHeader(s, Canon(t))
    ensures |s| > |EncodeTag(t)| || s == EncodeTag(t)
  {
    hide ParseTag, EncodeTag, IsHeader;
    assert s == s[..|s|];
    ParserFollowsFormats(s, Canon(t), |s|);
    PrinterIsMinimal(t, s);
    PrinterFollowsFormats(t);
    if |s| == |EncodeTag(t)| { FormatIsUnique(s, EncodeTag(t), Canon(t)); }
  }
}
