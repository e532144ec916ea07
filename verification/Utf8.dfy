/** The UTF-8 checker of mpack-common.c against the encoding of RFC 3629, section 3. */
module Utf8 {
  import opened Bytes

  // ---------------------------------------------------------------------------------------------
  // The standard: Unicode scalar values and their encodings.

  predicate Scalar(c: int) {
    0 <= c <= 0x10FFFF && !(0xD800 <= c <= 0xDFFF)
  }

  function EncodeScalar(c: int): (s: bytes)
    requires Scalar(c)
    ensures 1 <= |s| <= 4
  {
    if c < 0x80 then [c]
    else if c < 0x800 then [0xC0 + c / 0x40, 0x80 + c % 0x40]
    else if c < 0x1_0000 then [0xE0 + c / 0x1000, 0x80 + c / 0x40 % 0x40, 0x80 + c % 0x40]
    else [0xF0 + c / 0x4_0000, 0x80 + c / 0x1000 % 0x40, 0x80 + c / 0x40 % 0x40, 0x80 + c % 0x40]
  }

  ghost predicate Text(cs: seq<int>, allowNull: bool) {
    forall c | c in cs :: Scalar(c) && (allowNull || c != 0)
  }

  function EncodeText(cs: seq<int>): bytes
    requires forall c | c in cs :: Scalar(c)
  {
    if cs == [] then [] else EncodeScalar(cs[0]) + EncodeText(cs[1..])
  }

  // ---------------------------------------------------------------------------------------------
  // The bit operations of the checker. They are on bit vectors; the lemmas say which numbers they give.

  /** The eight bits of a byte. */
  function Bits(x: byte): bv8 {
    if x == 0 then 0 else (Bits(x / 2) << 1) | if x % 2 == 0 then 0 else 1
  }

  function Small(b: bv8): int { b as int }

  lemma SmallShift(b: bv8)
    requires b < 0x80
    ensures Small(b << 1) == 2 * Small(b) && Small((b << 1) | 1) == 2 * Small(b) + 1
  {
  }

  lemma SmallOrder(b: bv8)
    ensures b == 0 <==> Small(b) == 0
    ensures 0x80 <= b <==> 0x80 <= Small(b)
    ensures 0xC0 <= b <==> 0xC0 <= Small(b)
    ensures 0xE0 <= b <==> 0xE0 <= Small(b)
    ensures 0xF0 <= b <==> 0xF0 <= Small(b)
    ensures 0xF8 <= b <==> 0xF8 <= Small(b)
  {
  }

  lemma {:induction false} SmallBits(x: byte)
    ensures Small(Bits(x)) == x
  {
    hide Small;
    SmallOrder(0);
    if x > 0 {
      SmallBits(x / 2);
      SmallOrder(Bits(x / 2));
      SmallShift(Bits(x / 2));
    }
  }

  function Masked(x: byte, m: bv8): bv8 { Bits(x) & m }

  predicate Continuation(x: byte) { Masked(x, 0xC0) == 0x80 }

  /** The bits of `x` outside the mask, in 32 bits. */
  function Field(x: byte, m: bv8): bv32 { (Bits(x) & !m) as bv32 }

  function Number(b: bv32): int { b as int }

  function Code2(lead: byte, cont: byte): int {
    Number((Field(lead, 0xE0) << 6) | Field(cont, 0xC0))
  }

  function Code3(lead: byte, cont1: byte, cont2: byte): int {
    Number((Field(lead, 0xF0) << 12) | (Field(cont1, 0xC0) << 6) | Field(cont2, 0xC0))
  }

  function Code4(lead: byte, cont1: byte, cont2: byte, cont3: byte): int {
    Number((Field(lead, 0xF8) << 18) | (Field(cont1, 0xC0) << 12) | (Field(cont2, 0xC0) << 6) | Field(cont3, 0xC0))
  }

  /** What the masks leave of the bytes they are meant for. */
  lemma Cleared(b: bv8)
    ensures 0x80 <= b < 0xC0 ==> (b & !0xC0) as bv32 < 0x40 && Number((b & !0xC0) as bv32) == Small(b) - 0x80
    ensures 0xC0 <= b < 0xE0 ==> (b & !0xE0) as bv32 < 0x20 && Number((b & !0xE0) as bv32) == Small(b) - 0xC0
    ensures 0xE0 <= b < 0xF0 ==> (b & !0xF0) as bv32 < 0x10 && Number((b & !0xF0) as bv32) == Small(b) - 0xE0
    ensures 0xF0 <= b < 0xF8 ==> (b & !0xF8) as bv32 < 0x08 && Number((b & !0xF8) as bv32) == Small(b) - 0xF0
  {
  }

  lemma Fields(x: byte)
    ensures 0x80 <= x < 0xC0 ==> Field(x, 0xC0) < 0x40 && Number(Field(x, 0xC0)) == x - 0x80
    ensures 0xC0 <= x < 0xE0 ==> Field(x, 0xE0) < 0x20 && Number(Field(x, 0xE0)) == x - 0xC0
    ensures 0xE0 <= x < 0xF0 ==> Field(x, 0xF0) < 0x10 && Number(Field(x, 0xF0)) == x - 0xE0
    ensures 0xF0 <= x < 0xF8 ==> Field(x, 0xF8) < 0x08 && Number(Field(x, 0xF8)) == x - 0xF0
  {
    var b := Bits(x);
    SmallBits(x);
    SmallOrder(b);
    Cleared(b);
    hide Number, Small, Bits;
  }

  lemma Join2(a: bv32, b: bv32)
    requires a < 0x40 && b < 0x40
    ensures (a << 6) | b < 0x1000 && Number((a << 6) | b) == Number(a) * 0x40 + Number(b)
  {
  }

  lemma Join3(a: bv32, b: bv32)
    requires a < 0x40 && b < 0x1000
    ensures (a << 12) | b < 0x4_0000 && Number((a << 12) | b) == Number(a) * 0x1000 + Number(b)
  {
  }

  lemma Join4(a: bv32, b: bv32)
    requires a < 0x08 && b < 0x4_0000
    ensures Number((a << 18) | b) == Number(a) * 0x4_0000 + Number(b)
  {
  }

  lemma Regroup(a: bv32, b: bv32, c: bv32, d: bv32)
    ensures (b << 12) | (c << 6) | d == (b << 12) | ((c << 6) | d)
    ensures (a << 18) | (b << 12) | (c << 6) | d == (a << 18) | ((b << 12) | ((c << 6) | d))
  {
  }

  lemma Bits3(a: bv32, b: bv32, c: bv32)
    requires a < 0x40 && b < 0x40 && c < 0x40
    ensures (a << 12) | (b << 6) | c < 0x4_0000
    ensures Number((a << 12) | (b << 6) | c) == Number(a) * 0x1000 + Number(b) * 0x40 + Number(c)
  {
    Regroup(0, a, b, c);
    Join2(b, c);
    Join3(a, (b << 6) | c);
  }

  lemma Bits4(a: bv32, b: bv32, c: bv32, d: bv32)
    requires a < 0x08 && b < 0x40 && c < 0x40 && d < 0x40
    ensures Number((a << 18) | (b << 12) | (c << 6) | d)
            == Number(a) * 0x4_0000 + Number(b) * 0x1000 + Number(c) * 0x40 + Number(d)
  {
    Regroup(a, b, c, d);
    Bits3(b, c, d);
    Join4(a, (b << 12) | ((c << 6) | d));
  }

  lemma Code2Value(l: byte, c: byte)
    requires 0xC0 <= l < 0xE0 && 0x80 <= c < 0xC0
    ensures Code2(l, c) == (l - 0xC0) as int * 0x40 + (c - 0x80)
  {
    hide Field, Number;
    Fields(l);
    Fields(c);
    Join2(Field(l, 0xE0), Field(c, 0xC0));
  }

  lemma Code3Value(l: byte, c1: byte, c2: byte)
    requires 0xE0 <= l < 0xF0 && 0x80 <= c1 < 0xC0 && 0x80 <= c2 < 0xC0
    ensures Code3(l, c1, c2) == (l - 0xE0) as int * 0x1000 + (c1 - 0x80) as int * 0x40 + (c2 - 0x80)
  {
    hide Field, Number;
    Fields(l);
    Fields(c1);
    Fields(c2);
    Bits3(Field(l, 0xF0), Field(c1, 0xC0), Field(c2, 0xC0));
  }

  lemma Code4Value(l: byte, c1: byte, c2: byte, c3: byte)
    requires 0xF0 <= l < 0xF8 && 0x80 <= c1 < 0xC0 && 0x80 <= c2 < 0xC0 && 0x80 <= c3 < 0xC0
    ensures Code4(l, c1, c2, c3)
      == (l - 0xF0) as int * 0x4_0000 + (c1 - 0x80) as int * 0x1000 + (c2 - 0x80) as int * 0x40 + (c3 - 0x80)
  {
    hide Field, Number;
    Fields(l);
    Fields(c1);
    Fields(c2);
    Fields(c3);
    Bits4(Field(l, 0xF8), Field(c1, 0xC0), Field(c2, 0xC0), Field(c3, 0xC0));
  }

  lemma Masks(b: bv8)
    ensures b & 0xE0 == 0xC0 <==> 0xC0 <= b < 0xE0
    ensures b & 0xF0 == 0xE0 <==> 0xE0 <= b < 0xF0
    ensures b & 0xF8 == 0xF0 <==> 0xF0 <= b < 0xF8
    ensures b & 0xC0 == 0x80 <==> 0x80 <= b < 0xC0
  {
  }

  lemma MaskRanges(x: byte)
    ensures Masked(x, 0xE0) == 0xC0 <==> 0xC0 <= x < 0xE0
    ensures Masked(x, 0xF0) == 0xE0 <==> 0xE0 <= x < 0xF0
    ensures Masked(x, 0xF8) == 0xF0 <==> 0xF0 <= x < 0xF8
    ensures Continuation(x) <==> 0x80 <= x < 0xC0
  {
    hide Small, Bits;
    var b := Bits(x);
    Masks(b);
    SmallBits(x);
    SmallOrder(b);
  }

  // ---------------------------------------------------------------------------------------------
  // Reading one scalar value from the front of a text.

  datatype Next = Bad | Next(code: int, size: nat)

  /** The scalar value encoded at the front of `s`, by the grammar of section 4. */
  function First(s: bytes): (r: Next)
    ensures r.Next? ==> 1 <= r.size <= |s| && Scalar(r.code)
  {
    if s == [] then Bad
    else if s[0] < 0x80 then Next(s[0], 1)
    else if 0xC0 <= s[0] < 0xE0 && |s| >= 2 && 0x80 <= s[1] < 0xC0 then
      Ranged((s[0] - 0xC0) as int * 0x40 + (s[1] - 0x80), 0x80, 2)
    else if 0xE0 <= s[0] < 0xF0 && |s| >= 3 && 0x80 <= s[1] < 0xC0 && 0x80 <= s[2] < 0xC0 then
      Ranged((s[0] - 0xE0) as int * 0x1000 + (s[1] - 0x80) as int * 0x40 + (s[2] - 0x80), 0x800, 3)
    else if 0xF0 <= s[0] < 0xF8 && |s| >= 4 && 0x80 <= s[1] < 0xC0 && 0x80 <= s[2] < 0xC0 && 0x80 <= s[3] < 0xC0 then
      Ranged((s[0] - 0xF0) as int * 0x4_0000 + (s[1] - 0x80) as int * 0x1000 + (s[2] - 0x80) as int * 0x40
             + (s[3] - 0x80), 0x1_0000, 4)
    else Bad
  }

  /** A code point below `least` was written with too many bytes. */
  function Ranged(c: int, least: int, size: nat): Next {
    if c >= least && Scalar(c) then Next(c, size) else Bad
  }

  lemma Digits(a: int, b: int, c: int, d: int)
    requires 0 <= b < 0x40 && 0 <= c < 0x40 && 0 <= d < 0x40
    ensures var z := a * 0x4_0000 + b * 0x1000 + c * 0x40 + d;
      z / 0x4_0000 == a && z / 0x1000 == a * 0x40 + b && z / 0x40 == a * 0x1000 + b * 0x40 + c && z % 0x40 == d
  {
  }

  lemma EncodeOfDigits(a: int, b: int, c: int, d: int)
    requires 0 <= a < 8 && 0 <= b < 0x40 && 0 <= c < 0x40 && 0 <= d < 0x40
    ensures var z := a * 0x4_0000 + b * 0x1000 + c * 0x40 + d;
      && (Scalar(z) && z >= 0x1_0000 ==> EncodeScalar(z) == [0xF0 + a, 0x80 + b, 0x80 + c, 0x80 + d])
      && (a == 0 && b < 0x10 && Scalar(z) && 0x800 <= z ==> EncodeScalar(z) == [0xE0 + b, 0x80 + c, 0x80 + d])
      && (a == b == 0 && c < 0x20 && 0x80 <= z ==> EncodeScalar(z) == [0xC0 + c, 0x80 + d])
  {
    Digits(a, b, c, d);
  }

  lemma FirstIsSound(s: bytes)
    requires First(s).Next?
    ensures s[..First(s).size] == EncodeScalar(First(s).code)
  {
    hide EncodeScalar, Scalar;
    if 0xC0 <= s[0] < 0xE0 {
      EncodeOfDigits(0, 0, s[0] - 0xC0, s[1] - 0x80);
    } else if 0xE0 <= s[0] < 0xF0 {
      EncodeOfDigits(0, s[0] - 0xE0, s[1] - 0x80, s[2] - 0x80);
    } else if s[0] >= 0xF0 {
      EncodeOfDigits(s[0] - 0xF0, s[1] - 0x80, s[2] - 0x80, s[3] - 0x80);
    } else {
      assert s[..1] == EncodeScalar(s[0]) by { AsciiIsItself(s[0]); }
    }
  }

  lemma AsciiIsItself(c: byte)
    requires c < 0x80
    ensures Scalar(c) && EncodeScalar(c) == [c]
  {
  }

  lemma DigitsOf(c: int)
    requires 0 <= c <= 0x10FFFF
    ensures c == c / 0x4_0000 * 0x4_0000 + c / 0x1000 % 0x40 * 0x1000 + c / 0x40 % 0x40 * 0x40 + c % 0x40
    ensures c < 0x1_0000 ==> c / 0x1000 % 0x40 == c / 0x1000
    ensures 0 <= c / 0x1000 && c / 0x4_0000 < 8 && (c < 0x1_0000 ==> c / 0x1000 < 0x10)
  {
    var d, c1 := c % 0x40, c / 0x40;
    var e, c2 := c1 % 0x40, c1 / 0x40;
    var f, c3 := c2 % 0x40, c2 / 0x40;
    assert c == 0x1000 * c2 + (0x40 * e + d);
    Quotient(c, 0x1000, c2, 0x40 * e + d);
    assert c == 0x4_0000 * c3 + (0x1000 * f + 0x40 * e + d);
    Quotient(c, 0x4_0000, c3, 0x1000 * f + 0x40 * e + d);
  }

  lemma Quotient(c: int, d: int, q: int, r: int)
    requires c == d * q + r && 0 <= r < d
    ensures c / d == q
  {
    var p := c / d;
    if p < q {
      Steps(d, p, q);
    } else if p > q {
      Steps(d, q, p);
    }
  }

  lemma Steps(d: int, p: int, q: int)
    requires d > 0 && p < q
    ensures d * p + d <= d * q
  {
    assert d * (q - p - 1) >= 0;
  }

  lemma FirstIsComplete(c: int, tail: bytes)
    requires Scalar(c)
    ensures First(EncodeScalar(c) + tail) == Next(c, |EncodeScalar(c)|)
  {
    hide First;
    var s := EncodeScalar(c) + tail;
    if c < 0x80 {
      FirstOfOne(s, c);
    } else if c < 0x800 {
      TwoDigits(c);
      FirstOfTwo(s, c / 0x40, c % 0x40);
    } else if c < 0x1_0000 {
      DigitsOf(c);
      FirstOfThree(s, c / 0x1000, c / 0x40 % 0x40, c % 0x40);
    } else {
      DigitsOf(c);
      FirstOfFour(s, c / 0x4_0000, c / 0x1000 % 0x40, c / 0x40 % 0x40, c % 0x40);
    }
  }

  lemma TwoDigits(c: int)
    requires 0 <= c < 0x800
    ensures c == c / 0x40 * 0x40 + c % 0x40 && c / 0x40 < 0x20
  {
  }

  lemma FirstOfOne(s: bytes, a: int)
    requires s != [] && 0 <= a < 0x80 && s[0] as int == a
    ensures First(s) == Next(a, 1)
  {
  }

  lemma FirstOfTwo(s: bytes, a: int, b: int)
    requires |s| >= 2 && 0 <= a < 0x20 && 0 <= b < 0x40 && s[0] as int == 0xC0 + a && s[1] as int == 0x80 + b
    ensures First(s) == Ranged(a * 0x40 + b, 0x80, 2)
  {
  }

  lemma FirstOfThree(s: bytes, a: int, b: int, c: int)
    requires |s| >= 3 && 0 <= a < 0x10 && 0 <= b < 0x40 && 0 <= c < 0x40
    requires s[0] as int == 0xE0 + a && s[1] as int == 0x80 + b && s[2] as int == 0x80 + c
    ensures First(s) == Ranged(a * 0x1000 + b * 0x40 + c, 0x800, 3)
  {
  }

  lemma FirstOfFour(s: bytes, a: int, b: int, c: int, d: int)
    requires |s| >= 4 && 0 <= a < 8 && 0 <= b < 0x40 && 0 <= c < 0x40 && 0 <= d < 0x40
    requires s[0] as int == 0xF0 + a && s[1] as int == 0x80 + b && s[2] as int == 0x80 + c && s[3] as int == 0x80 + d
    ensures First(s) == Ranged(a * 0x4_0000 + b * 0x1000 + c * 0x40 + d, 0x1_0000, 4)
  {
  }

  predicate Valid(s: bytes, allowNull: bool) {
    s == [] || (First(s).Next? && (allowNull || First(s).code != 0) && Valid(s[First(s).size..], allowNull))
  }

  lemma EmptyText(allowNull: bool)
    ensures Text([], allowNull) && EncodeText([]) == []
  {
  }

  lemma TextMore(c: int, cs: seq<int>, allowNull: bool)
    requires Scalar(c) && (allowNull || c != 0) && Text(cs, allowNull)
    ensures Text([c] + cs, allowNull) && EncodeText([c] + cs) == EncodeScalar(c) + EncodeText(cs)
  {
    hide EncodeScalar, Scalar;
    assert ([c] + cs)[1..] == cs;
  }

  lemma {:induction false} ValidHasText(s: bytes, allowNull: bool) returns (cs: seq<int>)
    requires Valid(s, allowNull)
    ensures Text(cs, allowNull) && EncodeText(cs) == s
  {
    hide First, EncodeScalar, EncodeText, Text, Scalar;
    if s == [] {
      cs := [];
      EmptyText(allowNull);
    } else {
      var f := First(s);
      var rest := ValidHasText(s[f.size..], allowNull);
      FirstIsSound(s);
      TextMore(f.code, rest, allowNull);
      cs := [f.code] + rest;
    }
  }

  lemma {:induction false} TextIsValid(cs: seq<int>, allowNull: bool)
    requires Text(cs, allowNull)
    ensures Valid(EncodeText(cs), allowNull)
  {
    if cs != [] {
      var tail := EncodeText(cs[1..]);
      FirstIsComplete(cs[0], tail);
      assert (EncodeScalar(cs[0]) + tail)[|EncodeScalar(cs[0])|..] == tail;
      TextIsValid(cs[1..], allowNull);
    }
  }

  /** The decomposition of a text into scalar values is unique. */
  lemma {:induction false} TextIsUnique(cs: seq<int>, ds: seq<int>)
    requires Text(cs, true) && Text(ds, true) && EncodeText(cs) == EncodeText(ds)
    ensures cs == ds
  {
    if cs != [] && ds != [] {
      FirstIsComplete(cs[0], EncodeText(cs[1..]));
      FirstIsComplete(ds[0], EncodeText(ds[1..]));
      DropOfConcat(EncodeScalar(cs[0]), EncodeText(cs[1..]));
      DropOfConcat(EncodeScalar(ds[0]), EncodeText(ds[1..]));
      TextIsUnique(cs[1..], ds[1..]);
    }
  }

  // ---------------------------------------------------------------------------------------------
  // The checker

  /** One round of the loop of mpack_utf8_check_impl: the bytes consumed, or 0 for a rejection. */
  method CheckSequence(str: bytes, allowNull: bool) returns (n: nat)
    requires str != []
    ensures n == if First(str).Next? && (allowNull || First(str).code != 0) then First(str).size else 0
  {
    var lead, count := str[0], |str|;
    MaskRanges(lead);
    if !allowNull && lead == 0 { return 0; }
    if lead <= 0x7F { return 1; }
    if Masked(lead, 0xE0) == 0xC0 {
      n := CheckSequence2(str);
    } else if Masked(lead, 0xF0) == 0xE0 {
      n := CheckSequence3(str);
    } else if Masked(lead, 0xF8) == 0xF0 {
      n := CheckSequence4(str);
    } else {
      n := 0;
    }
  }

  method CheckSequence2(str: bytes) returns (n: nat)
    requires str != [] && Masked(str[0], 0xE0) == 0xC0
    ensures n == if First(str).Next? then First(str).size else 0
    ensures First(str).Next? ==> First(str).code != 0
  {
    hide Masked, Continuation, Code2;
    MaskRanges(str[0]);
    if |str| < 2 { return 0; }
    MaskRanges(str[1]);
    if !Continuation(str[1]) { return 0; }
    var z := Code2(str[0], str[1]);
    Code2Value(str[0], str[1]);
    n := if z < 0x80 then 0 else 2;
  }

  method CheckSequence3(str: bytes) returns (n: nat)
    requires str != [] && Masked(str[0], 0xF0) == 0xE0
    ensures n == if First(str).Next? then First(str).size else 0
    ensures First(str).Next? ==> First(str).code != 0
  {
    hide Masked, Continuation, Code3;
    MaskRanges(str[0]);
    if |str| < 3 { return 0; }
    MaskRanges(str[1]);
    if !Continuation(str[1]) { return 0; }
    MaskRanges(str[2]);
    if !Continuation(str[2]) { return 0; }
    var z := Code3(str[0], str[1], str[2]);
    Code3Value(str[0], str[1], str[2]);
    if z < 0x800 { return 0; }
    n := if 0xD800 <= z <= 0xDFFF then 0 else 3;
  }

  method CheckSequence4(str: bytes) returns (n: nat)
    requires str != [] && Masked(str[0], 0xF8) == 0xF0
    ensures n == if First(str).Next? then First(str).size else 0
    ensures First(str).Next? ==> First(str).code != 0
  {
    hide Masked, Continuation, Code4;
    MaskRanges(str[0]);
    if |str| < 4 { return 0; }
    MaskRanges(str[1]);
    if !Continuation(str[1]) { return 0; }
    MaskRanges(str[2]);
    if !Continuation(str[2]) { return 0; }
    MaskRanges(str[3]);
    if !Continuation(str[3]) { return 0; }
    var z := Code4(str[0], str[1], str[2], str[3]);
    Code4Value(str[0], str[1], str[2], str[3]);
    if z < 0x1_0000 { return 0; }
    n := if z > 0x10FFFF then 0 else 4;
  }

  /** mpack_utf8_check_impl: accepts exactly the encodings of sequences of Unicode scalar values,
      and of non-null ones where nulls are not allowed. */
  method Check(str: bytes, allowNull: bool) returns (ok: bool)
    ensures ok <==> exists cs :: Text(cs, allowNull) && EncodeText(cs) == str
    ensures ok <==> Valid(str, allowNull)
  {
    hide First, Text, EncodeText;
    var i := 0;
    ok := true;
    assert str[0..] == str;
    while i < |str|
      invariant 0 <= i <= |str|
      invariant Valid(str, allowNull) <==> Valid(str[i..], allowNull)
    {
      var n := CheckSequence(str[i..], allowNull);
      if n == 0 {
        ok := false;
        break;
      }
      DropDrop(str, i, n);
      i := i + n;
    }
    ValidIffText(str, allowNull);
  }

  lemma ValidIffText(s: bytes, allowNull: bool)
    ensures Valid(s, allowNull) <==> exists cs :: Text(cs, allowNull) && EncodeText(cs) == s
  {
    if Valid(s, allowNull) {
      var cs := ValidHasText(s, allowNull);
    }
    forall cs | Text(cs, allowNull) && EncodeText(cs) == s ensures Valid(s, allowNull) {
      TextIsValid(cs, allowNull);
    }
  }
}
