/** mpack_tag_cmp: a total order on tags. */
module TagOrder {
  import opened Bytes
  import opened Memory
  import opened Tags

  /** The position of the type in mpack_type_t. */
  function Rank(t: Tag): nat {
    match t
    case Missing => 0
    case Nil => 1
    case Bool(_) => 2
    case Int(_) => 3
    case Uint(_) => 4
    case Float(_) => 5
    case Double(_) => 6
    case Str(_) => 7
    case Bin(_) => 8
    case Ext(_, _) => 9
    case Array(_) => 10
    case Map(_) => 11
  }

  // Floating point numbers as they lie in memory: the target is little-endian.

  function InMemory32(v: u32): (p: bytes)
    ensures |p| == 4
  {
    var p := StoreU32(v);
    [p[3], p[2], p[1], p[0]]
  }

  function InMemory64(v: u64): (p: bytes)
    ensures |p| == 8
  {
    InMemory32(v % 0x1_0000_0000) + InMemory32(v / 0x1_0000_0000)
  }

  function Sign(a: int, b: int): int {
    if a == b then 0 else if a < b then -1 else 1
  }

  /** mpack_tag_cmp */
  function TagCmp(left: Tag, right: Tag): int {
    var l, r := Canon(left), Canon(right);
    if Rank(l) != Rank(r) then Sign(Rank(l), Rank(r))
    else SameTypeCmp(l, r)
  }

  function SameTypeCmp(l: Tag, r: Tag): int
    requires Rank(l) == Rank(r)
  {
    match l
    case Missing => 0
    case Nil => 0
    case Bool(b) => (if b then 1 else 0) - (if r.b then 1 else 0)
    case Int(i) => Sign(i, r.i)
    case Uint(u) => Sign(u, r.u)
    case Float(f) => Compare(InMemory32(f), InMemory32(r.f))
    case Double(d) => Compare(InMemory64(d), InMemory64(r.d))
    case Str(n) => Sign(n, r.l)
    case Bin(n) => Sign(n, r.l)
    case Ext(e, n) => if e == r.exttype then Sign(n, r.l) else e as int - r.exttype as int
    case Array(n) => Sign(n, r.n)
    case Map(n) => Sign(n, r.n)
  }

  lemma InMemory32Injective(a: u32, b: u32)
    requires InMemory32(a) == InMemory32(b)
    ensures a == b
  {
    hide StoreU32, LoadU32;
    var p, q := InMemory32(a), InMemory32(b);
    assert p[0] == q[0] && p[1] == q[1] && p[2] == q[2] && p[3] == q[3];
    assert StoreU32(a) + [] == StoreU32(b) + [];
    LoadStoreU32(a, []);
    LoadStoreU32(b, []);
  }

  lemma InMemory64Injective(a: u64, b: u64)
    requires InMemory64(a) == InMemory64(b)
    ensures a == b
  {
    hide InMemory32;
    var p, q := InMemory64(a), InMemory64(b);
    assert p[..4] == q[..4] && p[4..] == q[4..];
    InMemory32Injective(a % 0x1_0000_0000, b % 0x1_0000_0000);
    InMemory32Injective(a / 0x1_0000_0000, b / 0x1_0000_0000);
  }

  /** Tags compare equal, which is mpack_tag_equal, exactly when they are the same tag up to the
      integer type that holds a number. */
  lemma EqualTags(a: Tag, b: Tag)
    ensures TagCmp(a, b) == 0 <==> Canon(a) == Canon(b)
  {
    hide InMemory32, InMemory64, Compare;
    var l, r := Canon(a), Canon(b);
    if l.Float? && r.Float? {
      CompareEqual(InMemory32(l.f), InMemory32(r.f));
      if TagCmp(a, b) == 0 { InMemory32Injective(l.f, r.f); }
    } else if l.Double? && r.Double? {
      CompareEqual(InMemory64(l.d), InMemory64(r.d));
      if TagCmp(a, b) == 0 { InMemory64Injective(l.d, r.d); }
    }
  }

  lemma Antisymmetric(a: Tag, b: Tag)
    ensures TagCmp(b, a) == -TagCmp(a, b)
  {
    hide InMemory32, InMemory64, Compare;
    var l, r := Canon(a), Canon(b);
    if l.Float? && r.Float? {
      CompareAntisymmetric(InMemory32(l.f), InMemory32(r.f));
    } else if l.Double? && r.Double? {
      CompareAntisymmetric(InMemory64(l.d), InMemory64(r.d));
    }
  }

  lemma Transitive(a: Tag, b: Tag, c: Tag)
    requires TagCmp(a, b) <= 0 && TagCmp(b, c) <= 0
    ensures TagCmp(a, c) <= 0
  {
    hide InMemory32, InMemory64, Compare;
    var x, y, z := Canon(a), Canon(b), Canon(c);
    if x.Float? && y.Float? && z.Float? {
      CompareTransitive(InMemory32(x.f), InMemory32(y.f), InMemory32(z.f));
    } else if x.Double? && y.Double? && z.Double? {
      CompareTransitive(InMemory64(x.d), InMemory64(y.d), InMemory64(z.d));
    }
  }

  /** Integers are ordered by their value, whichever type holds them. */
  lemma IntegersByValue(a: Tag, b: Tag)
    requires (a.Int? || a.Uint?) && (b.Int? || b.Uint?)
    ensures TagCmp(a, b) == Sign(IntegerOf(a), IntegerOf(b))
  {
  }

  /** Floats are not converted: all integers come before all floats, and those before all doubles. */
  lemma NumbersByType(a: Tag, f: u32, d: u64)
    requires a.Int? || a.Uint?
    ensures TagCmp(a, Float(f)) < 0 && TagCmp(Float(f), Double(d)) < 0 && TagCmp(a, Double(d)) < 0
  {
  }

  /** The order of the types, from the missing tag to the maps. */
  lemma TypesInOrder(b: bool, i: i64, u: u64, f: u32, d: u64, l: u32, e: i8, n: u32)
    requires i < 0
    ensures TagCmp(Missing, Nil) == TagCmp(Nil, Bool(b)) == TagCmp(Bool(b), Int(i)) == TagCmp(Int(i), Uint(u)) == -1
    ensures TagCmp(Uint(u), Float(f)) == TagCmp(Float(f), Double(d)) == TagCmp(Double(d), Str(l)) == -1
    ensures TagCmp(Str(l), Bin(n)) == TagCmp(Bin(n), Ext(e, l)) == TagCmp(Ext(e, l), Array(n)) == -1
    ensures TagCmp(Array(n), Map(l)) == -1
  {
  }

  /** Within a type: false before true, lengths and counts by size, exts by their type first. */
  lemma WithinType(a: u32, b: u32, e: i8, e': i8)
    ensures TagCmp(Bool(false), Bool(true)) == -1
    ensures TagCmp(Str(a), Str(b)) == TagCmp(Bin(a), Bin(b)) == TagCmp(Array(a), Array(b)) == TagCmp(Map(a), Map(b))
            == (if a < b then -1 else if a == b then 0 else 1)
    ensures TagCmp(Ext(e, a), Ext(e', b)) < 0 <==> e < e' || (e == e' && a < b)
  {
  }

  /** The number a byte string stands for, least significant byte first. */
  function LittleEndian(p: bytes): nat {
    if p == [] then 0 else p[0] + 256 * LittleEndian(p[1..])
  }

  lemma {:induction false} LittleEndianIsUnique(p: bytes, q: bytes)
    requires |p| == |q| && LittleEndian(p) == LittleEndian(q)
    ensures p == q
  {
    if p != [] {
      LittleEndianIsUnique(p[1..], q[1..]);
      assert p == [p[0]] + p[1..] && q == [q[0]] + q[1..];
    }
  }

  lemma LittleEndianOfFour(p: bytes, q: bytes)
    requires |p| == 4
    ensures LittleEndian(p) == p[0] as int + 0x100 * p[1] as int + 0x1_0000 * p[2] as int + 0x100_0000 * p[3] as int
    ensures LittleEndian(p + q) == LittleEndian(p) + 0x1_0000_0000 * LittleEndian(q)
  {
    assert LittleEndian(p[1..]) == p[1] + 256 * LittleEndian(p[2..]) by { assert p[1..][1..] == p[2..]; }
    assert LittleEndian(p[2..]) == p[2] + 256 * LittleEndian(p[3..]) by { assert p[2..][1..] == p[3..]; }
    assert LittleEndian(p[3..]) == p[3] + 256 * LittleEndian([]) by { assert p[3..][1..] == []; }
    var s := p + q;
    assert LittleEndian(s) == p[0] + 256 * LittleEndian(s[1..]);
    assert LittleEndian(s[1..]) == p[1] + 256 * LittleEndian(s[2..]) by { assert s[1..][1..] == s[2..]; }
    assert LittleEndian(s[2..]) == p[2] + 256 * LittleEndian(s[3..]) by { assert s[2..][1..] == s[3..]; }
    assert LittleEndian(s[3..]) == p[3] + 256 * LittleEndian(q) by { assert s[3..][1..] == q; }
  }

  lemma MemoryIsLittleEndian(a: u32, b: u64)
    ensures LittleEndian(InMemory32(a)) == a && LittleEndian(InMemory64(b)) == b
  {
    Memory32IsLittleEndian(a);
    var lo, hi := b % 0x1_0000_0000, b / 0x1_0000_0000;
    Memory32IsLittleEndian(lo);
    Memory32IsLittleEndian(hi);
    LittleEndianOfFour(InMemory32(lo), InMemory32(hi));
    hide InMemory32, LittleEndian;
  }

  lemma Memory32IsLittleEndian(a: u32)
    ensures LittleEndian(InMemory32(a)) == a
  {
    LittleEndianOfFour(InMemory32(a), []);
    LoadStoreU32(a, []);
    assert StoreU32(a) + [] == StoreU32(a);
    hide StoreU32, LittleEndian;
  }

  /** Floats and doubles are compared as they lie in memory, the least significant byte first. */
  lemma FloatsByMemory(p: bytes, q: bytes)
    requires |p| == |q|
    ensures |p| == 4 && LittleEndian(p) <= 0xFFFF_FFFF && LittleEndian(q) <= 0xFFFF_FFFF ==>
      TagCmp(Float(LittleEndian(p)), Float(LittleEndian(q))) == Compare(p, q)
    ensures |p| == 8 && LittleEndian(p) <= 0xFFFF_FFFF_FFFF_FFFF && LittleEndian(q) <= 0xFFFF_FFFF_FFFF_FFFF ==>
      TagCmp(Double(LittleEndian(p)), Double(LittleEndian(q))) == Compare(p, q)
  {
    hide InMemory32, InMemory64, LittleEndian, Compare;
    var a, b := LittleEndian(p), LittleEndian(q);
    if |p| == 4 && a <= 0xFFFF_FFFF && b <= 0xFFFF_FFFF {
      MemoryIsLittleEndian(a, 0);
      MemoryIsLittleEndian(b, 0);
      LittleEndianIsUnique(InMemory32(a), p);
      LittleEndianIsUnique(InMemory32(b), q);
    } else if |p| == 8 && a <= 0xFFFF_FFFF_FFFF_FFFF && b <= 0xFFFF_FFFF_FFFF_FFFF {
      MemoryIsLittleEndian(0, a);
      MemoryIsLittleEndian(0, b);
      LittleEndianIsUnique(InMemory64(a), p);
      LittleEndianIsUnique(InMemory64(b), q);
    }
  }

  /** The order in use: what the header parser returns for a printed tag is equal to that tag. */
  lemma ParsedTagIsEqual(t: Tag, tail: bytes)
    requires t != Missing
    ensures ParseTag(EncodeTag(t) + tail).Header? && TagCmp(ParseTag(EncodeTag(t) + tail).tag, t) == 0
  {
    hide ParseTag, EncodeTag;
    TagRoundTrip(t, tail);
    EqualTags(Canon(t), t);
  }
}
