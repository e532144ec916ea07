/** What msgpack_dump writes, type by type, in the formats of the specification. */
module DumpForms {
  import opened Bytes
  import opened Tags
  import opened Values
  import opened Objects
  import opened Formats

  /** A number of 32 bits that differs from `n` by a multiple of two to the 32. */
  predicate Cut(n: int, m: int) {
    -0x8000_0000 <= m < 0x8000_0000 && (n - m) % 0x1_0000_0000 == 0
  }

  predicate IsInteger(s: bytes, m: int)
    requires -0x8000_0000 <= m < 0x8000_0000
  {
    IsHeader(s, if m >= 0 then Uint(m) else Int(m))
  }

  /** `s` is `head` bytes of a header of `t` and then `payload`. */
  predicate Headed(s: bytes, t: Tag, payload: bytes) {
    |payload| <= |s| && s[|s| - |payload|..] == payload && IsHeader(s[..|s| - |payload|], t)
  }

  /** `s` is a dump of `o`. */
  ghost predicate IsDump(o: Obj, s: bytes)
    requires Fits(o)
    decreases o, 0
  {
    match o
    case PyNone => IsHeader(s, Nil)
    case PyBool(b) => IsHeader(s, Bool(b))
    case PyInt(n) => exists m :: Cut(n, m) && IsInteger(s, m)
    case PyFloat(bits) => IsHeader(s, Float(bits))
    case PyStr(t) => Headed(s, Str(|t|), t)
    case PyBytes(t) => Headed(s, Bin(|t|), t)
    case PyList(items) => exists k: nat :: k <= |s| && IsHeader(s[..k], Array(|items|)) && AreDumps(items, s[k..])
    case PyTuple(items) => exists k: nat :: k <= |s| && IsHeader(s[..k], Array(|items|)) && AreDumps(items, s[k..])
    case PyDict(used, table) => exists k: nat :: k <= |s| && IsHeader(s[..k], Map(used)) && AreSlotDumps(table, s[k..])
    case PyValue(v) =>
      exists k: nat :: k <= |s| && |s| - k <= SIZE_MAX && IsHeader(s[..k], Ext(1, |s| - k)) && IsDump(v, s[k..])
    case PyOther => false
  }

  /** `s` is dumps of the objects, one after the other. */
  ghost predicate AreDumps(os: seq<Obj>, s: bytes)
    requires FitsAll(os)
    decreases os, 1
  {
    if os == [] then s == []
    else exists k: nat :: k <= |s| && IsDump(os[0], s[..k]) && AreDumps(os[1..], s[k..])
  }

  /** The same for the slots of a table. */
  ghost predicate AreSlotDumps(table: seq<Slot>, s: bytes)
    requires FitsSlots(table)
    decreases table, 1
  {
    if table == [] then s == []
    else exists k: nat :: k <= |s| && IsSlotDump(table[0], s[..k]) && AreSlotDumps(table[1..], s[k..])
  }

  /** An empty slot writes nothing, a filled one its key and then its value. */
  ghost predicate IsSlotDump(slot: Slot, s: bytes)
    requires FitsSlot(slot)
    decreases slot, 1
  {
    if slot.Empty? then s == []
    else exists k: nat :: k <= |s| && IsDump(slot.key, s[..k]) && IsDump(slot.value, s[k..])
  }

  /** The low 32 bits, and the number itself where it has no more. */
  lemma TruncatedIsCut(n: int)
    ensures Cut(n, Truncated32(n))
    ensures -0x8000_0000 <= n < 0x8000_0000 ==> Truncated32(n) == n
  {
    var u := n % 0x1_0000_0000;
    assert n == n / 0x1_0000_0000 * 0x1_0000_0000 + u;
    assert (n - u) % 0x1_0000_0000 == 0;
  }

  /** The cut number is the only one. */
  lemma CutIsUnique(n: int, m: int)
    requires Cut(n, m)
    ensures m == Truncated32(n)
  {
    TruncatedIsCut(n);
  }

  /** The encoding of the value for an object is a dump of it. */
  lemma {:induction false} EncodingIsDump(o: Obj)
    requires Fits(o) && Known(o)
    ensures IsDump(o, Encode(ValueOf(o)))
    decreases o, 0
  {
    hide EncodeTag, IsHeader, Truncated32, IsDump;
    var v := ValueOf(o);
    PrinterFollowsFormats(v.tag);
    match o
    case PyList(items) =>
      ItemsAreDumps(items);
      ArrayDump(o, items);
    case PyTuple(items) =>
      ItemsAreDumps(items);
      ArrayDump(o, items);
    case PyDict(used, table) =>
      SlotsAreDumps(table);
      DictDump(used, table);
    case PyValue(w) =>
      EncodingIsDump(w);
      ValueDump(w);
    case _ => LeafDump(o);
  }

  lemma LeafDump(o: Obj)
    requires Fits(o) && IsLeaf(o)
    ensures IsDump(o, Encode(ValueOf(o)))
  {
    hide EncodeTag, IsHeader, Truncated32;
    LeafBytes(o);
    var v := ValueOf(o);
    PrinterFollowsFormats(v.tag);
    DropOfConcat(EncodeTag(v.tag), v.payload);
    if o.PyInt? {
      TruncatedIsCut(o.n);
      assert Cut(o.n, Truncated32(o.n)) && IsInteger(Encode(v), Truncated32(o.n));
    }
  }

  lemma ArrayDump(o: Obj, items: seq<Obj>)
    requires Fits(o) && Known(o) && (o == PyList(items) || o == PyTuple(items))
    requires AreDumps(items, EncodeAll(ValuesOf(items)))
    ensures IsDump(o, Encode(ValueOf(o)))
  {
    hide EncodeTag, IsHeader, EncodeAll, AreDumps;
    var tag := Array(|items|);
    PrinterFollowsFormats(tag);
    var h, body := EncodeTag(tag), EncodeAll(ValuesOf(items));
    assert Encode(ValueOf(o)) == h + [] + body == h + body;
    DropOfConcat(h, body);
  }

  lemma DictDump(used: nat, table: seq<Slot>)
    requires var o := PyDict(used, table); Fits(o) && Known(o) && AreSlotDumps(table, EncodeAll(SlotValues(table)))
    ensures var o := PyDict(used, table); IsDump(o, Encode(ValueOf(o)))
  {
    hide EncodeTag, IsHeader, EncodeAll, AreSlotDumps;
    var tag := Map(used);
    PrinterFollowsFormats(tag);
    var h, body := EncodeTag(tag), EncodeAll(SlotValues(table));
    assert Encode(ValueOf(PyDict(used, table))) == h + [] + body == h + body;
    DropOfConcat(h, body);
  }

  lemma ValueDump(w: Obj)
    requires Fits(PyValue(w)) && Known(w) && IsDump(w, Encode(ValueOf(w)))
    ensures IsDump(PyValue(w), Encode(ValueOf(PyValue(w))))
  {
    hide EncodeTag, IsHeader, Encode, IsDump;
    var d := Encode(ValueOf(w));
    var tag := Ext(1, |d|);
    PrinterFollowsFormats(tag);
    ValueBytes(w);
    DropOfConcat(EncodeTag(tag), d);
    ValueForm(w, EncodeTag(tag), d);
  }

  lemma ValueBytes(w: Obj)
    requires Fits(PyValue(w)) && Known(w)
    ensures var d := Encode(ValueOf(w)); Encode(ValueOf(PyValue(w))) == EncodeTag(Ext(1, |d|)) + d
  {
    hide EncodeTag;
    assert EncodeAll([]) == [];
  }

  lemma ValueForm(w: Obj, h: bytes, d: bytes)
    requires Fits(PyValue(w)) && |d| <= SIZE_MAX && IsHeader(h, Ext(1, |d|)) && IsDump(w, d)
    ensures IsDump(PyValue(w), h + d)
  {
    hide IsHeader;
    DropOfConcat(h, d);
    assert |h + d| - |h| == |d|;
  }

  lemma {:induction false} ItemsAreDumps(os: seq<Obj>)
    requires FitsAll(os) && KnownAll(os)
    ensures AreDumps(os, EncodeAll(ValuesOf(os)))
    decreases os, 1
  {
    hide Encode, IsDump, ValueOf;
    if os != [] {
      EncodingIsDump(os[0]);
      ItemsAreDumps(os[1..]);
      assert ValuesOf(os)[1..] == ValuesOf(os[1..]);
      DropOfConcat(Encode(ValueOf(os[0])), EncodeAll(ValuesOf(os[1..])));
    }
  }

  lemma {:induction false} SlotsAreDumps(table: seq<Slot>)
    requires FitsSlots(table) && KnownSlots(table)
    ensures AreSlotDumps(table, EncodeAll(SlotValues(table)))
    decreases table, 1
  {
    hide Encode, IsDump, IsSlotDump, ValueOf, EncodeAll, SlotValue;
    if table == [] {
      NoSlots();
    } else {
      SlotIsDump(table[0]);
      SlotsAreDumps(table[1..]);
      SlotsStep(table, 0);
      assert table[0..] == table;
      DropOfConcat(EncodeAll(SlotValue(table[0])), EncodeAll(SlotValues(table[1..])));
    }
  }

  lemma {:induction false} SlotIsDump(slot: Slot)
    requires FitsSlot(slot) && KnownSlot(slot)
    ensures IsSlotDump(slot, EncodeAll(SlotValue(slot)))
    decreases slot, 1
  {
    hide Encode, IsDump, ValueOf;
    if slot.Filled? {
      EncodingIsDump(slot.key);
      EncodingIsDump(slot.value);
      PairBytes(ValueOf(slot.key), ValueOf(slot.value));
      DropOfConcat(Encode(ValueOf(slot.key)), Encode(ValueOf(slot.value)));
    }
  }
}
