/** Python objects and the writing half of msgpack.c. */
module Objects {
  import opened Bytes
  import opened Errors
  import opened Tags
  import opened Values
  import opened Track
  import opened TrackedRuns
  import opened Writers

  /** The objects msgpack.c tells apart. Floats are carried as bit patterns; `PyOther` is any object
      of another type. A dict is its hash table with the count that goes with it. */
  datatype Obj =
    | PyNone
    | PyBool(b: bool)
    | PyInt(n: int)
    | PyFloat(bits: u32)
    | PyStr(s: bytes)
    | PyBytes(s: bytes)
    | PyList(items: seq<Obj>)
    | PyTuple(items: seq<Obj>)
    | PyDict(used: nat, table: seq<Slot>)
    | PyValue(value: Obj)
    | PyOther

  datatype Slot = Empty | Filled(key: Obj, value: Obj)

  /** `Hangs` says that the call never returns. */
  datatype Outcome = Returned | TypeError | ValueError | Hangs

  const UVALUE_TYPE: i8 := 1

  function FilledSlots(table: seq<Slot>): nat {
    if table == [] then 0 else (if table[0].Filled? then 1 else 0) + FilledSlots(table[1..])
  }

  /** No object of an unknown type inside. */
  predicate Known(o: Obj) {
    match o
    case PyList(items) => KnownAll(items)
    case PyTuple(items) => KnownAll(items)
    case PyDict(_, table) => KnownSlots(table)
    case PyValue(v) => Known(v)
    case PyOther => false
    case _ => true
  }

  predicate KnownAll(os: seq<Obj>) {
    os == [] || (Known(os[0]) && KnownAll(os[1..]))
  }

  predicate KnownSlots(table: seq<Slot>) {
    table == [] || (KnownSlot(table[0]) && KnownSlots(table[1..]))
  }

  predicate KnownSlot(s: Slot) {
    s.Filled? ==> Known(s.key) && Known(s.value)
  }

  /** The object and its encodings lie in the address space, and dicts count their filled slots. */
  predicate Fits(o: Obj)
    decreases o, 0
  {
    match o
    case PyStr(s) => |s| <= SIZE_MAX
    case PyBytes(s) => |s| <= SIZE_MAX
    case PyList(items) => |items| <= SIZE_MAX && FitsAll(items)
    case PyTuple(items) => |items| <= SIZE_MAX && FitsAll(items)
    case PyDict(used, table) => used == FilledSlots(table) <= SIZE_MAX && FitsSlots(table)
    case PyValue(v) => Fits(v) && (Known(v) ==> |Encode(ValueOf(v))| <= SIZE_MAX)
    case _ => true
  }

  predicate FitsAll(os: seq<Obj>)
    decreases os, 0
  {
    os == [] || (Fits(os[0]) && FitsAll(os[1..]))
  }

  predicate FitsSlots(table: seq<Slot>)
    decreases table, 0
  {
    table == [] || (FitsSlot(table[0]) && FitsSlots(table[1..]))
  }

  predicate FitsSlot(s: Slot)
    decreases s, 0
  {
    s.Filled? ==> Fits(s.key) && Fits(s.value)
  }

  /** mp_obj_get_int_truncated: the low 32 bits, as a signed number. */
  function Truncated32(n: int): i32 {
    I32OfU32(n % 0x1_0000_0000)
  }

  /** The MessagePack value that stands for an object. */
  function ValueOf(o: Obj): Value
    requires Fits(o) && Known(o)
    decreases o, 1
  {
    match o
    case PyNone => Value(Nil, [], [])
    case PyBool(b) => Value(Bool(b), [], [])
    case PyInt(n) => Value(Int(Truncated32(n)), [], [])
    case PyFloat(bits) => Value(Float(bits), [], [])
    case PyStr(s) => Value(Str(|s|), s, [])
    case PyBytes(s) => Value(Bin(|s|), s, [])
    case PyList(items) => Value(Array(|items|), [], ValuesOf(items))
    case PyTuple(items) => Value(Array(|items|), [], ValuesOf(items))
    case PyDict(used, table) => Value(Map(used), [], SlotValues(table))
    case PyValue(v) => Value(Ext(UVALUE_TYPE, |Encode(ValueOf(v))|), Encode(ValueOf(v)), [])
  }

  function ValuesOf(os: seq<Obj>): (vs: seq<Value>)
    requires FitsAll(os) && KnownAll(os)
    ensures |vs| == |os|
    decreases os, 1
  {
    if os == [] then [] else [ValueOf(os[0])] + ValuesOf(os[1..])
  }

  function SlotValues(table: seq<Slot>): (vs: seq<Value>)
    requires FitsSlots(table) && KnownSlots(table)
    ensures |vs| == 2 * FilledSlots(table)
    decreases table, 1
  {
    if table == [] then [] else SlotValue(table[0]) + SlotValues(table[1..])
  }

  function SlotValue(s: Slot): (vs: seq<Value>)
    requires FitsSlot(s) && KnownSlot(s)
    ensures |vs| == if s.Filled? then 2 else 0
    decreases s, 1
  {
    if s.Filled? then [ValueOf(s.key), ValueOf(s.value)] else []
  }

  /** The bytes that are written for an object: its encoding, or what comes before the first part of
      unknown type. */
  ghost function Bulk(o: Obj): nat
    requires Fits(o)
    decreases o, 1
  {
    if Known(o) then |Encode(ValueOf(o))|
    else
      match o
      case PyList(items) => |EncodeTag(Array(|items|))| + BulkAll(items)
      case PyTuple(items) => |EncodeTag(Array(|items|))| + BulkAll(items)
      case PyDict(used, table) => |EncodeTag(Map(used))| + BulkSlots(table)
      case PyValue(v) => Bulk(v)
      case _ => 0
  }

  ghost function BulkAll(os: seq<Obj>): nat
    requires FitsAll(os)
    decreases os, 1
  {
    if os == [] then 0 else Bulk(os[0]) + if Known(os[0]) then BulkAll(os[1..]) else 0
  }

  ghost function BulkSlots(table: seq<Slot>): nat
    requires FitsSlots(table)
    decreases table, 1
  {
    if table == [] then 0 else BulkSlot(table[0]) + if KnownSlot(table[0]) then BulkSlots(table[1..]) else 0
  }

  ghost function BulkSlot(s: Slot): nat
    requires FitsSlot(s)
    decreases s, 1
  {
    if s.Empty? then 0 else Bulk(s.key) + if Known(s.key) then Bulk(s.value) else 0
  }

  // ---------------------------------------------------------------------------------------------
  // The state of the writer in the loops of msgpack_dump

  /** The writer as it was before a container. */
  datatype Mark = Mark(error: Error, flush: FlushFn, output: bytes, healthy: bool, frugal: bool)

  ghost function MarkOf(w: Writer): Mark
    reads w, w.buffer
    requires w.Valid()
  {
    Mark(w.error, w.flush, w.Output(), w.Healthy(), w.Frugal())
  }

  /** Since the mark, `data` has been written and the track stack has gone to `t`. */
  ghost predicate Since(w: Writer, m: Mark, t: Tracked, data: bytes)
    reads w, w.buffer
  {
    && w.Valid() && w.flush == m.flush
    && (m.error != NoError ==> w.error == m.error)
    && (w.error == NoError ==> t == Tracked(w.track) && w.Output() == m.output + data)
    && (m.healthy && t.Tracked? ==>
          if |m.output| + |data| <= LARGEST then w.Healthy() else w.error == NoReturn)
    && (w.error == NoError && m.frugal ==> w.Frugal())
  }

  /** What a dump comes to on a writer that nothing hinders, `e` being the error it leaves and `total` the
      bytes written by then: what the type decides, unless two to the 31 bytes are not enough. */
  predicate Comes(r: Outcome, e: Error, known: bool, total: nat) {
    var expected := if known then Returned else TypeError;
    if total <= LARGEST then r == expected && e != NoReturn else r in {expected, Hangs} || e == NoReturn
  }

  /** An error stays. */
  predicate Stays(before: Error, after: Error) {
    before != NoError ==> after == before
  }

  /** The same for a whole block: a call that has to write more does not return. */
  predicate Ends(r: Outcome, known: bool, total: nat) {
    var expected := if known then Returned else TypeError;
    if total <= LARGEST then r == expected else r == Hangs || (!known && r == TypeError)
  }

  /** Written by then: headers and elements. */
  lemma {:induction false} BulkOfItems(items: seq<Obj>)
    requires FitsAll(items) && KnownAll(items)
    ensures BulkAll(items) == |EncodeAll(ValuesOf(items))|
  {
    hide Encode, ValueOf;
    if items != [] {
      BulkOfItems(items[1..]);
      assert ValuesOf(items)[1..] == ValuesOf(items[1..]);
    }
  }

  lemma {:induction false} BulkOfSlots(table: seq<Slot>)
    requires FitsSlots(table) && KnownSlots(table)
    ensures BulkSlots(table) == |EncodeAll(SlotValues(table))|
  {
    hide Encode, ValueOf, EncodeAll, BulkSlot, SlotValue;
    if table == [] {
      NoSlots();
    } else {
      BulkOfSlots(table[1..]);
      BulkOfSlot(table[0]);
      EncodeAllAppend(SlotValue(table[0]), SlotValues(table[1..]));
    }
  }

  lemma BulkOfSlot(s: Slot)
    requires FitsSlot(s) && KnownSlot(s)
    ensures BulkSlot(s) == |EncodeAll(SlotValue(s))|
  {
    hide Encode, ValueOf;
    if s.Filled? { PairBytes(ValueOf(s.key), ValueOf(s.value)); }
  }

  lemma BulkOfArray(o: Obj, items: seq<Obj>)
    requires Fits(o) && (o == PyList(items) || o == PyTuple(items))
    ensures Bulk(o) == |EncodeTag(Array(|items|))| + BulkAll(items)
  {
    hide EncodeTag, EncodeAll;
    if KnownAll(items) { BulkOfItems(items); }
  }

  lemma BulkOfDict(used: nat, table: seq<Slot>)
    requires Fits(PyDict(used, table))
    ensures Bulk(PyDict(used, table)) == |EncodeTag(Map(used))| + BulkSlots(table)
  {
    hide EncodeTag, EncodeAll;
    if KnownSlots(table) { BulkOfSlots(table); }
  }

  lemma BulkOfValue(v: Obj)
    requires Fits(PyValue(v))
    ensures Bulk(v) <= Bulk(PyValue(v))
  {
    hide EncodeTag, EncodeAll;
  }

  lemma SinceComes(w: Writer, m: Mark, t: Tracked, data: bytes)
    requires Since(w, m, t, data) && m.healthy && t.Tracked?
    ensures Comes(Returned, w.error, true, |m.output| + |data|)
  {
  }

  // ---------------------------------------------------------------------------------------------
  // Dumping

  /** msgpack_dump. It writes the value that stands for the object, as one element. On a writer that nothing
      hinders it raises a TypeError for objects of unknown type, and nothing else. */
  method Dump(w: Writer, o: Obj) returns (r: Outcome)
    requires w.Valid() && Fits(o)
    modifies w, w.buffer
    ensures w.Valid() && (w.buffer == old(w.buffer) || fresh(w.buffer)) && Stays(old(w.error), w.error)
    ensures r == Returned ==> Known(o) && w.Wrote(Element(old(w.track)), Encode(ValueOf(o)))
    ensures r == TypeError ==> !Known(o)
    ensures old(w.Healthy()) && Element(old(w.track)).Tracked? ==>
      Comes(r, w.error, Known(o), |old(w.Output())| + Bulk(o))
    decreases o, 0
  {
    hide Element, EncodeTag, Bulk;
    r := Returned;
    match o
    case PyList(items) =>
      BulkOfArray(o, items);
      r := DumpArray(w, items);
    case PyTuple(items) =>
      BulkOfArray(o, items);
      r := DumpArray(w, items);
    case PyDict(used, table) =>
      BulkOfDict(used, table);
      r := DumpDict(w, used, table);
    case PyValue(v) => r := DumpValue(w, v);
    case PyOther => r := TypeError;
    case _ =>
      LeafBulk(o);
      DumpLeaf(w, o);
  }

  predicate IsLeaf(o: Obj) {
    o.PyNone? || o.PyBool? || o.PyInt? || o.PyFloat? || o.PyStr? || o.PyBytes?
  }

  /** The objects without others inside. */
  method DumpLeaf(w: Writer, o: Obj)
    requires w.Valid() && Fits(o) && IsLeaf(o)
    modifies w, w.buffer
    ensures w.Wrote(Element(old(w.track)), Encode(ValueOf(o)))
  {
    hide Element, EncodeTag;
    LeafBytes(o);
    match o
    case PyNone => w.WriteScalar(Nil);
    case PyBool(b) => w.WriteScalar(Bool(b));
    case PyInt(n) => w.WriteScalar(Int(Truncated32(n)));
    case PyFloat(bits) => w.WriteScalar(Float(bits));
    case PyStr(s) => w.WriteStr(s);
    case PyBytes(s) => w.WriteBlob(Bin(|s|), s);
  }

  lemma LeafBytes(o: Obj)
    requires Fits(o) && IsLeaf(o)
    ensures Encode(ValueOf(o)) == EncodeTag(ValueOf(o).tag) + ValueOf(o).payload
    ensures ValueOf(o).payload == [] ==> Encode(ValueOf(o)) == EncodeTag(ValueOf(o).tag)
  {
  }

  lemma LeafBulk(o: Obj)
    requires Fits(o) && IsLeaf(o)
    ensures Bulk(o) == |Encode(ValueOf(o))|
  {
  }

  method OpenContainer(w: Writer, tag: Tag)
    requires w.Valid() && (tag.Array? || tag.Map?)
    modifies w, w.buffer
    ensures w.buffer == old(w.buffer) || fresh(w.buffer)
    ensures Since(w, old(MarkOf(w)), Inside(old(w.track), KindOf(tag), ChildCount(tag)), EncodeTag(tag))
  {
    hide Element, EncodeTag, Inside, OpenElement;
    ContainerTrack(w.track, tag, 0);
    w.Start(tag);
  }

  method CloseContainer(w: Writer, tag: Tag, ghost m: Mark, ghost st: Stack, ghost data: bytes)
    requires w.Valid() && (tag.Array? || tag.Map?) && Since(w, m, Inside(st, KindOf(tag), 0), data)
    modifies w
    ensures Since(w, m, Element(st), data) && (w.buffer == old(w.buffer) || fresh(w.buffer))
  {
    hide Element, Pop;
    ContainerTrack(st, tag, 0);
    assert data + [] == data;
    w.Finish(KindOf(tag));
  }

  /** Lists and tuples. */
  method DumpArray(w: Writer, items: seq<Obj>) returns (r: Outcome)
    requires w.Valid() && FitsAll(items) && |items| <= SIZE_MAX
    modifies w, w.buffer
    ensures w.Valid() && (w.buffer == old(w.buffer) || fresh(w.buffer)) && Stays(old(w.error), w.error)
    ensures r == Returned ==>
      KnownAll(items) && w.Wrote(Element(old(w.track)), Encode(Value(Array(|items|), [], ValuesOf(items))))
    ensures r == TypeError ==> !KnownAll(items)
    ensures old(w.Healthy()) && Element(old(w.track)).Tracked? ==>
      Comes(r, w.error, KnownAll(items), |old(w.Output())| + |EncodeTag(Array(|items|))| + BulkAll(items))
    decreases items, 2
  {
    hide Element, EncodeTag, Inside, EncodeAll;
    ghost var m, st := MarkOf(w), w.track;
    var tag := Array(|items|);
    OpenContainer(w, tag);
    r := DumpItems(w, items, m, st, EncodeTag(tag));
    if r == Returned {
      BulkOfItems(items);
      CloseContainer(w, tag, m, st, EncodeTag(tag) + EncodeAll(ValuesOf(items)));
      assert EncodeTag(tag) + [] == EncodeTag(tag);
    }
  }

  lemma NoItems()
    ensures FitsAll([]) && KnownAll([]) && EncodeAll(ValuesOf([])) == [] && BulkAll([]) == 0
  {
  }

  lemma ItemsStep(items: seq<Obj>, i: nat)
    requires i < |items|
    ensures var o, left, more := items[i], items[i..], items[i + 1..];
      && (FitsAll(left) <==> Fits(o) && FitsAll(more))
      && (KnownAll(left) <==> Known(o) && KnownAll(more))
      && (FitsAll(left) ==> BulkAll(left) == Bulk(o) + if Known(o) then BulkAll(more) else 0)
      && (Fits(o) && Known(o) ==> Bulk(o) == |Encode(ValueOf(o))|)
      && (FitsAll(left) && KnownAll(left) ==>
            EncodeAll(ValuesOf(left)) == Encode(ValueOf(o)) + EncodeAll(ValuesOf(more)))
  {
    hide Encode;
    var left := items[i..];
    assert left[0] == items[i] && left[1..] == items[i + 1..];
    if FitsAll(left) && KnownAll(left) {
      assert ValuesOf(left)[1..] == ValuesOf(left[1..]);
    }
  }

  method DumpItems(w: Writer, items: seq<Obj>, ghost m: Mark, ghost st: Stack, ghost head: bytes) returns (r: Outcome)
    requires w.Valid() && FitsAll(items) && |items| <= SIZE_MAX
    requires Since(w, m, Inside(st, ArrayKind, |items|), head)
    modifies w, w.buffer
    ensures w.Valid() && (w.buffer == old(w.buffer) || fresh(w.buffer)) && Stays(old(w.error), w.error)
    ensures r == Returned ==> KnownAll(items) && Since(w, m, Inside(st, ArrayKind, 0), head + EncodeAll(ValuesOf(items)))
    ensures r == TypeError ==> !KnownAll(items)
    ensures m.healthy && Element(st).Tracked? ==>
      Comes(r, w.error, KnownAll(items), |m.output| + |head| + BulkAll(items))
    decreases items, 1
  {
    hide Element, Encode, Since, Known, Fits, ValueOf, KnownAll, FitsAll, ValuesOf, EncodeAll, BulkAll, Bulk;
    NoItems();
    ghost var data, before := head, w.error;
    var i := 0;
    assert items[0..] == items;
    while i < |items|
      invariant 0 <= i <= |items| && w.Valid() && (w.buffer == old(w.buffer) || fresh(w.buffer))
      invariant Stays(before, w.error)
      invariant Since(w, m, Inside(st, ArrayKind, |items| - i), data)
      invariant FitsAll(items[i..]) && (KnownAll(items[i..]) <==> KnownAll(items))
      invariant |data| + BulkAll(items[i..]) == |head| + BulkAll(items)
      invariant KnownAll(items) ==> data + EncodeAll(ValuesOf(items[i..])) == head + EncodeAll(ValuesOf(items))
    {
      ItemsStep(items, i);
      ContainerTrack(st, Array(|items|), |items| - i);
      r := DumpElement(w, items[i], m, Inside(st, ArrayKind, |items| - i), data);
      if r != Returned { return; }
      if KnownAll(items) {
        Regroup([], data, Encode(ValueOf(items[i])), EncodeAll(ValuesOf(items[i + 1..])));
      }
      data := data + Encode(ValueOf(items[i]));
      i := i + 1;
    }
    r := Returned;
    assert items[i..] == [] && data + [] == data;
    ContainerTrack(st, Array(|items|), 0);
    if m.healthy && Element(st).Tracked? { SinceComes(w, m, Inside(st, ArrayKind, 0), data); }
  }

  /** One step of the loops. */
  method DumpElement(w: Writer, o: Obj, ghost m: Mark, ghost t: Tracked, ghost data: bytes) returns (r: Outcome)
    requires Since(w, m, t, data) && Fits(o)
    modifies w, w.buffer
    ensures w.Valid() && (w.buffer == old(w.buffer) || fresh(w.buffer)) && Stays(old(w.error), w.error)
    ensures r == Returned ==> Known(o) && Since(w, m, OneMore(t), data + Encode(ValueOf(o)))
    ensures r == TypeError ==> !Known(o)
    ensures m.healthy && OneMore(t).Tracked? ==>
      Comes(r, w.error, Known(o), |m.output| + |data| + Bulk(o))
    decreases o, 1
  {
    hide Element, Encode;
    r := Dump(w, o);
    if r == Returned {
      assert (m.output + data) + Encode(ValueOf(o)) == m.output + (data + Encode(ValueOf(o)));
    }
  }

  /** A dict: the filled slots, in the order of the table. */
  method DumpDict(w: Writer, used: nat, table: seq<Slot>) returns (r: Outcome)
    requires w.Valid() && FitsSlots(table) && used == FilledSlots(table) <= SIZE_MAX
    modifies w, w.buffer
    ensures w.Valid() && (w.buffer == old(w.buffer) || fresh(w.buffer)) && Stays(old(w.error), w.error)
    ensures r == Returned ==>
      KnownSlots(table) && w.Wrote(Element(old(w.track)), Encode(Value(Map(used), [], SlotValues(table))))
    ensures r == TypeError ==> !KnownSlots(table)
    ensures old(w.Healthy()) && Element(old(w.track)).Tracked? ==>
      Comes(r, w.error, KnownSlots(table), |old(w.Output())| + |EncodeTag(Map(used))| + BulkSlots(table))
    decreases table, 2
  {
    hide Element, EncodeTag, Inside, EncodeAll;
    ghost var m, st := MarkOf(w), w.track;
    var tag := Map(used);
    OpenContainer(w, tag);
    r := DumpSlots(w, table, m, st, EncodeTag(tag));
    if r == Returned {
      BulkOfSlots(table);
      CloseContainer(w, tag, m, st, EncodeTag(tag) + EncodeAll(SlotValues(table)));
      assert EncodeTag(tag) + [] == EncodeTag(tag);
    }
  }

  method DumpSlots(w: Writer, table: seq<Slot>, ghost m: Mark, ghost st: Stack, ghost head: bytes) returns (r: Outcome)
    requires w.Valid() && FitsSlots(table) && FilledSlots(table) <= SIZE_MAX
    requires Since(w, m, Inside(st, MapKind, 2 * FilledSlots(table)), head)
    modifies w, w.buffer
    ensures w.Valid() && (w.buffer == old(w.buffer) || fresh(w.buffer)) && Stays(old(w.error), w.error)
    ensures r == Returned ==> KnownSlots(table) && Since(w, m, Inside(st, MapKind, 0), head + EncodeAll(SlotValues(table)))
    ensures r == TypeError ==> !KnownSlots(table)
    ensures m.healthy && Element(st).Tracked? ==>
      Comes(r, w.error, KnownSlots(table), |m.output| + |head| + BulkSlots(table))
    decreases table, 1
  {
    hide Element, Encode, Since, KnownSlots, FitsSlots, FilledSlots, SlotValues, SlotValue, KnownSlot, FitsSlot, EncodeAll,
         BulkSlots, BulkSlot;
    NoSlots();
    ghost var data, before := head, w.error;
    var i := 0;
    assert table[0..] == table;
    while i < |table|
      invariant 0 <= i <= |table| && w.Valid() && (w.buffer == old(w.buffer) || fresh(w.buffer))
      invariant Stays(before, w.error)
      invariant Since(w, m, Inside(st, MapKind, 2 * FilledSlots(table[i..])), data)
      invariant FilledSlots(table[i..]) <= SIZE_MAX && FitsSlots(table[i..])
      invariant KnownSlots(table[i..]) <==> KnownSlots(table)
      invariant |data| + BulkSlots(table[i..]) == |head| + BulkSlots(table)
      invariant KnownSlots(table) ==> data + EncodeAll(SlotValues(table[i..])) == head + EncodeAll(SlotValues(table))
    {
      SlotsStep(table, i);
      r := DumpSlot(w, table[i], m, st, FilledSlots(table[i..]), data);
      if r != Returned { return; }
      BulkOfSlot(table[i]);
      if KnownSlots(table) {
        Regroup([], data, EncodeAll(SlotValue(table[i])), EncodeAll(SlotValues(table[i + 1..])));
      }
      data := data + EncodeAll(SlotValue(table[i]));
      i := i + 1;
    }
    r := Returned;
    assert table[i..] == [] && data + [] == data;
    ContainerTrack(st, Map(FilledSlots(table)), 0);
    if m.healthy && Element(st).Tracked? { SinceComes(w, m, Inside(st, MapKind, 0), data); }
  }

  lemma {:induction false} EncodeAllAppend(xs: seq<Value>, ys: seq<Value>)
    ensures EncodeAll(xs + ys) == EncodeAll(xs) + EncodeAll(ys)
  {
    hide Encode;
    if xs == [] {
      assert xs + ys == ys;
    } else {
      EncodeAllAppend(xs[1..], ys);
      assert (xs + ys)[1..] == xs[1..] + ys;
    }
  }

  lemma NoSlots()
    ensures FilledSlots([]) == 0 && FitsSlots([]) && KnownSlots([]) && EncodeAll(SlotValues([])) == []
  {
  }

  lemma SlotsStep(table: seq<Slot>, i: nat)
    requires i < |table|
    ensures var s, left, more := table[i], table[i..], table[i + 1..];
      && FilledSlots(left) == (if s.Filled? then 1 else 0) + FilledSlots(more)
      && (FitsSlots(left) <==> FitsSlot(s) && FitsSlots(more))
      && (KnownSlots(left) <==> KnownSlot(s) && KnownSlots(more))
      && (FitsSlots(left) ==> BulkSlots(left) == BulkSlot(s) + if KnownSlot(s) then BulkSlots(more) else 0)
      && (FitsSlots(left) && KnownSlots(left) ==>
            EncodeAll(SlotValues(left)) == EncodeAll(SlotValue(s)) + EncodeAll(SlotValues(more)))
  {
    hide KnownSlot, FitsSlot, SlotValue;
    var left := table[i..];
    assert left[0] == table[i] && left[1..] == table[i + 1..];
    if FitsSlots(left) && KnownSlots(left) {
      EncodeAllAppend(SlotValue(left[0]), SlotValues(left[1..]));
    }
  }

  /** The key and the value of a slot, if it is filled. */
  method DumpSlot(w: Writer, s: Slot, ghost m: Mark, ghost st: Stack, ghost n: nat, ghost data: bytes) returns (r: Outcome)
    requires FitsSlot(s) && n <= SIZE_MAX && (s.Filled? ==> n > 0)
    requires Since(w, m, Inside(st, MapKind, 2 * n), data) && w.Valid()
    modifies w, w.buffer
    ensures w.Valid() && (w.buffer == old(w.buffer) || fresh(w.buffer)) && Stays(old(w.error), w.error)
    ensures r == Returned ==> KnownSlot(s)
    ensures r == Returned ==>
      Since(w, m, Inside(st, MapKind, 2 * if s.Filled? then n - 1 else n), data + EncodeAll(SlotValue(s)))
    ensures r == TypeError ==> !KnownSlot(s)
    ensures m.healthy && Element(st).Tracked? ==>
      Comes(r, w.error, KnownSlot(s), |m.output| + |data| + BulkSlot(s))
    decreases s, 1
  {
    hide Element, Encode, Since;
    r := Returned;
    assert data + [] == data;
    if s.Filled? {
      ContainerTrack(st, Map(n), 2 * n);
      ContainerTrack(st, Map(n), 2 * n - 1);
      r := DumpElement(w, s.key, m, Inside(st, MapKind, 2 * n), data);
      if r != Returned { return; }
      ghost var k := Encode(ValueOf(s.key));
      r := DumpElement(w, s.value, m, Inside(st, MapKind, 2 * n - 1), data + k);
      if r != Returned { return; }
      PairBytes(ValueOf(s.key), ValueOf(s.value));
      assert (data + k) + Encode(ValueOf(s.value)) == data + (k + Encode(ValueOf(s.value)));
    } else if m.healthy && Element(st).Tracked? {
      SinceComes(w, m, Inside(st, MapKind, 2 * n), data);
    }
  }

  lemma PairBytes(a: Value, b: Value)
    ensures EncodeAll([a, b]) == Encode(a) + Encode(b)
  {
    hide Encode;
    assert [a, b][1..] == [b] && [b][1..] == [];
    assert EncodeAll([b]) == Encode(b) + EncodeAll([]) == Encode(b);
  }

  /** A UValue is an ext that holds the dump of its value. */
  method DumpValue(w: Writer, v: Obj) returns (r: Outcome)
    requires w.Valid() && Fits(PyValue(v))
    modifies w, w.buffer
    ensures w.Valid() && (w.buffer == old(w.buffer) || fresh(w.buffer)) && Stays(old(w.error), w.error)
    ensures r == Returned ==> Known(v) && w.Wrote(Element(old(w.track)), Encode(ValueOf(PyValue(v))))
    ensures r == TypeError ==> !Known(v)
    ensures old(w.Healthy()) && Element(old(w.track)).Tracked? ==>
      Comes(r, w.error, Known(v), |old(w.Output())| + Bulk(PyValue(v)))
    decreases v, 3
  {
    hide Element, EncodeTag, Bulk;
    BulkOfValue(v);
    KnownValueBulk(v);
    var block, size, outcomes;
    r, block, size, outcomes := Dumps(v, w.outcomes);
    w.outcomes := outcomes;
    if r != Returned { return; }
    w.WriteBlob(Ext(UVALUE_TYPE, size), block[..size]);
  }

  lemma KnownValueBulk(v: Obj)
    requires Fits(PyValue(v))
    ensures Known(v) ==> Bulk(PyValue(v)) == |Encode(ValueOf(PyValue(v)))|
  {
    hide Encode;
  }

  /** msgpack_dumps. The allocator goes on from `outcomes` to `left`. */
  method Dumps(o: Obj, outcomes: seq<bool>) returns (r: Outcome, block: array?<byte>, size: nat, left: seq<bool>)
    requires Fits(o)
    ensures r == Returned ==> Known(o) && block != null && size <= block.Length && block[..size] == Encode(ValueOf(o))
    ensures r == TypeError ==> !Known(o)
    ensures (forall b | b in outcomes :: b) ==> Ends(r, Known(o), Bulk(o))
    ensures (forall b | b in outcomes :: b) && r == Returned ==> forall b | b in left :: b
    decreases o, 2
  {
    block, size := null, 0;
    var w := InitGrowable(outcomes);
    r := Dump(w, o);
    left := w.outcomes;
    if w.error == NoReturn { r := Hangs; }
    if r != Returned { return; }
    var error;
    error, block, size := w.Destroy();
    left := w.outcomes;
    if error != NoError { r := ValueError; }
  }

  /** msgpack_args_dumps: what msgpack_dumps gives for the tuple of the arguments. */
  method ArgsDumps(args: seq<Obj>, outcomes: seq<bool>) returns (r: Outcome, block: array?<byte>, size: nat)
    requires Fits(PyTuple(args))
    ensures r == Returned ==> KnownAll(args) && block != null && size <= block.Length
    ensures r == Returned ==> block[..size] == Encode(ValueOf(PyTuple(args)))
    ensures r == TypeError ==> !KnownAll(args)
    ensures (forall b | b in outcomes :: b) ==> Ends(r, KnownAll(args), Bulk(PyTuple(args)))
  {
    BulkOfArray(PyTuple(args), args);
    block, size := null, 0;
    var w := InitGrowable(outcomes);
    r := DumpArray(w, args);
    if w.error == NoReturn { r := Hangs; }
    if r != Returned { return; }
    var error;
    error, block, size := w.Destroy();
    if error != NoError { r := ValueError; }
  }
}
