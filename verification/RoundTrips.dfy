/** msgpack_loads takes back what msgpack_dumps wrote. */
module RoundTrips {
  import opened Bytes
  import opened Tags
  import opened Values
  import opened Objects
  import opened Loads
  import DumpForms
  import Utf8

  /** What an object comes back as: lists as tuples, integers cut to 32 bits, dicts without their
      empty slots. */
  function Norm(o: Obj): Obj {
    match o
    case PyInt(n) => PyInt(Truncated32(n))
    case PyList(items) => PyTuple(NormAll(items))
    case PyTuple(items) => PyTuple(NormAll(items))
    case PyDict(_, table) => PyDict(|NormSlots(table)|, NormSlots(table))
    case PyValue(v) => PyValue(Norm(v))
    case _ => o
  }

  function NormAll(os: seq<Obj>): (r: seq<Obj>)
    ensures |r| == |os|
  {
    if os == [] then [] else [Norm(os[0])] + NormAll(os[1..])
  }

  function NormSlots(table: seq<Slot>): (r: seq<Slot>)
    ensures |r| == FilledSlots(table)
  {
    if table == [] then [] else NormSlot(table[0]) + NormSlots(table[1..])
  }

  function NormSlot(s: Slot): (r: seq<Slot>)
    ensures |r| == if s.Filled? then 1 else 0
  {
    if s.Filled? then [Filled(Norm(s.key), Norm(s.value))] else []
  }

  /** Strings are well-formed text, and the keys of a dict can be told apart. */
  predicate Survives(rt: Runtime, o: Obj) {
    match o
    case PyStr(s) => Utf8.Valid(s, true)
    case PyList(items) => SurvivesAll(rt, items)
    case PyTuple(items) => SurvivesAll(rt, items)
    case PyDict(_, table) => SurvivesSlots(rt, table) && Apart(rt, [], NormSlots(table))
    case PyValue(v) => Survives(rt, v)
    case _ => true
  }

  predicate SurvivesAll(rt: Runtime, os: seq<Obj>) {
    os == [] || (Survives(rt, os[0]) && SurvivesAll(rt, os[1..]))
  }

  predicate SurvivesSlots(rt: Runtime, table: seq<Slot>) {
    table == [] || (SurvivesSlot(rt, table[0]) && SurvivesSlots(rt, table[1..]))
  }

  predicate SurvivesSlot(rt: Runtime, s: Slot) {
    s.Filled? ==> Survives(rt, s.key) && Survives(rt, s.value)
  }

  /** Each of the entries `more` has a key that is hashable and differs from the keys before it. */
  predicate Apart(rt: Runtime, entries: seq<Slot>, more: seq<Slot>)
    decreases |more|
  {
    more == []
    || (more[0].Filled? && rt.hashable(more[0].key) && NewKey(rt, entries, more[0].key)
        && Apart(rt, entries + [more[0]], more[1..]))
  }

  predicate NewKey(rt: Runtime, entries: seq<Slot>, key: Obj) {
    entries == [] || ((entries[0].Filled? ==> !rt.equal(entries[0].key, key)) && NewKey(rt, entries[1..], key))
  }

  lemma {:induction false} StoreEntry(rt: Runtime, entries: seq<Slot>, key: Obj, value: Obj)
    ensures NewKey(rt, entries, key) ==> Store(rt, entries, key, value) == entries + [Filled(key, value)]
    ensures !NewKey(rt, entries, key) ==> |Store(rt, entries, key, value)| == |entries|
  {
    if entries != [] {
      StoreEntry(rt, entries[1..], key, value);
      assert entries == [entries[0]] + entries[1..];
    }
  }

  // ---------------------------------------------------------------------------------------------

  /** Reading a value that has been written starts with its header. */
  lemma HeaderOfEncoding(v: Value, tail: bytes)
    requires v.tag != Missing
    ensures var s := Encode(v) + tail;
      ParseTag(s) == Header(Canon(v.tag), |EncodeTag(v.tag)|)
      && s[|EncodeTag(v.tag)|..] == v.payload + (EncodeAll(v.children) + tail)
  {
    hide ParseTag, EncodeTag;
    Regroup(EncodeTag(v.tag), v.payload, EncodeAll(v.children), tail);
    DropOfConcat(EncodeTag(v.tag), v.payload + (EncodeAll(v.children) + tail));
    TagRoundTrip(v.tag, v.payload + (EncodeAll(v.children) + tail));
  }

  lemma LoadOneOfEncoding(rt: Runtime, v: Value, tail: bytes)
    requires v.tag != Missing
    ensures LoadOne(rt, Left(Encode(v) + tail)) == LoadBody(rt, Canon(v.tag), v.payload + (EncodeAll(v.children) + tail))
  {
    hide ParseTag, EncodeTag, LoadBody;
    HeaderOfEncoding(v, tail);
  }

  /** The dump of an object loads as the object, up to `Norm`, exactly when it survives; and when it
      loads at all, loading stops where the dump ends. */
  lemma {:induction false} LoadDumped(rt: Runtime, o: Obj, tail: bytes)
    requires Fits(o) && Known(o)
    ensures var r := LoadOne(rt, Left(Encode(ValueOf(o)) + tail));
      && (r.Step? ==> r.left == Left(tail) && r.clean)
      && (r == Step(Norm(o), Left(tail), true) <==> Survives(rt, o))
    decreases o, 0
  {
    assert EncodeAll([]) == [];
    hide LoadOne, LoadBody, Encode, Utf8.Valid, NormAll, NormSlots, SurvivesAll, SurvivesSlots, Apart;
    hide EncodeAll, ValuesOf, SlotValues, FilledSlots, FitsAll, KnownAll, FitsSlots, KnownSlots;
    var v := ValueOf(o);
    LoadOneOfEncoding(rt, v, tail);
    var rest := EncodeAll(v.children) + tail;
    assert [] + rest == rest;
    match o
    case PyList(items) => LoadDumpedArray(rt, items, tail);
    case PyTuple(items) => LoadDumpedArray(rt, items, tail);
    case PyDict(_, table) => LoadDumpedDict(rt, table, tail);
    case PyValue(w) => LoadDumpedValue(rt, w, tail);
    case _ => LoadDumpedLeaf(rt, o, tail);
  }

  lemma LoadBlob(rt: Runtime, s: bytes, tail: bytes)
    requires |s| <= SIZE_MAX
    ensures LoadBody(rt, Bin(|s|), s + tail) == Step(PyBytes(s), Left(tail), true)
    ensures LoadBody(rt, Str(|s|), s + tail) ==
            if Utf8.Valid(s, true) then Step(PyStr(s), Left(tail), true) else Failed(BadPointer)
  {
    hide Utf8.Valid;
    DropOfConcat(s, tail);
  }

  lemma LoadScalar(rt: Runtime, o: Obj, tail: bytes)
    requires Fits(o) && IsLeaf(o) && !o.PyStr? && !o.PyBytes?
    ensures LoadBody(rt, Canon(ValueOf(o).tag), tail) == Step(Norm(o), Left(tail), true) && Survives(rt, o)
  {
  }

  lemma LoadDumpedLeaf(rt: Runtime, o: Obj, tail: bytes)
    requires Fits(o) && IsLeaf(o)
    ensures var v := ValueOf(o); var r := LoadBody(rt, Canon(v.tag), v.payload + (EncodeAll(v.children) + tail));
      && (r.Step? ==> r.left == Left(tail) && r.clean)
      && (r == Step(Norm(o), Left(tail), true) <==> Survives(rt, o))
  {
    hide Utf8.Valid, LoadBody;
    assert [] + tail == tail;
    if o.PyStr? || o.PyBytes? {
      LoadBlob(rt, o.s, tail);
    } else {
      LoadScalar(rt, o, tail);
    }
  }

  lemma {:induction false} LoadDumpedValue(rt: Runtime, w: Obj, tail: bytes)
    requires Fits(PyValue(w)) && Known(w)
    ensures var p := Encode(ValueOf(w)); var r := LoadBody(rt, Ext(UVALUE_TYPE, |p|), p + ([] + tail));
      && (r.Step? ==> r.left == Left(tail) && r.clean)
      && (r == Step(PyValue(Norm(w)), Left(tail), true) <==> Survives(rt, w))
    decreases w, 1
  {
    hide LoadOne, Encode, Survives, Norm;
    var p := Encode(ValueOf(w));
    LoadDumped(rt, w, []);
    assert p + [] == p && [] + tail == tail;
    DropOfConcat(p, tail);
  }

  lemma {:induction false} LoadDumpedArray(rt: Runtime, os: seq<Obj>, tail: bytes)
    requires FitsAll(os) && KnownAll(os) && |os| <= SIZE_MAX
    ensures var r := LoadBody(rt, Array(|os|), EncodeAll(ValuesOf(os)) + tail);
      && (r.Step? ==> r.left == Left(tail) && r.clean)
      && (r == Step(PyTuple(NormAll(os)), Left(tail), true) <==> SurvivesAll(rt, os))
    decreases os, 1
  {
    hide LoadItems, EncodeAll, ValuesOf, NormAll, SurvivesAll;
    LoadDumpedAll(rt, os, tail);
  }

  lemma {:induction false} LoadDumpedDict(rt: Runtime, table: seq<Slot>, tail: bytes)
    requires FitsSlots(table) && KnownSlots(table) && FilledSlots(table) <= SIZE_MAX
    ensures var n, more := FilledSlots(table), NormSlots(table);
      var r := LoadBody(rt, Map(n), EncodeAll(SlotValues(table)) + tail);
      && (r.Step? ==> r.left == Left(tail) && r.clean)
      && (r == Step(PyDict(n, more), Left(tail), true) <==> SurvivesSlots(rt, table) && Apart(rt, [], more))
    decreases table, 2
  {
    hide LoadPairs, EncodeAll, SlotValues, NormSlots, SurvivesSlots, Apart;
    LoadDumpedSlots(rt, table, tail, []);
    assert [] + NormSlots(table) == NormSlots(table);
  }

  lemma {:induction false} LoadDumpedAll(rt: Runtime, os: seq<Obj>, tail: bytes)
    requires FitsAll(os) && KnownAll(os)
    ensures var r := LoadItems(rt, Left(EncodeAll(ValuesOf(os)) + tail), |os|);
      && (r.Items? ==> r.left == Left(tail) && r.clean)
      && (r == Items(NormAll(os), Left(tail), true) <==> SurvivesAll(rt, os))
    decreases os, 0
  {
    hide LoadOne, Encode;
    if os == [] {
      assert [] + tail == tail;
    } else {
      var v, more := ValueOf(os[0]), EncodeAll(ValuesOf(os[1..]));
      assert Encode(v) + more + tail == Encode(v) + (more + tail);
      LoadDumped(rt, os[0], more + tail);
      LoadDumpedAll(rt, os[1..], tail);
      var r := LoadItems(rt, Left(Encode(v) + (more + tail)), |os|);
      if r.Items? {
        assert r.objs == [r.objs[0]] + r.objs[1..];
        assert NormAll(os)[0] == Norm(os[0]) && NormAll(os)[1..] == NormAll(os[1..]);
      }
    }
  }

  /** `r` is what loading the entries `more` behind `entries` gives. A key that is not new takes the
      place of an entry, so that the dict comes out smaller. */
  ghost predicate PairsLoaded(rt: Runtime, r: Step, entries: seq<Slot>, more: seq<Slot>, tail: bytes, good: bool) {
    var all := entries + more;
    && (r.Step? ==> r.left == Left(tail) && r.clean && r.obj.PyDict? && |r.obj.table| <= |all|)
    && (r.Step? && |r.obj.table| == |all| ==> r.obj.table[..|entries|] == entries)
    && (r == Step(PyDict(|all|, all), Left(tail), true) <==> good && Apart(rt, entries, more))
  }

  lemma {:induction false} LoadDumpedSlots(rt: Runtime, table: seq<Slot>, tail: bytes, entries: seq<Slot>)
    requires FitsSlots(table) && KnownSlots(table)
    ensures var r := LoadPairs(rt, Left(EncodeAll(SlotValues(table)) + tail), FilledSlots(table), entries, true);
      PairsLoaded(rt, r, entries, NormSlots(table), tail, SurvivesSlots(rt, table))
    decreases table, 1
  {
    hide LoadOne, Encode, Survives, Norm;
    if table == [] {
      assert [] + tail == tail && entries + [] == entries;
    } else if table[0].Empty? {
      assert [] + SlotValues(table[1..]) == SlotValues(table[1..]);
      assert [] + NormSlots(table[1..]) == NormSlots(table[1..]);
      LoadDumpedSlots(rt, table[1..], tail, entries);
    } else {
      LoadDumpedSlot(rt, table, tail, entries);
    }
  }

  /** The bytes of a filled slot and what follows it. */
  lemma SlotsBytes(table: seq<Slot>, tail: bytes)
    requires FitsSlots(table) && KnownSlots(table) && table != [] && table[0].Filled?
    requires FitsSlot(table[0]) && KnownSlot(table[0])
    ensures var s := table[0];
      EncodeAll(SlotValues(table)) + tail ==
      Encode(ValueOf(s.key)) + (Encode(ValueOf(s.value)) + (EncodeAll(SlotValues(table[1..])) + tail))
  {
    hide Encode;
    var k, v, more := ValueOf(table[0].key), ValueOf(table[0].value), SlotValues(table[1..]);
    EncodeAllAppend([k, v], more);
    PairBytes(k, v);
    Regroup(Encode(k), Encode(v), EncodeAll(more), tail);
  }

  lemma {:induction false} LoadDumpedSlot(rt: Runtime, table: seq<Slot>, tail: bytes, entries: seq<Slot>)
    requires FitsSlots(table) && KnownSlots(table) && table != [] && table[0].Filled?
    requires FitsSlot(table[0]) && KnownSlot(table[0])
    ensures var r := LoadPairs(rt, Left(EncodeAll(SlotValues(table)) + tail), FilledSlots(table), entries, true);
      PairsLoaded(rt, r, entries, NormSlots(table), tail, SurvivesSlots(rt, table))
    decreases table, 0
  {
    hide LoadOne, Encode, Survives, Norm, ValueOf, SlotValues;
    SlotsBytes(table, tail);
    var s, more := table[0], EncodeAll(SlotValues(table[1..])) + tail;
    assert table decreases to s;
    LoadDumped(rt, s.key, Encode(ValueOf(s.value)) + more);
    LoadDumped(rt, s.value, more);
    var key := LoadOne(rt, Left(Encode(ValueOf(s.key)) + (Encode(ValueOf(s.value)) + more)));
    var value := LoadOne(rt, Left(Encode(ValueOf(s.value)) + more));
    if key.Step? && value.Step? && rt.hashable(key.obj) {
      var entries' := Store(rt, entries, key.obj, value.obj);
      LoadDumpedSlots(rt, table[1..], tail, entries');
      var r := LoadPairs(rt, Left(more), FilledSlots(table[1..]), entries', true);
      PairsStep(rt, r, entries, s, key.obj, value.obj, NormSlots(table[1..]), tail, SurvivesSlots(rt, table[1..]));
    }
  }

  /** One more entry in front. */
  lemma PairsStep(rt: Runtime, r: Step, entries: seq<Slot>, s: Slot, key: Obj, value: Obj, more: seq<Slot>,
                  tail: bytes, good: bool)
    requires s.Filled? && rt.hashable(key)
    requires PairsLoaded(rt, r, Store(rt, entries, key, value), more, tail, good)
    ensures PairsLoaded(rt, r, entries, NormSlot(s) + more, tail, key == Norm(s.key) && value == Norm(s.value) && good)
  {
    hide Norm, Store;
    StoreEntry(rt, entries, key, value);
    var here := [Filled(Norm(s.key), Norm(s.value))];
    assert entries + (here + more) == (entries + here) + more;
    assert (here + more)[1..] == more;
    var entries' := Store(rt, entries, key, value);
    if NewKey(rt, entries, key) {
      assert entries'[..|entries|] == entries;
    }
  }

  /** msgpack_loads of msgpack_dumps gives the object back, with nothing left over, exactly when its
      strings are well-formed text and its keys can be told apart. */
  lemma LoadsOfDumps(rt: Runtime, o: Obj)
    requires Fits(o) && Known(o)
    ensures LoadsOf(rt, Encode(ValueOf(o))) == Step(Norm(o), Left([]), true) <==> Survives(rt, o)
  {
    hide LoadOne, Encode, Survives, Norm, ValueOf;
    LoadDumped(rt, o, []);
    assert Encode(ValueOf(o)) + [] == Encode(ValueOf(o));
  }

  /** An integer comes back as the number of 32 bits that differs from it by a multiple of two to the 32, and so
      as itself exactly when it has no more than 32 bits. */
  lemma IntegersAreCut(rt: Runtime, n: int, m: int)
    ensures DumpForms.Cut(n, m) <==> LoadsOf(rt, Encode(ValueOf(PyInt(n)))) == Step(PyInt(m), Left([]), true)
    ensures -0x8000_0000 <= n < 0x8000_0000 <==>
      LoadsOf(rt, Encode(ValueOf(PyInt(n)))) == Step(PyInt(n), Left([]), true)
  {
    hide LoadsOf, Encode, ValueOf, Truncated32;
    LoadsOfDumps(rt, PyInt(n));
    DumpForms.TruncatedIsCut(n);
    if DumpForms.Cut(n, m) { DumpForms.CutIsUnique(n, m); }
  }

  /** A string that is not well-formed text is dumped, and its dump does not load: the loader goes on with
      the null pointer that the reader returned. */
  lemma IllFormedTextIsLost(rt: Runtime, s: bytes)
    requires |s| <= SIZE_MAX && !Utf8.Valid(s, true)
    ensures LoadsOf(rt, Encode(ValueOf(PyStr(s)))) == Failed(BadPointer)
  {
    hide LoadBody, Encode, Utf8.Valid, LoadOne;
    var o := PyStr(s);
    LoadOneOfEncoding(rt, ValueOf(o), []);
    assert Encode(ValueOf(o)) + [] == Encode(ValueOf(o));
    assert EncodeAll([]) + [] == [] && s + ([] + []) == s + [];
    LoadBlob(rt, s, []);
  }

  /** The encoding of a surrogate, which a Python string can hold, is such a string. */
  lemma SurrogateIsLost(rt: Runtime)
    ensures LoadsOf(rt, Encode(ValueOf(PyStr([0xED, 0xA0, 0x80])))) == Failed(BadPointer)
  {
    SurrogateIsIllFormed();
    IllFormedTextIsLost(rt, [0xED, 0xA0, 0x80]);
  }

  lemma SurrogateIsIllFormed()
    ensures !Utf8.Valid([0xED, 0xA0, 0x80], true)
  {
  }

  /** The two calls, one after the other. */
  method DumpsThenLoads(rt: Runtime, o: Obj, outcomes: seq<bool>) returns (outcome: Outcome, result: Result)
    requires Fits(o)
    ensures outcome == Returned ==> Known(o)
    ensures outcome == Returned && Survives(rt, o) ==> result == Loaded(Norm(o))
    ensures (forall b | b in outcomes :: b) ==> Ends(outcome, Known(o), Bulk(o))
  {
    hide LoadOne, Encode, Survives, Norm, ValueOf, LoadsOf;
    result := Loaded(PyNone);
    var block, size, left;
    outcome, block, size, left := Dumps(o, outcomes);
    if outcome == Returned {
      result := Loads.Loads(rt, block[..size]);
      LoadsOfDumps(rt, o);
    }
  }
}
