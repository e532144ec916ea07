/** The reading half of msgpack.c, and the round trip. */
module Loads {
  import opened Bytes
  import opened Errors
  import opened Tags
  import opened Values
  import opened Readers
  import opened Objects
  import Reads
  import Utf8

  /** The parts of the Python runtime that loading needs: which objects may be keys of a dict, when
      two keys are the same, and the conversion from double to float. */
  datatype Runtime = Runtime(hashable: Obj -> bool, equal: (Obj, Obj) -> bool, narrow: u64 -> u32)

  datatype Failure = RaisedValueError | RaisedTypeError | BadPointer

  /** What the reader has left: bytes, or nothing because an error has been flagged. */
  datatype Left = Left(s: bytes) | Broken

  /** `clean` says that no reader of a nested block has ended in an error. */
  datatype Step = Step(obj: Obj, left: Left, clean: bool) | Failed(why: Failure)

  datatype Items = Items(objs: seq<Obj>, left: Left, clean: bool) | NoItems(why: Failure)

  function Size(l: Left): nat {
    if l.Broken? then 0 else |l.s|
  }

  /** mp_obj_dict_store on the entries of a dict. */
  function Store(rt: Runtime, entries: seq<Slot>, key: Obj, value: Obj): seq<Slot> {
    if entries == [] then [Filled(key, value)]
    else if entries[0].Filled? && rt.equal(entries[0].key, key) then [Filled(entries[0].key, value)] + entries[1..]
    else [entries[0]] + Store(rt, entries[1..], key, value)
  }

  /** What msgpack_load makes of the bytes that are left. After an error every tag is nil. */
  function LoadOne(rt: Runtime, left: Left): (r: Step)
    ensures r.Step? ==> Size(r.left) <= Size(left)
    decreases Size(left), 0
  {
    if left.Broken? || !ParseTag(left.s).Header? then Step(PyNone, Broken, true)
    else
      var h := ParseTag(left.s);
      LoadBody(rt, h.tag, left.s[h.size..])
  }

  /** Behind the header. */
  function LoadBody(rt: Runtime, tag: Tag, s: bytes): (r: Step)
    requires tag != Missing
    ensures r.Step? ==> Size(r.left) <= |s|
    decreases |s|, 2
  {
    match tag
    case Nil => Step(PyNone, Left(s), true)
    case Bool(b) => Step(PyBool(b), Left(s), true)
    case Int(i) => Step(PyInt(i), Left(s), true)
    case Uint(u) => Step(PyInt(u), Left(s), true)
    case Float(f) => Step(PyFloat(f), Left(s), true)
    case Double(d) => Step(PyFloat(rt.narrow(d)), Left(s), true)
    case Str(l) =>
      if l <= |s| && Utf8.Valid(s[..l], true) then Step(PyStr(s[..l]), Left(s[l..]), true) else Failed(BadPointer)
    case Bin(l) =>
      if l <= |s| then Step(PyBytes(s[..l]), Left(s[l..]), true) else Failed(BadPointer)
    case Array(n) =>
      var items := LoadItems(rt, Left(s), n);
      if items.NoItems? then Failed(items.why) else Step(PyTuple(items.objs), items.left, items.clean)
    case Map(n) => LoadPairs(rt, Left(s), n, [], true)
    case Ext(e, l) =>
      if e != UVALUE_TYPE then Failed(RaisedValueError)
      else if l > |s| then Failed(BadPointer)
      else
        var inner := LoadsOf(rt, s[..l]);
        if inner.Failed? then inner else Step(PyValue(inner.obj), Left(s[l..]), inner.clean && inner.left.Left?)
  }

  function LoadItems(rt: Runtime, left: Left, n: nat): (r: Items)
    ensures r.Items? ==> |r.objs| == n && Size(r.left) <= Size(left)
    decreases Size(left), 1, n
  {
    if n == 0 then Items([], left, true)
    else
      var one := LoadOne(rt, left);
      if one.Failed? then NoItems(one.why) else Before([one.obj], one.clean, LoadItems(rt, one.left, n - 1))
  }

  function Before(objs: seq<Obj>, clean: bool, items: Items): Items {
    if items.NoItems? then items else Items(objs + items.objs, items.left, clean && items.clean)
  }

  lemma BeforeBefore(objs: seq<Obj>, c: bool, o: Obj, d: bool, items: Items)
    ensures Before(objs, c, Before([o], d, items)) == Before(objs + [o], c && d, items)
  {
    if items.Items? {
      assert objs + ([o] + items.objs) == (objs + [o]) + items.objs;
    }
  }

  lemma BeforeNothing(items: Items, objs: seq<Obj>, clean: bool, left: Left)
    ensures Before([], true, items) == items && Before(objs, clean, Items([], left, true)) == Items(objs, left, clean)
  {
    if items.Items? { assert [] + items.objs == items.objs; }
    assert objs + [] == objs;
  }

  /** One round of the loop over the items, `objs` having been loaded before. */
  lemma LoadItemsUnfold(rt: Runtime, left: Left, n: nat, objs: seq<Obj>, clean: bool)
    ensures n == 0 ==> Before(objs, clean, LoadItems(rt, left, n)) == Items(objs, left, clean)
    ensures n > 0 ==>
      var one := LoadOne(rt, left);
      Before(objs, clean, LoadItems(rt, left, n)) ==
      if one.Failed? then NoItems(one.why)
      else Before(objs + [one.obj], clean && one.clean, LoadItems(rt, one.left, n - 1))
  {
    hide LoadOne;
    if n == 0 {
      BeforeNothing(Items([], left, true), objs, clean, left);
    } else if LoadOne(rt, left).Step? {
      var one := LoadOne(rt, left);
      BeforeBefore(objs, clean, one.obj, one.clean, LoadItems(rt, one.left, n - 1));
    }
  }

  /** `n` more entries of a dict. */
  function LoadPairs(rt: Runtime, left: Left, n: nat, entries: seq<Slot>, clean: bool): (r: Step)
    ensures r.Step? ==> Size(r.left) <= Size(left)
    decreases Size(left), 1, n
  {
    if n == 0 then Step(PyDict(|entries|, entries), left, clean)
    else
      var key := LoadOne(rt, left);
      if key.Failed? then key
      else
        var value := LoadOne(rt, key.left);
        if value.Failed? then value
        else if !rt.hashable(key.obj) then Failed(RaisedTypeError)
        else
          var more := Store(rt, entries, key.obj, value.obj);
          LoadPairs(rt, value.left, n - 1, more, clean && key.clean && value.clean)
  }

  /** What msgpack_loads makes of a block: nothing may be left over, but a reader in an error state
      says that nothing is. */
  function LoadsOf(rt: Runtime, s: bytes): (r: Step)
    ensures r.Step? ==> Size(r.left) == 0
    decreases |s|, 1
  {
    var r := LoadOne(rt, Left(s));
    if r.Step? && Size(r.left) != 0 then Failed(RaisedValueError) else r
  }

  /** How a load fails: a payload that is cut short gives the null pointer of the reader, an ext that is not of
      type 1 and bytes left over give a ValueError. */
  lemma HowLoadsFail(rt: Runtime, s: bytes, t: Tag, k: nat)
    requires ParseTag(s) == Header(t, k)
    ensures k + PayloadSize(t) > |s| && (t.Ext? ==> t.exttype == 1) ==> LoadOne(rt, Left(s)) == Failed(BadPointer)
    ensures t.Ext? && t.exttype != 1 ==> LoadOne(rt, Left(s)) == Failed(RaisedValueError)
    ensures var one := LoadOne(rt, Left(s));
      LoadsOf(rt, s) == if one.Step? && one.left.Left? && one.left.s != [] then Failed(RaisedValueError) else one
  {
    hide ParseTag;
  }

  // ---------------------------------------------------------------------------------------------
  // The code

  ghost function LeftOf(r: Reader): Left
    reads r, r.mem
    requires r.Valid()
  {
    if r.error == NoError then Left(r.Rest()) else Broken
  }

  /** A reader from mpack_reader_init_data, without tracking. */
  ghost predicate OnData(r: Reader)
    reads r
  {
    r.Valid() && !r.hasFill && !r.tracking
  }

  /** The reader has come to where the step says. */
  ghost predicate At(r: Reader, left: Left)
    reads r, r.mem
  {
    OnData(r) && LeftOf(r) == left
  }

  datatype Result = Loaded(obj: Obj) | Raised(why: Failure)

  ghost predicate Did(r: Reader, result: Result, want: Step)
    reads r, r.mem
  {
    if want.Failed? then result == Raised(want.why) && OnData(r)
    else result == Loaded(want.obj) && At(r, want.left)
  }

  /** msgpack_load */
  method Load(rt: Runtime, r: Reader) returns (result: Result)
    requires OnData(r)
    modifies r, r.mem
    ensures Did(r, result, LoadOne(rt, old(LeftOf(r))))
    decreases Size(LeftOf(r)), 0
  {
    hide ParseTag, LoadBody;
    var tag := r.ReadTag();
    if tag.Nil? {
      if r.error == NoError { NilBody(rt, r.Rest()); }
      return Loaded(PyNone);
    }
    result := LoadTagged(rt, r, tag);
  }

  lemma NilBody(rt: Runtime, s: bytes)
    ensures LoadBody(rt, Nil, s) == Step(PyNone, Left(s), true)
  {
  }

  /** The cases of msgpack_load with a header in hand. */
  method LoadTagged(rt: Runtime, r: Reader, tag: Tag) returns (result: Result)
    requires OnData(r) && r.error == NoError && tag != Missing && tag != Nil
    modifies r, r.mem
    ensures Did(r, result, LoadBody(rt, tag, old(r.Rest())))
    decreases Size(LeftOf(r)), 3
  {
    match tag
    case Bool(b) => result := Loaded(PyBool(b));
    case Int(i) => result := Loaded(PyInt(i));
    case Uint(u) => result := Loaded(PyInt(u));
    case Float(f) => result := Loaded(PyFloat(f));
    case Double(d) => result := Loaded(PyFloat(rt.narrow(d)));
    case Str(l) => result := LoadStr(rt, r, l);
    case Bin(l) => result := LoadBin(rt, r, l);
    case Array(n) => result := LoadArray(rt, r, n);
    case Map(n) => result := LoadDict(rt, r, n);
    case Ext(e, l) => result := LoadExt(rt, r, e, l);
  }

  method LoadStr(rt: Runtime, r: Reader, l: u32) returns (result: Result)
    requires OnData(r) && r.error == NoError
    modifies r, r.mem
    ensures Did(r, result, LoadBody(rt, Str(l), old(r.Rest())))
  {
    hide Utf8.Valid;
    var at := Reads.ReadUtf8Inplace(r, l);
    if r.error != NoError { return Raised(BadPointer); }
    result := Loaded(PyStr(r.mem[at..at + l]));
  }

  method LoadBin(rt: Runtime, r: Reader, l: u32) returns (result: Result)
    requires OnData(r) && r.error == NoError
    modifies r, r.mem
    ensures Did(r, result, LoadBody(rt, Bin(l), old(r.Rest())))
  {
    var at := Reads.ReadBytesInplace(r, l);
    if r.error != NoError { return Raised(BadPointer); }
    result := Loaded(PyBytes(r.mem[at..at + l]));
  }

  /** Arrays become tuples. */
  method LoadArray(rt: Runtime, r: Reader, n: u32) returns (result: Result)
    requires OnData(r) && r.error == NoError
    modifies r, r.mem
    ensures Did(r, result, LoadBody(rt, Array(n), old(r.Rest())))
    decreases Size(LeftOf(r)), 1
  {
    hide LoadOne, LoadItems, Before;
    ghost var want := LoadItems(rt, LeftOf(r), n);
    BeforeNothing(want, [], true, Broken);
    var objs := [];
    ghost var clean := true;
    var i := 0;
    while i < n
      invariant 0 <= i <= n && |objs| == i && OnData(r) && Size(LeftOf(r)) <= old(Size(LeftOf(r)))
      invariant want == Before(objs, clean, LoadItems(rt, LeftOf(r), n - i))
    {
      ghost var one := LoadOne(rt, LeftOf(r));
      LoadItemsUnfold(rt, LeftOf(r), n - i, objs, clean);
      var item := Load(rt, r);
      if item.Raised? { return item; }
      clean := clean && one.clean;
      objs := objs + [item.obj];
      i := i + 1;
    }
    LoadItemsUnfold(rt, LeftOf(r), 0, objs, clean);
    result := Loaded(PyTuple(objs));
  }

  method LoadDict(rt: Runtime, r: Reader, n: u32) returns (result: Result)
    requires OnData(r) && r.error == NoError
    modifies r, r.mem
    ensures Did(r, result, LoadBody(rt, Map(n), old(r.Rest())))
    decreases Size(LeftOf(r)), 1
  {
    hide LoadOne, Store;
    ghost var want := LoadPairs(rt, LeftOf(r), n, [], true);
    ghost var clean := true;
    var entries := [];
    var i := 0;
    while i < n
      invariant 0 <= i <= n && OnData(r) && Size(LeftOf(r)) <= old(Size(LeftOf(r)))
      invariant want == LoadPairs(rt, LeftOf(r), n - i, entries, clean)
    {
      ghost var k := LoadOne(rt, LeftOf(r));
      var key := Load(rt, r);
      if key.Raised? { return key; }
      ghost var v := LoadOne(rt, LeftOf(r));
      var value := Load(rt, r);
      if value.Raised? { return value; }
      if !rt.hashable(key.obj) { return Raised(RaisedTypeError); }
      entries := Store(rt, entries, key.obj, value.obj);
      clean := clean && k.clean && v.clean;
      i := i + 1;
    }
    result := Loaded(PyDict(|entries|, entries));
  }

  /** Ext type 1 holds the dump of the value of a UValue; there are no others. */
  method LoadExt(rt: Runtime, r: Reader, e: i8, l: u32) returns (result: Result)
    requires OnData(r) && r.error == NoError
    modifies r, r.mem
    ensures Did(r, result, LoadBody(rt, Ext(e, l), old(r.Rest())))
    decreases Size(LeftOf(r)), 2
  {
    hide LoadOne;
    if e != UVALUE_TYPE { return Raised(RaisedValueError); }
    var at := Reads.ReadBytesInplace(r, l);
    if r.error != NoError { return Raised(BadPointer); }
    result := Loads(rt, r.mem[at..at + l]);
    if result.Loaded? {
      result := Loaded(PyValue(result.obj));
    }
  }

  /** msgpack_loads */
  method Loads(rt: Runtime, s: bytes) returns (result: Result)
    ensures var want := LoadsOf(rt, s); result == if want.Failed? then Raised(want.why) else Loaded(want.obj)
    decreases |s|, 1
  {
    hide LoadOne;
    var mem := new byte[|s|](i requires 0 <= i < |s| => s[i]);
    var r := new Reader(mem, 0, |s|, false, false, false, false, [], [], []);
    assert r.Rest() == s;
    result := Load(rt, r);
    if result.Loaded? {
      var remaining := Remaining(r);
      if remaining != 0 { return Raised(RaisedValueError); }
    }
  }

  /** mpack_reader_remaining */
  method Remaining(r: Reader) returns (n: nat)
    requires OnData(r)
    ensures n == Size(LeftOf(r))
  {
    n := if r.error != NoError then 0 else r.end - r.data;
  }
}
