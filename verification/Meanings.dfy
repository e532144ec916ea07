/** What a MessagePack value means to msgpack.c: the loader depends on the value only, not on the headers
    it is written with. */
module Meanings {
  import opened Bytes
  import opened Tags
  import opened Values
  import opened Objects
  import opened Loads
  import Utf8

  /** What loading makes of a value with `left` behind it. */
  function Meaning(rt: Runtime, v: Value, left: Left): Step
    requires WellFormed(v)
    decreases v, 0
  {
    match v.tag
    case Nil => Step(PyNone, left, true)
    case Bool(b) => Step(PyBool(b), left, true)
    case Int(i) => Step(PyInt(i), left, true)
    case Uint(u) => Step(PyInt(u), left, true)
    case Float(f) => Step(PyFloat(f), left, true)
    case Double(d) => Step(PyFloat(rt.narrow(d)), left, true)
    case Str(_) => if Utf8.Valid(v.payload, true) then Step(PyStr(v.payload), left, true) else Failed(BadPointer)
    case Bin(_) => Step(PyBytes(v.payload), left, true)
    case Array(_) =>
      var items := ItemMeanings(rt, v.children, left);
      if items.NoItems? then Failed(items.why) else Step(PyTuple(items.objs), left, items.clean)
    case Map(_) => PairMeanings(rt, v.children, left, [], true)
    case Ext(e, _) =>
      if e != UVALUE_TYPE then Failed(RaisedValueError)
      else
        var inner := LoadsOf(rt, v.payload);
        if inner.Failed? then inner else Step(PyValue(inner.obj), left, inner.clean && inner.left.Left?)
  }

  function ItemMeanings(rt: Runtime, vs: seq<Value>, left: Left): (r: Items)
    requires AllWellFormed(vs)
    ensures r.Items? ==> r.left == left
    decreases vs, 1
  {
    if vs == [] then Items([], left, true)
    else
      var one := Meaning(rt, vs[0], left);
      if one.Failed? then NoItems(one.why) else Before([one.obj], one.clean, ItemMeanings(rt, vs[1..], left))
  }

  function PairMeanings(rt: Runtime, vs: seq<Value>, left: Left, entries: seq<Slot>, clean: bool): Step
    requires AllWellFormed(vs)
    decreases vs, 1
  {
    if |vs| < 2 then Step(PyDict(|entries|, entries), left, clean)
    else
      var key := Meaning(rt, vs[0], left);
      if key.Failed? then key
      else
        var value := Meaning(rt, vs[1], left);
        if value.Failed? then value
        else if !rt.hashable(key.obj) then Failed(RaisedTypeError)
        else
          var more := Store(rt, entries, key.obj, value.obj);
          PairMeanings(rt, vs[2..], left, more, clean && key.clean && value.clean)
  }

  /** What is behind a value has no part in what it means. */
  lemma {:induction false} MeaningAt(rt: Runtime, v: Value, left: Left, other: Left)
    requires WellFormed(v)
    ensures var a, b := Meaning(rt, v, left), Meaning(rt, v, other);
      if a.Failed? then b == a else a.left == left && b == Step(a.obj, other, a.clean)
    decreases v, 0
  {
    hide LoadsOf, Utf8.Valid;
    match v.tag
    case Array(_) => ItemMeaningsAt(rt, v.children, left, other);
    case Map(_) => PairMeaningsAt(rt, v.children, left, other, [], true);
    case _ =>
  }

  lemma {:induction false} ItemMeaningsAt(rt: Runtime, vs: seq<Value>, left: Left, other: Left)
    requires AllWellFormed(vs)
    ensures var a, b := ItemMeanings(rt, vs, left), ItemMeanings(rt, vs, other);
      if a.NoItems? then b == a else b == Items(a.objs, other, a.clean)
    decreases vs, 1
  {
    hide Meaning;
    if vs != [] {
      MeaningAt(rt, vs[0], left, other);
      ItemMeaningsAt(rt, vs[1..], left, other);
    }
  }

  lemma {:induction false} PairMeaningsAt(rt: Runtime, vs: seq<Value>, left: Left, other: Left, entries: seq<Slot>,
                                          clean: bool)
    requires AllWellFormed(vs)
    ensures var a, b := PairMeanings(rt, vs, left, entries, clean), PairMeanings(rt, vs, other, entries, clean);
      if a.Failed? then b == a else a.left == left && b == Step(a.obj, other, a.clean)
    decreases vs, 1
  {
    hide Meaning;
    if |vs| >= 2 {
      MeaningAt(rt, vs[0], left, other);
      MeaningAt(rt, vs[1], left, other);
      var key, value := Meaning(rt, vs[0], left), Meaning(rt, vs[1], left);
      if key.Step? && value.Step? {
        var more := Store(rt, entries, key.obj, value.obj);
        PairMeaningsAt(rt, vs[2..], left, other, more, clean && key.clean && value.clean);
      }
    }
  }

  /** Loading from the front of a stream that begins with a value gives what the value means, and stops
      behind it. */
  lemma {:induction false} LoadMeans(rt: Runtime, s: bytes)
    requires Decode(s, 1).Decoded?
    ensures var d := Decode(s, 1);
      WellFormed(d.values[0]) && LoadOne(rt, Left(s)) == Meaning(rt, d.values[0], Left(s[d.size..]))
    decreases |s|, 0
  {
    hide Decode, FirstItem, ParseTag, Meaning, LoadBody, LoadOne;
    DecodedWellFormed(s, 1);
    DecodeOne(s);
    FirstItemOfHeader(s);
    var d, it, h := Decode(s, 1), FirstItem(s), ParseTag(s);
    var kids := Decode(s[it.used..], ChildCount(it.tag));
    DropDrop(s, h.size, PayloadSize(h.tag));
    DropDrop(s, it.used, kids.size);
    assert d.values[0] in d.values;
    BodyMeans(rt, d.values[0], s[h.size..]);
    HeadedBody(rt, s);
  }

  lemma HeadedBody(rt: Runtime, s: bytes)
    requires ParseTag(s).Header?
    ensures LoadOne(rt, Left(s)) == LoadBody(rt, ParseTag(s).tag, s[ParseTag(s).size..])
  {
    hide ParseTag, LoadBody;
  }

  /** The payload and the children of `v` are at the front of `s`. */
  lemma {:induction false} BodyMeans(rt: Runtime, v: Value, s: bytes)
    requires WellFormed(v) && |s| >= PayloadSize(v.tag) && v.payload == s[..PayloadSize(v.tag)]
    requires var kids := Decode(s[PayloadSize(v.tag)..], |v.children|); kids.Decoded? && kids.values == v.children
    ensures var p := PayloadSize(v.tag); var kids := Decode(s[p..], |v.children|);
      LoadBody(rt, v.tag, s) == Meaning(rt, v, Left(s[p..][kids.size..]))
    decreases |s|, 2
  {
    hide Decode, LoadBody, Meaning;
    assert s[0..] == s;
    match v.tag
    case Array(n) =>
      ItemsMean(rt, s, n);
      ListBody(rt, v, s);
    case Map(n) =>
      PairsMean(rt, s, n, [], true);
      ListBody(rt, v, s);
    case _ => LeafMeans(rt, v, s);
  }

  /** The loops over the children. */
  lemma ListBody(rt: Runtime, v: Value, s: bytes)
    requires WellFormed(v) && (v.tag.Array? || v.tag.Map?)
    requires Decode(s, |v.children|).Decoded?
    ensures var left := Left(s[Decode(s, |v.children|).size..]);
      && (v.tag.Array? && LoadItems(rt, Left(s), v.tag.n) == ItemMeanings(rt, v.children, left) ==>
            LoadBody(rt, v.tag, s) == Meaning(rt, v, left))
      && (v.tag.Map? && LoadPairs(rt, Left(s), v.tag.n, [], true) == PairMeanings(rt, v.children, left, [], true) ==>
            LoadBody(rt, v.tag, s) == Meaning(rt, v, left))
  {
    hide Decode, LoadItems, LoadPairs, ItemMeanings, PairMeanings;
  }

  /** Values without children. */
  lemma LeafMeans(rt: Runtime, v: Value, s: bytes)
    requires WellFormed(v) && !v.tag.Array? && !v.tag.Map?
    requires |s| >= PayloadSize(v.tag) && v.payload == s[..PayloadSize(v.tag)]
    ensures var tail := s[PayloadSize(v.tag)..];
      LoadBody(rt, v.tag, s) == Meaning(rt, v, Left(tail[Decode(tail, |v.children|).size..]))
  {
    hide Decode, LoadsOf, LoadItems, LoadPairs, ItemMeanings, PairMeanings, Utf8.Valid;
    var tail := s[PayloadSize(v.tag)..];
    DecodeUnfold(tail, 0);
    assert tail[0..] == tail;
  }

  lemma {:induction false} ItemsMean(rt: Runtime, s: bytes, n: nat)
    requires Decode(s, n).Decoded?
    ensures var d := Decode(s, n);
      AllWellFormed(d.values) && LoadItems(rt, Left(s), n) == ItemMeanings(rt, d.values, Left(s[d.size..]))
    decreases |s|, 1, n
  {
    hide Decode, LoadOne, Meaning;
    DecodedWellFormed(s, n);
    if n == 0 {
      DecodeUnfold(s, 0);
      assert s[0..] == s;
    } else {
      FirstOfMany(s, n);
      var one := Decode(s, 1);
      var more := Decode(s[one.size..], n - 1);
      LoadMeans(rt, s);
      MeaningAt(rt, one.values[0], Left(s[one.size..]), Left(s[Decode(s, n).size..]));
      ItemsMean(rt, s[one.size..], n - 1);
      DropDrop(s, one.size, more.size);
    }
  }

  /** The first of several values, and the others behind it. */
  lemma FirstOfMany(s: bytes, n: nat)
    requires n > 0 && Decode(s, n).Decoded?
    ensures Decode(s, 1).Decoded? && Decode(s[Decode(s, 1).size..], n - 1).Decoded?
    ensures var one := Decode(s, 1); var more := Decode(s[one.size..], n - 1); var d := Decode(s, n);
      && d.values[0] == one.values[0] && d.values[1..] == more.values && d.size == one.size + more.size
  {
    hide Decode;
    DecodeAppend(s, 1, n - 1);
  }

  lemma {:induction false} PairsMean(rt: Runtime, s: bytes, n: nat, entries: seq<Slot>, clean: bool)
    requires Decode(s, 2 * n).Decoded?
    ensures var d := Decode(s, 2 * n);
      AllWellFormed(d.values)
      && LoadPairs(rt, Left(s), n, entries, clean) == PairMeanings(rt, d.values, Left(s[d.size..]), entries, clean)
    decreases |s|, 1, n
  {
    hide Decode, LoadOne, Meaning, Store;
    DecodedWellFormed(s, 2 * n);
    if n == 0 {
      DecodeUnfold(s, 0);
      assert s[0..] == s;
    } else {
      var d := Decode(s, 2 * n);
      FirstOfMany(s, 2 * n);
      var s1 := s[Decode(s, 1).size..];
      FirstOfMany(s1, 2 * n - 1);
      var s2 := s1[Decode(s1, 1).size..];
      DropDrop(s, Decode(s, 1).size, Decode(s1, 2 * n - 1).size);
      DropDrop(s1, Decode(s1, 1).size, Decode(s2, 2 * n - 2).size);
      assert d.values[1] == Decode(s1, 1).values[0] && d.values[2..] == Decode(s2, 2 * n - 2).values;
      var left := Left(s[d.size..]);
      LoadMeans(rt, s);
      MeaningAt(rt, d.values[0], Left(s1), left);
      LoadMeans(rt, s1);
      MeaningAt(rt, d.values[1], Left(s2), left);
      var key, value := LoadOne(rt, Left(s)), LoadOne(rt, Left(s1));
      if key.Step? && value.Step? && rt.hashable(key.obj) {
        var more := Store(rt, entries, key.obj, value.obj);
        PairsMean(rt, s2, n - 1, more, clean && key.clean && value.clean);
      }
    }
  }

  // ---------------------------------------------------------------------------------------------
  // The encoding does not matter

  /** A non-negative int means what the uint means. */
  lemma {:induction false} CanonMeaning(rt: Runtime, v: Value, left: Left)
    requires WellFormed(v)
    ensures WellFormed(CanonValue(v)) && Meaning(rt, CanonValue(v), left) == Meaning(rt, v, left)
    decreases v, 0
  {
    hide LoadsOf, Utf8.Valid, ItemMeanings, PairMeanings;
    CanonItemMeanings(rt, v.children, left);
    CanonPairMeanings(rt, v.children, left, [], true);
  }

  lemma {:induction false} CanonItemMeanings(rt: Runtime, vs: seq<Value>, left: Left)
    requires AllWellFormed(vs)
    ensures AllWellFormed(CanonAll(vs)) && ItemMeanings(rt, CanonAll(vs), left) == ItemMeanings(rt, vs, left)
    decreases vs, 1
  {
    hide Meaning, WellFormed, CanonValue;
    if vs != [] {
      CanonMeaning(rt, vs[0], left);
      CanonItemMeanings(rt, vs[1..], left);
      assert CanonAll(vs)[1..] == CanonAll(vs[1..]);
    }
  }

  lemma {:induction false} CanonPairMeanings(rt: Runtime, vs: seq<Value>, left: Left, entries: seq<Slot>, clean: bool)
    requires AllWellFormed(vs)
    ensures AllWellFormed(CanonAll(vs))
    ensures PairMeanings(rt, CanonAll(vs), left, entries, clean) == PairMeanings(rt, vs, left, entries, clean)
    decreases vs, 2
  {
    hide Meaning, WellFormed, CanonValue, ItemMeanings, Store;
    CanonItemMeanings(rt, vs, left);
    if |vs| >= 2 {
      var ws := CanonAll(vs);
      CanonMeaning(rt, vs[0], left);
      CanonMeaning(rt, vs[1], left);
      CanonTwo(vs);
      var key, value := Meaning(rt, vs[0], left), Meaning(rt, vs[1], left);
      if key.Step? && value.Step? {
        var more := Store(rt, entries, key.obj, value.obj);
        CanonPairMeanings(rt, vs[2..], left, more, clean && key.clean && value.clean);
      }
    }
  }

  lemma CanonTwo(vs: seq<Value>)
    requires |vs| >= 2
    ensures var ws := CanonAll(vs);
      ws[0] == CanonValue(vs[0]) && ws[1] == CanonValue(vs[1]) && ws[2..] == CanonAll(vs[2..])
  {
    hide CanonValue;
    var ws := CanonAll(vs);
    assert ws[1..] == CanonAll(vs[1..]) && vs[1..][1..] == vs[2..];
    assert ws[2..] == ws[1..][1..];
  }

  /** The same, but for what is left. */
  predicate SameButLeft(a: Step, b: Step) {
    if a.Failed? then b == a else b.Step? && b.obj == a.obj && b.clean == a.clean
  }

  /** Two streams that begin with equal values, whatever headers they are written with, load as the same
      object or fail in the same way. */
  lemma EncodingDoesNotMatter(rt: Runtime, s: bytes, t: bytes)
    requires Decode(s, 1).Decoded? && Decode(t, 1).Decoded?
    requires CanonValue(Decode(s, 1).values[0]) == CanonValue(Decode(t, 1).values[0])
    ensures SameButLeft(LoadOne(rt, Left(s)), LoadOne(rt, Left(t)))
  {
    hide Decode, LoadOne, Meaning, CanonValue;
    var d, e := Decode(s, 1), Decode(t, 1);
    LoadMeans(rt, s);
    LoadMeans(rt, t);
    CanonMeaning(rt, d.values[0], Left(s[d.size..]));
    CanonMeaning(rt, e.values[0], Left(s[d.size..]));
    MeaningAt(rt, e.values[0], Left(s[d.size..]), Left(t[e.size..]));
  }

  /** A block that is one value loads as the block of the shortest headers for the value does. */
  lemma ShortestLoadsAlike(rt: Runtime, s: bytes)
    requires Decode(s, 1).Decoded? && Decode(s, 1).size == |s|
    ensures LoadsOf(rt, Encode(Decode(s, 1).values[0])) == LoadsOf(rt, s)
  {
    hide Decode, LoadOne, Encode, CanonValue, Meaning;
    var v := Decode(s, 1).values[0];
    var t := Encode(v);
    DecodedWellFormed(s, 1);
    EncodedOne(v);
    LoadMeans(rt, s);
    LoadMeans(rt, t);
    assert s[|s|..] == [] && t[|t|..] == [];
    CanonMeaning(rt, v, Left([]));
    MeaningAt(rt, v, Left([]), Left([]));
  }
}
