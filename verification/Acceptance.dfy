/** What msgpack_loads accepts, by the bytes of the block. */
module Acceptance {
  import opened Bytes
  import opened Tags
  import opened Values
  import opened Objects
  import opened Loads
  import Discards
  import TrackedRuns
  import Utf8

  // ---------------------------------------------------------------------------------------------
  // Whole blocks

  /** One value from the first byte to the last, and the same for every block nested in it. */
  predicate Whole(s: bytes)
    decreases |s|, 1, 0
  {
    Decode(s, 1).Decoded? && Decode(s, 1).size == |s| && NestedWhole(s, 1)
  }

  /** The blocks nested in the first `n` values are whole. */
  predicate NestedWhole(s: bytes, n: nat)
    decreases |s|, 0, n
  {
    var it := FirstItem(s);
    n == 0 || it.NoItem?
    || (var kids := Decode(s[it.used..], ChildCount(it.tag));
        && (IsBlock(it.tag) ==> Whole(it.payload))
        && NestedWhole(s[it.used..], ChildCount(it.tag))
        && (kids.Decoded? ==> NestedWhole(s[it.used + kids.size..], n - 1)))
  }

  /** The payload is a block of its own: the dump of the value of a UValue. */
  predicate IsBlock(t: Tag) {
    t.Ext? && t.exttype == UVALUE_TYPE
  }

  // ---------------------------------------------------------------------------------------------
  // Readable blocks

  datatype Reach = At(left: Left) | Barred

  /** Where `n` values leave the loader. It stops at a header that is not there, and takes the values
      that are missing for nil; a payload that is cut short bars it. */
  function Reached(left: Left, n: nat): (r: Reach)
    ensures r.At? ==> Size(r.left) <= Size(left)
    decreases Size(left), 1, n
  {
    if n == 0 then At(left)
    else if left.Broken? || !ParseTag(left.s).Header? then At(Broken)
    else
      var h := ParseTag(left.s);
      var body := ReachedBody(h.tag, left.s[h.size..]);
      if body.Barred? then Barred else Reached(body.left, n - 1)
  }

  /** The same behind a header: text has to be well formed, ext types to be 1, nested blocks readable. */
  function ReachedBody(t: Tag, s: bytes): (r: Reach)
    ensures r.At? ==> Size(r.left) <= |s|
    decreases |s|, 3, 0
  {
    if t.Str? || t.Bin? || t.Ext? then
      if t.l > |s| || (t.Str? && !Utf8.Valid(s[..t.l], true)) || (t.Ext? && !(IsBlock(t) && Readable(s[..t.l]))) then Barred
      else At(Left(s[t.l..]))
    else Reached(Left(s), ChildCount(t))
  }

  /** The loader gets through the block, and not past its end. */
  predicate Readable(s: bytes)
    decreases |s|, 2, 0
  {
    var r := Reached(Left(s), 1);
    r.At? && Size(r.left) == 0
  }

  /** The keys of the dicts among the next `n` values are hashable. A key is what its bytes load as. */
  predicate KeysHashable(rt: Runtime, left: Left, n: nat)
    decreases Size(left), 1, n
  {
    n == 0 || left.Broken? || !ParseTag(left.s).Header?
    || (var h := ParseTag(left.s);
        var body := ReachedBody(h.tag, left.s[h.size..]);
        && BodyHashable(rt, h.tag, left.s[h.size..])
        && (body.At? ==> KeysHashable(rt, body.left, n - 1)))
  }

  predicate BodyHashable(rt: Runtime, t: Tag, s: bytes)
    decreases |s|, 3, 0
  {
    match t
    case Array(n) => KeysHashable(rt, Left(s), n)
    case Map(n) => PairsHashable(rt, Left(s), n)
    case Ext(_, l) => IsBlock(t) && l <= |s| ==> KeysHashable(rt, Left(s[..l]), 1)
    case _ => true
  }

  predicate PairsHashable(rt: Runtime, left: Left, n: nat)
    decreases Size(left), 2, n
  {
    n == 0
    || (var key := Reached(left, 1);
        && KeysHashable(rt, left, 1)
        && (key.At? ==>
              var value := Reached(key.left, 1);
              && KeysHashable(rt, key.left, 1)
              && (value.At? ==> rt.hashable(KeyOf(rt, left)) && PairsHashable(rt, value.left, n - 1))))
  }

  function KeyOf(rt: Runtime, left: Left): Obj {
    var key := LoadOne(rt, left);
    if key.Step? then key.obj else PyNone
  }

  // ---------------------------------------------------------------------------------------------
  // Loading goes where the bytes say

  lemma ReachedFirst(left: Left, n: nat)
    requires n > 0
    ensures Reached(left, 1).Barred? ==> Reached(left, n).Barred?
    ensures Reached(left, 1).At? ==> Reached(left, n) == Reached(Reached(left, 1).left, n - 1)
  {
    hide ReachedBody, ParseTag;
    if left.Left? && ParseTag(left.s).Header? {
      var h := ParseTag(left.s);
      var body := ReachedBody(h.tag, left.s[h.size..]);
      if body.At? { assert Reached(body.left, 0) == At(body.left); }
    } else {
      assert Reached(Broken, n - 1) == At(Broken);
    }
  }

  lemma KeysFirst(rt: Runtime, left: Left, n: nat)
    requires n > 0
    ensures KeysHashable(rt, left, n) <==>
      KeysHashable(rt, left, 1) && (Reached(left, 1).At? ==> KeysHashable(rt, Reached(left, 1).left, n - 1))
  {
    hide ReachedBody, BodyHashable, ParseTag;
    if left.Left? && ParseTag(left.s).Header? {
      var h := ParseTag(left.s);
      var body := ReachedBody(h.tag, left.s[h.size..]);
      if body.At? { assert Reached(body.left, 0) == At(body.left) && KeysHashable(rt, body.left, 0); }
    } else {
      assert KeysHashable(rt, Broken, n - 1);
    }
  }

  lemma NoneReached(rt: Runtime, left: Left)
    ensures Reached(left, 0) == At(left) && KeysHashable(rt, left, 0) && PairsHashable(rt, left, 0)
  {
  }

  lemma PairsFirst(rt: Runtime, left: Left, n: nat)
    requires n > 0
    ensures PairsHashable(rt, left, n) <==>
      var key := Reached(left, 1);
      && KeysHashable(rt, left, 1)
      && (key.At? ==>
            var value := Reached(key.left, 1);
            && KeysHashable(rt, key.left, 1)
            && (value.At? ==> rt.hashable(KeyOf(rt, left)) && PairsHashable(rt, value.left, n - 1)))
    ensures LoadOne(rt, left).Step? ==> KeyOf(rt, left) == LoadOne(rt, left).obj
  {
    hide Reached, KeysHashable, LoadOne;
  }

  /** The two functions agree: loading raises nothing exactly when the bytes let it through and the keys
      are hashable, and it ends where the bytes say. */
  ghost predicate Agree(loads: bool, left: Left, reach: Reach, hashable: bool) {
    && (loads <==> reach.At? && hashable)
    && (loads ==> reach.At? && left == reach.left)
  }

  lemma {:induction false} LoadGoes(rt: Runtime, left: Left)
    ensures var r := LoadOne(rt, left);
      Agree(r.Step?, if r.Step? then r.left else Broken, Reached(left, 1), KeysHashable(rt, left, 1))
    decreases Size(left), 1, 1
  {
    hide ParseTag, LoadBody, ReachedBody, BodyHashable;
    if left.Left? && ParseTag(left.s).Header? {
      var h := ParseTag(left.s);
      BodyGoes(rt, h.tag, left.s[h.size..]);
    }
  }

  lemma {:induction false} BodyGoes(rt: Runtime, t: Tag, s: bytes)
    requires t != Missing
    ensures var r := LoadBody(rt, t, s);
      Agree(r.Step?, if r.Step? then r.left else Broken, ReachedBody(t, s), BodyHashable(rt, t, s))
    decreases |s|, 3, 0
  {
    hide LoadItems, LoadPairs, LoadsOf, LoadOne, Reached, Readable, KeysHashable, PairsHashable, Utf8.Valid;
    match t
    case Array(n) => ItemsGo(rt, Left(s), n);
    case Map(n) => PairsGo(rt, Left(s), n, [], true);
    case Ext(_, l) =>
      if IsBlock(t) && l <= |s| {
        BlockGoes(rt, s[..l]);
      }
    case Str(_) =>
    case Bin(_) =>
    case _ => LeafReached(t, s);
  }

  lemma LeafReached(t: Tag, s: bytes)
    requires t != Missing && !t.Str? && !t.Bin? && !t.Ext? && !t.Array? && !t.Map?
    ensures ReachedBody(t, s) == At(Left(s))
  {
  }

  lemma {:induction false} BlockGoes(rt: Runtime, s: bytes)
    ensures LoadsOf(rt, s).Step? <==> Readable(s) && KeysHashable(rt, Left(s), 1)
    decreases |s|, 2, 0
  {
    hide LoadOne, Reached, KeysHashable;
    LoadGoes(rt, Left(s));
  }

  lemma {:induction false} ItemsGo(rt: Runtime, left: Left, n: nat)
    ensures var r := LoadItems(rt, left, n);
      Agree(r.Items?, if r.Items? then r.left else Broken, Reached(left, n), KeysHashable(rt, left, n))
    decreases Size(left), 2, n
  {
    hide LoadOne, Reached, KeysHashable, PairsHashable;
    NoneReached(rt, left);
    if n > 0 {
      LoadGoes(rt, left);
      ReachedFirst(left, n);
      KeysFirst(rt, left, n);
      if LoadOne(rt, left).Step? {
        ItemsGo(rt, LoadOne(rt, left).left, n - 1);
      }
    }
  }

  lemma {:induction false} PairsGo(rt: Runtime, left: Left, n: nat, entries: seq<Slot>, clean: bool)
    ensures var r := LoadPairs(rt, left, n, entries, clean);
      Agree(r.Step?, if r.Step? then r.left else Broken, Reached(left, 2 * n), PairsHashable(rt, left, n))
    decreases Size(left), 2, n
  {
    hide LoadOne, Store, Reached, KeysHashable, PairsHashable, KeyOf;
    NoneReached(rt, left);
    if n > 0 {
      var key := LoadOne(rt, left);
      PairsFirst(rt, left, n);
      LoadGoes(rt, left);
      ReachedFirst(left, 2 * n);
      if key.Step? {
        var value := LoadOne(rt, key.left);
        LoadGoes(rt, key.left);
        ReachedFirst(key.left, 2 * n - 1);
        if value.Step? && rt.hashable(key.obj) {
          var more := Store(rt, entries, key.obj, value.obj);
          PairsGo(rt, value.left, n - 1, more, clean && key.clean && value.clean);
        }
      }
    }
  }

  // ---------------------------------------------------------------------------------------------
  // Where the reader stays in order

  /** Once the reader is in an error state it stays there. */
  lemma {:induction false} BrokenStays(rt: Runtime, n: nat, entries: seq<Slot>, clean: bool)
    ensures LoadItems(rt, Broken, n).Items? && LoadItems(rt, Broken, n).left == Broken
    ensures LoadPairs(rt, Broken, n, entries, clean).Step? ==> LoadPairs(rt, Broken, n, entries, clean).left == Broken
    decreases n
  {
    if n > 0 {
      BrokenStays(rt, n - 1, Store(rt, entries, PyNone, PyNone), clean);
    }
  }

  lemma BrokenOne(rt: Runtime)
    ensures LoadOne(rt, Broken) == Step(PyNone, Broken, true)
  {
  }

  lemma NestedFirst(s: bytes, n: nat)
    requires n > 0
    ensures NestedWhole(s, n) <==>
      NestedWhole(s, 1) && (Decode(s, 1).Decoded? ==> NestedWhole(s[Decode(s, 1).size..], n - 1))
  {
    hide FirstItem, Decode, Whole;
    DecodeOne(s);
    NestedNone(s);
  }

  lemma NestedNone(s: bytes)
    ensures forall i | 0 <= i <= |s| :: NestedWhole(s[i..], 0)
  {
  }

  lemma NestedUnfold(s: bytes)
    requires FirstItem(s).Item?
    ensures var it := FirstItem(s);
      NestedWhole(s, 1) <==> (IsBlock(it.tag) ==> Whole(it.payload)) && NestedWhole(s[it.used..], ChildCount(it.tag))
  {
    hide FirstItem, Decode, Whole;
    NestedNone(s);
  }

  /** The value at the front of a stream, by its header and its body. */
  lemma NestedOne(s: bytes)
    requires Decode(s, 1).Decoded?
    ensures var h := ParseTag(s); var p := PayloadSize(h.tag);
      && h.Header? && p <= |s| - h.size
      && (NestedWhole(s, 1) <==>
            && (IsBlock(h.tag) ==> Whole(s[h.size..][..p]))
            && NestedWhole(s[h.size..][p..], ChildCount(h.tag)))
  {
    hide FirstItem, Decode, Whole, ParseTag, NestedWhole;
    FirstItemOfHeader(s);
    DecodeOne(s);
    NestedUnfold(s);
    var h := ParseTag(s);
    DropDrop(s, h.size, PayloadSize(h.tag));
    assert s[h.size..][..PayloadSize(h.tag)] == s[h.size..h.size + PayloadSize(h.tag)];
  }

  /** What loading says of the bytes it has gone past: `left` tells whether they hold `n` values, and
      `clean` whether the blocks nested in these are whole, and all was well `before`. */
  ghost predicate Tells(s: bytes, n: nat, left: Left, before: bool, clean: bool) {
    var d := Decode(s, n);
    && left == (if d.Decoded? then Left(s[d.size..]) else Broken)
    && (d.Decoded? ==> (clean <==> before && NestedWhole(s, n)))
  }

  /** Loading that raises nothing leaves the reader in order exactly when there was a value to read,
      and has then gone past that value. */
  lemma {:induction false} LoadConsumes(rt: Runtime, s: bytes)
    requires LoadOne(rt, Left(s)).Step?
    ensures Tells(s, 1, LoadOne(rt, Left(s)).left, true, LoadOne(rt, Left(s)).clean)
    decreases |s|, 1, 0
  {
    hide ParseTag, Decode, LoadBody, NestedWhole, Whole, ChildCount, PayloadSize;
    Discards.BodyOfValue(s);
    var h := ParseTag(s);
    if h.Header? {
      BodyConsumes(rt, h.tag, s[h.size..]);
      if Decode(s, 1).Decoded? { NestedOne(s); }
    }
  }

  lemma {:induction false} BodyConsumes(rt: Runtime, t: Tag, s: bytes)
    requires t != Missing && LoadBody(rt, t, s).Step?
    ensures var r, p := LoadBody(rt, t, s), PayloadSize(t);
      if p <= |s| && Decode(s[p..], ChildCount(t)).Decoded? then
        && r.left == Left(s[p..][Decode(s[p..], ChildCount(t)).size..])
        && (r.clean <==> (IsBlock(t) ==> Whole(s[..p])) && NestedWhole(s[p..], ChildCount(t)))
      else r.left == Broken
    decreases |s|, 3, 0
  {
    hide Decode, LoadItems, LoadPairs, LoadsOf, NestedWhole, Whole, Utf8.Valid;
    assert s[0..] == s;
    NestedNone(s);
    if PayloadSize(t) <= |s| { TrackedRuns.NoValues(s[PayloadSize(t)..]); }
    match t
    case Array(n) => ItemsConsume(rt, s, n);
    case Map(n) => PairsConsume(rt, s, n, [], true);
    case Ext(_, l) => BlockConsumes(rt, s[..l]);
    case _ =>
  }

  /** A block that loads is whole exactly when no reader, of the block itself or of one nested in it, has
      ended in an error. */
  lemma {:induction false} BlockConsumes(rt: Runtime, s: bytes)
    requires LoadsOf(rt, s).Step?
    ensures LoadsOf(rt, s).left.Left? && LoadsOf(rt, s).clean <==> Whole(s)
    decreases |s|, 2, 0
  {
    hide LoadOne, Decode, NestedWhole;
    LoadConsumes(rt, s);
  }

  lemma {:induction false} ItemsConsume(rt: Runtime, s: bytes, n: nat)
    requires LoadItems(rt, Left(s), n).Items?
    ensures Tells(s, n, LoadItems(rt, Left(s), n).left, true, LoadItems(rt, Left(s), n).clean)
    decreases |s|, 2, n
  {
    hide Decode, LoadOne, NestedWhole;
    if n == 0 {
      TrackedRuns.NoValues(s);
      NestedNone(s);
    } else {
      LoadConsumes(rt, s);
      DecodeAppend(s, 1, n - 1);
      NestedFirst(s, n);
      BrokenStays(rt, n - 1, [], true);
      if Decode(s, 1).Decoded? {
        var k := Decode(s, 1).size;
        ItemsConsume(rt, s[k..], n - 1);
        if Decode(s[k..], n - 1).Decoded? { DropDrop(s, k, Decode(s[k..], n - 1).size); }
      }
    }
  }

  lemma PairsUnfold(rt: Runtime, left: Left, n: nat, entries: seq<Slot>, clean: bool)
    requires LoadPairs(rt, left, n, entries, clean).Step?
    ensures n == 0 ==> LoadPairs(rt, left, n, entries, clean) == Step(PyDict(|entries|, entries), left, clean)
    ensures n > 0 ==>
      var key := LoadOne(rt, left); key.Step? && var value := LoadOne(rt, key.left);
      value.Step? &&
      LoadPairs(rt, left, n, entries, clean) ==
      LoadPairs(rt, value.left, n - 1, Store(rt, entries, key.obj, value.obj), clean && key.clean && value.clean)
  {
    hide LoadOne, Store;
  }

  lemma {:induction false} PairsConsume(rt: Runtime, s: bytes, n: nat, entries: seq<Slot>, clean: bool)
    requires LoadPairs(rt, Left(s), n, entries, clean).Step?
    ensures var r := LoadPairs(rt, Left(s), n, entries, clean); Tells(s, 2 * n, r.left, clean, r.clean)
    decreases |s|, 2, n
  {
    hide Decode, LoadOne, Store, NestedWhole, LoadPairs, LoadItems, Tells;
    PairsUnfold(rt, Left(s), n, entries, clean);
    if n == 0 {
      TellsNothing(s, clean);
    } else {
      var key := LoadOne(rt, Left(s));
      var value := LoadOne(rt, key.left);
      var more, clean' := Store(rt, entries, key.obj, value.obj), clean && key.clean && value.clean;
      PairConsumes(rt, s);
      TellsLeft(s, 2, value.left, key.clean && value.clean);
      var r := LoadPairs(rt, value.left, n - 1, more, clean');
      if Decode(s, 2).Decoded? {
        PairsConsume(rt, s[Decode(s, 2).size..], n - 1, more, clean');
        TellsPair(s, 2 * n - 2, r.left, clean, key.clean && value.clean, r.clean);
      } else {
        BrokenStays(rt, n - 1, more, clean');
        TellsBroken(s, 2 * n - 2, clean, r.clean);
      }
    }
  }

  lemma TellsNothing(s: bytes, before: bool)
    ensures Tells(s, 0, Left(s), before, before)
  {
    hide Decode, NestedWhole;
    TrackedRuns.NoValues(s);
    NestedNone(s);
  }

  lemma TellsLeft(s: bytes, n: nat, left: Left, clean: bool)
    requires Tells(s, n, left, true, clean)
    ensures left == if Decode(s, n).Decoded? then Left(s[Decode(s, n).size..]) else Broken
  {
    hide Decode, NestedWhole;
  }

  /** A pair that is not there, and what would have followed. */
  lemma TellsBroken(s: bytes, n: nat, before: bool, clean: bool)
    requires Decode(s, 2).Malformed?
    ensures Tells(s, n + 2, Broken, before, clean)
  {
    hide Decode, NestedWhole;
    DecodeAppend(s, 2, n);
  }

  /** A pair and what follows. */
  lemma TellsPair(s: bytes, n: nat, left: Left, before: bool, pair: bool, clean: bool)
    requires Decode(s, 2).Decoded? && Tells(s, 2, Left(s[Decode(s, 2).size..]), true, pair)
    requires Tells(s[Decode(s, 2).size..], n, left, before && pair, clean)
    ensures Tells(s, n + 2, left, before, clean)
  {
    hide Decode, NestedWhole;
    DecodeAppend(s, 2, n);
    var k := Decode(s, 2).size;
    NestedPair(s, n + 2);
    if Decode(s[k..], n).Decoded? { DropDrop(s, k, Decode(s[k..], n).size); }
  }

  lemma NestedPair(s: bytes, n: nat)
    requires n >= 2 && Decode(s, 2).Decoded?
    ensures NestedWhole(s, n) <==> NestedWhole(s, 2) && NestedWhole(s[Decode(s, 2).size..], n - 2)
  {
    hide Decode, NestedWhole;
    DecodeAppend(s, 1, 1);
    NestedFirst(s, n);
    NestedFirst(s, 2);
    var k := Decode(s, 1).size;
    DropDrop(s, k, Decode(s[k..], 1).size);
    NestedFirst(s[k..], n - 1);
    NestedFirst(s[k..], 1);
  }

  /** A key and a value. */
  lemma {:induction false} PairConsumes(rt: Runtime, s: bytes)
    requires LoadOne(rt, Left(s)).Step? && LoadOne(rt, LoadOne(rt, Left(s)).left).Step?
    ensures var key := LoadOne(rt, Left(s)); var value := LoadOne(rt, key.left);
      Tells(s, 2, value.left, true, key.clean && value.clean)
    decreases |s|, 1, 1
  {
    hide Decode, LoadOne, NestedWhole;
    BrokenOne(rt);
    LoadConsumes(rt, s);
    DecodeAppend(s, 1, 1);
    NestedFirst(s, 2);
    if Decode(s, 1).Decoded? {
      var k := Decode(s, 1).size;
      LoadConsumes(rt, s[k..]);
      if Decode(s[k..], 1).Decoded? { DropDrop(s, k, Decode(s[k..], 1).size); }
    }
  }

  // ---------------------------------------------------------------------------------------------

  /** What msgpack_loads accepts, by the bytes: blocks that can be read through and whose keys are
      hashable. Of these, the ones that left every reader in order, which msgpack_loads does not ask
      for, are the whole ones. */
  lemma LoadsAccepts(rt: Runtime, s: bytes)
    ensures LoadsOf(rt, s).Step? <==> Readable(s) && KeysHashable(rt, Left(s), 1)
    ensures LoadsOf(rt, s).Step? ==> (LoadsOf(rt, s).left.Left? && LoadsOf(rt, s).clean <==> Whole(s))
  {
    hide LoadsOf, Readable, KeysHashable, Whole;
    BlockGoes(rt, s);
    if LoadsOf(rt, s).Step? { BlockConsumes(rt, s); }
  }

  /** The header of an array of two without its elements is accepted: the reader has ended in an error,
      and two objects are made up. */
  lemma TruncatedIsAccepted(rt: Runtime)
    ensures LoadsOf(rt, [0x92]) == Step(PyTuple([PyNone, PyNone]), Broken, true) && !Whole([0x92])
  {
    assert ParseTag([0x92]) == Header(Array(2), 1);
    assert LoadItems(rt, Left([]), 2) == Items([PyNone, PyNone], Broken, true) by {
      assert LoadOne(rt, Left([])) == Step(PyNone, Broken, true);
      BrokenOne(rt);
      assert LoadItems(rt, Broken, 1) == Before([PyNone], true, LoadItems(rt, Broken, 0));
      assert [PyNone] + [PyNone] == [PyNone, PyNone];
    }
    assert [0x92][1..] == [];
    LoadsAccepts(rt, [0x92]);
  }

  /** So is a UValue that holds this header. Here the outer reader is in order, and the block is one value:
      only the nested reader has ended in an error. */
  lemma NestedTruncatedIsAccepted(rt: Runtime)
    ensures LoadsOf(rt, [0xd4, 0x01, 0x92]) == Step(PyValue(PyTuple([PyNone, PyNone])), Left([]), false)
    ensures Decode([0xd4, 0x01, 0x92], 1).Decoded? && !Whole([0xd4, 0x01, 0x92])
  {
    var s := [0xd4, 0x01, 0x92];
    HeldBlockIsLoaded(rt);
    hide LoadsOf, LoadOne, Whole;
    LoadsAccepts(rt, s);
    LoadConsumes(rt, s);
  }

  /** The loader gives the payload of the UValue to a reader of its own. */
  lemma HeldBlockIsLoaded(rt: Runtime)
    ensures LoadsOf(rt, [0xd4, 0x01, 0x92]) == Step(PyValue(PyTuple([PyNone, PyNone])), Left([]), false)
  {
    var s := [0xd4, 0x01, 0x92];
    TruncatedIsAccepted(rt);
    assert ParseTag(s) == Header(Ext(1, 1), 2);
    assert s[2..] == [0x92] && [0x92][..1] == [0x92] && [0x92][1..] == [];
  }
}
