/** A MessagePack value and its encodings: the one recursive definition that the tree parser, the
    reader, the write tracker and the object mapper are all measured against. */
module Values {
  import opened Bytes
  import opened Tags

  /** A header with what follows it: the payload bytes of a str, bin or ext, and the children of an
      array or map. The children of a map are its keys and values in turn. */
  datatype Value = Value(tag: Tag, payload: bytes, children: seq<Value>)

  datatype Decoded = Malformed | Decoded(values: seq<Value>, size: nat)

  function PayloadSize(t: Tag): (n: nat) {
    if t.Str? || t.Bin? || t.Ext? then t.l else 0
  }

  function ChildCount(t: Tag): (n: nat) {
    if t.Array? then t.n else if t.Map? then 2 * t.n else 0
  }

  predicate WellFormed(v: Value) {
    && v.tag != Missing
    && |v.payload| == PayloadSize(v.tag)
    && |v.children| == ChildCount(v.tag)
    && forall c | c in v.children :: WellFormed(c)
  }

  predicate AllWellFormed(vs: seq<Value>) {
    forall v | v in vs :: WellFormed(v)
  }

  /** The nodes of a value: itself and what is below it. */
  function NodeCount(v: Value): nat {
    1 + NodesOf(v.children)
  }

  function NodesOf(vs: seq<Value>): nat {
    if vs == [] then 0 else NodeCount(vs[0]) + NodesOf(vs[1..])
  }

  lemma {:induction false} NodesOfAppend(a: seq<Value>, b: seq<Value>)
    ensures NodesOf(a + b) == NodesOf(a) + NodesOf(b)
  {
    hide NodeCount;
    if a == [] {
      assert a + b == b;
    } else {
      NodesOfAppend(a[1..], b);
      assert (a + b)[1..] == a[1..] + b;
    }
  }

  lemma NodesOfOne(vs: seq<Value>)
    requires |vs| == 1
    ensures NodesOf(vs) == NodeCount(vs[0])
  {
    assert vs[1..] == [];
  }

  lemma {:induction false} NodesOfMany(vs: seq<Value>)
    ensures NodesOf(vs) >= |vs|
  {
    if vs != [] { NodesOfMany(vs[1..]); }
  }

  // ---------------------------------------------------------------------------------------------
  // Encoding

  function Encode(v: Value): bytes {
    EncodeTag(v.tag) + v.payload + EncodeAll(v.children)
  }

  function EncodeAll(vs: seq<Value>): bytes {
    if vs == [] then [] else Encode(vs[0]) + EncodeAll(vs[1..])
  }

  function CanonValue(v: Value): Value {
    Value(Canon(v.tag), v.payload, CanonAll(v.children))
  }

  function CanonAll(vs: seq<Value>): (ws: seq<Value>)
    ensures |ws| == |vs|
  {
    if vs == [] then [] else [CanonValue(vs[0])] + CanonAll(vs[1..])
  }

  // ---------------------------------------------------------------------------------------------
  // Decoding

  datatype Item = NoItem | Item(tag: Tag, payload: bytes, used: nat)

  /** The first header in `s` and the payload bytes behind it. */
  function FirstItem(s: bytes): (it: Item)
    ensures it.Item? ==> 1 <= it.used <= |s| && it.tag != Missing && |it.payload| == PayloadSize(it.tag)
  {
    var h := ParseTag(s);
    if !h.Header? || |s| < h.size + PayloadSize(h.tag) then NoItem
    else Item(h.tag, s[h.size..h.size + PayloadSize(h.tag)], h.size + PayloadSize(h.tag))
  }

  /** Decodes `n` consecutive values from the front of `s`. */
  function Decode(s: bytes, n: nat): (r: Decoded)
    ensures r.Decoded? ==> |r.values| == n && n <= r.size <= |s|
    decreases |s|, n
  {
    if n == 0 then Decoded([], 0)
    else
      var it := FirstItem(s);
      if it.NoItem? then Malformed
      else
        var kids := Decode(s[it.used..], ChildCount(it.tag));
        if kids.Malformed? then Malformed
        else Join(it, kids, Decode(s[it.used + kids.size..], n - 1))
  }

  function Join(it: Item, kids: Decoded, rest: Decoded): Decoded
    requires it.Item? && kids.Decoded?
  {
    if rest.Malformed? then Malformed
    else Decoded([Value(it.tag, it.payload, kids.values)] + rest.values, it.used + kids.size + rest.size)
  }

  /** Runs two decodes one after the other. */
  function Then(a: Decoded, b: Decoded): Decoded {
    if a.Decoded? && b.Decoded? then Decoded(a.values + b.values, a.size + b.size) else Malformed
  }

  lemma JoinThen(it: Item, kids: Decoded, rest: Decoded, more: Decoded)
    requires it.Item? && kids.Decoded?
    ensures Join(it, kids, Then(rest, more)) == Then(Join(it, kids, rest), more)
  {
    if rest.Decoded? && more.Decoded? {
      var v := [Value(it.tag, it.payload, kids.values)];
      assert v + (rest.values + more.values) == (v + rest.values) + more.values;
    }
  }

  lemma DecodeUnfold(s: bytes, n: nat)
    ensures n == 0 ==> Decode(s, n) == Decoded([], 0)
    ensures n > 0 && FirstItem(s).NoItem? ==> Decode(s, n).Malformed?
    ensures n > 0 && FirstItem(s).Item? ==>
      var it := FirstItem(s); var kids := Decode(s[it.used..], ChildCount(it.tag));
      Decode(s, n) == if kids.Malformed? then Malformed else Join(it, kids, Decode(s[it.used + kids.size..], n - 1))
  {
    hide FirstItem;
  }

  /** Decoding `a + b` values is decoding `a` values and then `b` more. */
  lemma {:induction false} DecodeAppend(s: bytes, a: nat, b: nat)
    ensures Decode(s, a).Malformed? ==> Decode(s, a + b).Malformed?
    ensures Decode(s, a).Decoded? ==>
      Decode(s, a + b) == Then(Decode(s, a), Decode(s[Decode(s, a).size..], b))
    decreases |s|, a
  {
    hide FirstItem, Decode;
    DecodeUnfold(s, a);
    DecodeUnfold(s, a + b);
    var it := FirstItem(s);
    if a == 0 {
      assert s[0..] == s;
      var d := Decode(s, b);
      if d.Decoded? { assert [] + d.values == d.values; }
    } else if it.Item? {
      var kids := Decode(s[it.used..], ChildCount(it.tag));
      if kids.Decoded? {
        var k := it.used + kids.size;
        var rest := Decode(s[k..], a - 1);
        DecodeAppend(s[k..], a - 1, b);
        if rest.Decoded? {
          DropDrop(s, k, rest.size);
          JoinThen(it, kids, rest, Decode(s[k + rest.size..], b));
        }
      }
    }
  }

  /** The decode of the first value, given one decode of its children and the values behind it. */
  function Fold(it: Item, d: Decoded): Decoded
    requires it.Item?
  {
    var k := ChildCount(it.tag);
    if d.Malformed? || |d.values| < k then Malformed
    else Decoded([Value(it.tag, it.payload, d.values[..k])] + d.values[k..], it.used + d.size)
  }

  /** Folding makes one node more. */
  lemma FoldNodes(it: Item, d: Decoded)
    requires it.Item? && d.Decoded? && |d.values| >= ChildCount(it.tag)
    ensures NodesOf(Fold(it, d).values) == 1 + NodesOf(d.values)
  {
    var k := ChildCount(it.tag);
    var v := Value(it.tag, it.payload, d.values[..k]);
    NodesOfAppend(d.values[..k], d.values[k..]);
    assert d.values[..k] + d.values[k..] == d.values;
    assert ([v] + d.values[k..])[1..] == d.values[k..];
  }

  /** The children of the first value may be counted among the values still to come: decoding needs
      no recursion, only a count of outstanding values. */
  lemma DecodeFlat(s: bytes, n: nat)
    requires n > 0 && FirstItem(s).Item?
    ensures var it := FirstItem(s);
      Decode(s, n) == Fold(it, Decode(s[it.used..], ChildCount(it.tag) + n - 1))
  {
    hide FirstItem, Decode;
    var it := FirstItem(s);
    var k := ChildCount(it.tag);
    var s1 := s[it.used..];
    DecodeUnfold(s, n);
    DecodeAppend(s1, k, n - 1);
    var kids := Decode(s1, k);
    if kids.Decoded? {
      DropDrop(s, it.used, kids.size);
      var rest := Decode(s1[kids.size..], n - 1);
      if rest.Decoded? {
        DropOfConcat(kids.values, rest.values);
      }
    }
  }

  /** Decoding one value. */
  lemma DecodeOne(s: bytes)
    ensures FirstItem(s).NoItem? ==> Decode(s, 1).Malformed?
    ensures FirstItem(s).Item? ==>
      var it := FirstItem(s); var kids := Decode(s[it.used..], ChildCount(it.tag));
      Decode(s, 1) == if kids.Malformed? then Malformed
                      else Decoded([Value(it.tag, it.payload, kids.values)], it.used + kids.size)
  {
    hide FirstItem, Decode;
    DecodeUnfold(s, 1);
    var it := FirstItem(s);
    if it.Item? {
      var kids := Decode(s[it.used..], ChildCount(it.tag));
      if kids.Decoded? {
        DecodeUnfold(s[it.used + kids.size..], 0);
      }
    }
  }

  lemma FirstItemOfHeader(s: bytes)
    ensures var h, it := ParseTag(s), FirstItem(s);
      && (it.Item? <==> h.Header? && |s| >= h.size + PayloadSize(h.tag))
      && (it.Item? ==> it.tag == h.tag && it.used == h.size + PayloadSize(h.tag) && it.payload == s[h.size..it.used])
  {
    hide ParseTag;
  }

  lemma FirstItemPrefix(s: bytes, t: bytes)
    requires s <= t && FirstItem(s).Item?
    ensures FirstItem(t) == FirstItem(s)
  {
    hide ParseTag;
    ParseTagPrefix(s, t);
    var it := FirstItem(s);
    var h := ParseTag(s).size;
    assert s[h..it.used] == t[h..it.used];
  }

  /** Bytes behind the decoded ones do not matter. */
  lemma {:induction false} DecodePrefix(s: bytes, t: bytes, n: nat)
    requires s <= t && Decode(s, n).Decoded?
    ensures Decode(t, n) == Decode(s, n)
    decreases |s|, n
  {
    hide FirstItem, Decode;
    DecodeUnfold(s, n);
    DecodeUnfold(t, n);
    if n > 0 {
      FirstItemPrefix(s, t);
      var it := FirstItem(s);
      DecodePrefix(s[it.used..], t[it.used..], ChildCount(it.tag));
      var k := it.used + Decode(s[it.used..], ChildCount(it.tag)).size;
      DecodePrefix(s[k..], t[k..], n - 1);
    }
  }

  lemma FirstItemCut(s: bytes, m: nat)
    requires FirstItem(s).Item? && FirstItem(s).used <= m <= |s|
    ensures FirstItem(s[..m]) == FirstItem(s)
  {
    hide ParseTag, TagOf, HeaderSize;
    ParseTagCases(s);
    ParseTagCases(s[..m]);
    var h, it := ParseTag(s), FirstItem(s);
    assert s[..m][..h.size] == s[..h.size] && s[..m][h.size..it.used] == s[h.size..it.used];
  }

  /** Bytes behind the decoded ones can be cut off. */
  lemma {:induction false} DecodeCut(s: bytes, n: nat, m: nat)
    requires Decode(s, n).Decoded? && Decode(s, n).size <= m <= |s|
    ensures Decode(s[..m], n) == Decode(s, n)
    decreases |s|, n
  {
    hide FirstItem, Decode;
    DecodeUnfold(s, n);
    DecodeUnfold(s[..m], n);
    if n > 0 {
      FirstItemCut(s, m);
      var it := FirstItem(s);
      var k := it.used + Decode(s[it.used..], ChildCount(it.tag)).size;
      DecodeCut(s[it.used..], ChildCount(it.tag), m - it.used);
      DecodeCut(s[k..], n - 1, m - k);
      assert s[..m][it.used..] == s[it.used..][..m - it.used] && s[..m][k..] == s[k..][..m - k];
    }
  }

  /** Everything a decode returns is well formed. */
  lemma {:induction false} DecodedWellFormed(s: bytes, n: nat)
    requires Decode(s, n).Decoded?
    ensures AllWellFormed(Decode(s, n).values)
    decreases |s|, n
  {
    hide FirstItem, Decode;
    DecodeUnfold(s, n);
    if n > 0 {
      var it := FirstItem(s);
      var kids := Decode(s[it.used..], ChildCount(it.tag));
      DecodedWellFormed(s[it.used..], ChildCount(it.tag));
      DecodedWellFormed(s[it.used + kids.size..], n - 1);
    }
  }

  lemma Regroup(a: bytes, b: bytes, c: bytes, d: bytes)
    ensures a + b + c + d == a + (b + (c + d))
  {
  }

  lemma FirstItemOfEncoding(t: Tag, payload: bytes, tail: bytes)
    requires t != Missing && |payload| == PayloadSize(t)
    ensures FirstItem(EncodeTag(t) + payload + tail) == Item(Canon(t), payload, |EncodeTag(t)| + |payload|)
  {
    hide ParseTag, EncodeTag;
    var h := |EncodeTag(t)|;
    var s := EncodeTag(t) + payload + tail;
    assert s == EncodeTag(t) + (payload + tail);
    TagRoundTrip(t, payload + tail);
    assert s[h..h + |payload|] == payload;
  }

  /** The first of several encodings, by its parts. */
  lemma EncodedFirst(vs: seq<Value>, tail: bytes)
    requires vs != []
    ensures var v, kids, more := vs[0], EncodeAll(vs[0].children), EncodeAll(vs[1..]) + tail;
      EncodeAll(vs) + tail == EncodeTag(v.tag) + v.payload + (kids + more)
    ensures |EncodeAll(vs)| ==
      |EncodeTag(vs[0].tag)| + |vs[0].payload| + |EncodeAll(vs[0].children)| + |EncodeAll(vs[1..])|
  {
    hide EncodeTag;
    var v := vs[0];
    var kids := EncodeAll(v.children);
    assert EncodeAll(vs) == EncodeTag(v.tag) + v.payload + kids + EncodeAll(vs[1..]);
    Regroup(EncodeTag(v.tag) + v.payload, kids, EncodeAll(vs[1..]), tail);
  }

  /** Decoding undoes encoding, value by value, and leaves the bytes that follow. */
  lemma {:induction false} RoundTrip(vs: seq<Value>, tail: bytes)
    requires AllWellFormed(vs)
    ensures Decode(EncodeAll(vs) + tail, |vs|) == Decoded(CanonAll(vs), |EncodeAll(vs)|)
    decreases vs
  {
    hide FirstItem, Decode, EncodeTag, Encode;
    var s := EncodeAll(vs) + tail;
    DecodeUnfold(s, |vs|);
    if vs != [] {
      var v, more := vs[0], EncodeAll(vs[1..]) + tail;
      var kids := EncodeAll(v.children);
      assert WellFormed(v);
      EncodedFirst(vs, tail);
      hide EncodeAll;
      FirstItemOfEncoding(v.tag, v.payload, kids + more);
      DropOfConcat(EncodeTag(v.tag) + v.payload, kids + more);
      RoundTrip(v.children, more);
      var it := FirstItem(s);
      DropOfConcat(kids, more);
      DropDrop(s, it.used, |kids|);
      RoundTrip(vs[1..], tail);
    }
  }

  lemma EncodedOne(v: Value)
    requires WellFormed(v)
    ensures Decode(Encode(v), 1) == Decoded([CanonValue(v)], |Encode(v)|)
  {
    hide Decode, Encode, CanonValue, WellFormed;
    assert [v][1..] == [];
    assert EncodeAll([v]) + [] == Encode(v);
    RoundTrip([v], []);
  }
}
