/** The node graph of a parsed tree, what it stands for, and what a half-built graph still needs. */
module Nodes {
  import opened Bytes
  import opened Tags
  import opened Values
  import opened NodePages

  datatype BlobKind = StrNode | BinNode | ExtNode

  /** mpack_node_data_t. Children are named by the address of the first; the payload of a blob by
      its offset in the data of the tree. */
  datatype Node =
    | Scalar(tag: Tag)
    | Blob(kind: BlobKind, len: u32, offset: nat)
    | Compound(isMap: bool, len: u32, children: nat)

  type Memory = map<nat, Node>

  predicate IsScalar(t: Tag) {
    t.Nil? || t.Bool? || t.Int? || t.Uint? || t.Float? || t.Double?
  }

  /** The node that a header with its payload at `offset` and its children at `kids` should get. */
  predicate Matches(n: Node, t: Tag, offset: nat, kids: nat) {
    match n
    case Scalar(tag) => tag == t && IsScalar(t)
    case Blob(kind, len, o) =>
      && o == offset && (t.Str? || t.Bin? || t.Ext?) && len == t.l
      && kind == if t.Str? then StrNode else if t.Bin? then BinNode else ExtNode
    case Compound(isMap, len, c) =>
      c == kids && (t.Array? || t.Map?) && len == t.n && isMap == t.Map?
  }

  function KidsOf(n: Node): nat {
    if n.Compound? then n.children else 0
  }

  /** The graph from address `a` unfolds to `v`. The type of an ext is the byte before its payload. */
  ghost predicate Denotes(mem: Memory, data: bytes, a: nat, v: Value)
    decreases v
  {
    && a in mem
    && match mem[a] {
      case Scalar(tag) => IsScalar(tag) && v == Value(tag, [], [])
      case Blob(kind, len, offset) =>
        && 1 <= offset && offset + len <= |data|
        && v == Value(BlobTag(kind, len, data[offset - 1]), data[offset..offset + len], [])
      case Compound(isMap, len, kids) =>
        && v.tag == (if isMap then Map(len) else Array(len)) && v.payload == []
        && |v.children| == ChildCount(v.tag)
        && forall i | 0 <= i < |v.children| :: Denotes(mem, data, kids + i, v.children[i])
    }
  }

  function BlobTag(kind: BlobKind, len: u32, before: byte): Tag {
    match kind
    case StrNode => Str(len)
    case BinNode => Bin(len)
    case ExtNode => Ext(I8OfU8(before), len)
  }

  /** A graph unfolds to one value only. */
  lemma {:induction false} DenotesIsFunctional(mem: Memory, data: bytes, a: nat, v: Value, w: Value)
    requires Denotes(mem, data, a, v) && Denotes(mem, data, a, w)
    ensures v == w
    decreases v
  {
    if mem[a].Compound? {
      forall i | 0 <= i < |v.children| ensures v.children[i] == w.children[i] {
        DenotesIsFunctional(mem, data, mem[a].children + i, v.children[i], w.children[i]);
      }
      assert v.children == w.children;
    }
  }

  ghost predicate AllDenote(mem: Memory, data: bytes, at: seq<nat>, vs: seq<Value>) {
    |at| == |vs| && forall i | 0 <= i < |at| :: Denotes(mem, data, at[i], vs[i])
  }

  function Range(base: nat, n: nat): (r: seq<nat>)
    ensures |r| == n && forall i | 0 <= i < n :: r[i] == base + i
  {
    seq(n, i requires 0 <= i < n => base + i)
  }

  /** mpack_level_t: the next node of a level and how many the level still lacks. */
  datatype Level = Level(child: nat, left: nat)

  /** The addresses still to be parsed, in the order in which the parser gets to them. */
  function Pending(stack: seq<Level>): seq<nat> {
    if stack == [] then []
    else
      var top := stack[|stack| - 1];
      Range(top.child, top.left) + Pending(stack[..|stack| - 1])
  }

  /** Once the pending addresses hold the values that come next in the data, the root holds the
      whole message; and a whole message has values for them, with as many nodes as it has beyond the
      `parsed` ones. */
  ghost predicate Closes(mem: Memory, data: bytes, size: nat, parsed: nat, pending: seq<nat>, root: nat)
    requires size <= |data|
  {
    var d, w := Decode(data[size..], |pending|), Decode(data, 1);
    && (w.Decoded? ==> d.Decoded? && NodeCount(w.values[0]) == parsed + NodesOf(d.values))
    && (d.Decoded? && AllDenote(mem, data, pending, d.values) ==>
          w.Decoded? && w.size == size + d.size && Denotes(mem, data, root, w.values[0]))
  }

  ghost predicate Agree(mem: Memory, other: Memory, done: set<nat>) {
    forall a | a in done :: a in mem && a in other && mem[a] == other[a]
  }

  /** Whatever the rest of the parse puts into the pending nodes and whatever data is still to
      come, finishing them finishes the message. */
  ghost predicate Completes(mem: Memory, data: bytes, size: nat, done: set<nat>, pending: seq<nat>, root: nat)
    requires size <= |data|
  {
    forall m: Memory, d: bytes | data <= d && Agree(m, mem, done) :: Closes(m, d, size, |done|, pending, root)
  }

  lemma CompletesAtStart(mem: Memory, data: bytes, root: nat)
    ensures Completes(mem, data, 0, {}, [root], root)
  {
    hide Decode, Denotes, NodesOf, NodeCount;
    forall m: Memory, d: bytes | data <= d ensures Closes(m, d, 0, 0, [root], root) {
      assert d[0..] == d;
      if Decode(d, 1).Decoded? { NodesOfOne(Decode(d, 1).values); }
    }
  }

  lemma CompletesAtEnd(mem: Memory, data: bytes, size: nat, done: set<nat>, root: nat)
    requires size <= |data| && Completes(mem, data, size, done, [], root) && done <= mem.Keys
    ensures Decode(data, 1).Decoded? && Decode(data, 1).size == size
    ensures Denotes(mem, data, root, Decode(data, 1).values[0]) && NodeCount(Decode(data, 1).values[0]) == |done|
  {
    hide Decode, FirstItem, NodeCount;
    DecodeUnfold(data[size..], 0);
    assert Closes(mem, data, size, |done|, [], root);
  }

  /** The first item of the message at `size` as a step of the parser: the node at the first pending
      address is made, and its children take its place. */
  lemma StepDenotes(mem: Memory, data: bytes, size: nat, pending: seq<nat>, it: Item, kids: nat, d: Decoded)
    requires size <= |data| && pending != [] && it.Item? && size + it.used <= |data|
    requires FirstItem(data[size..]) == it
    requires pending[0] in mem && Matches(mem[pending[0]], it.tag, size + it.used - |it.payload|, kids)
    requires d.Decoded? && |d.values| == ChildCount(it.tag) + |pending| - 1
    requires AllDenote(mem, data, Range(kids, ChildCount(it.tag)) + pending[1..], d.values)
    ensures AllDenote(mem, data, pending, Fold(it, d).values)
  {
    var k := ChildCount(it.tag);
    var v := Value(it.tag, it.payload, d.values[..k]);
    var at := Range(kids, k) + pending[1..];
    assert Denotes(mem, data, pending[0], v) by {
      FirstNodeDenotes(mem, data, size, pending[0], it, kids, d.values[..k], at, d.values);
    }
    forall i | 1 <= i < |pending| ensures Denotes(mem, data, pending[i], Fold(it, d).values[i]) {
      assert at[k + i - 1] == pending[i];
    }
  }

  lemma FirstDenote(mem: Memory, data: bytes, at: seq<nat>, vs: seq<Value>, kids: nat, k: nat)
    requires AllDenote(mem, data, at, vs) && k <= |vs| && Range(kids, k) <= at
    ensures forall i | 0 <= i < k :: Denotes(mem, data, kids + i, vs[i])
  {
    hide Denotes;
    forall i | 0 <= i < k ensures Denotes(mem, data, kids + i, vs[i]) {
      assert at[i] == Range(kids, k)[i] == kids + i;
    }
  }

  lemma FirstNodeDenotes(mem: Memory, data: bytes, size: nat, a: nat, it: Item, kids: nat, children: seq<Value>,
                         at: seq<nat>, vs: seq<Value>)
    requires size <= |data| && it.Item? && size + it.used <= |data| && FirstItem(data[size..]) == it
    requires a in mem && Matches(mem[a], it.tag, size + it.used - |it.payload|, kids)
    requires |children| == ChildCount(it.tag) && children <= vs && Range(kids, |children|) <= at
    requires AllDenote(mem, data, at, vs)
    ensures Denotes(mem, data, a, Value(it.tag, it.payload, children))
  {
    hide ParseTag, FirstItem, Decode, AllDenote;
    ItemInPlace(data, size);
    if mem[a].Compound? {
      FirstDenote(mem, data, at, vs, kids, |children|);
      forall i | 0 <= i < |children| ensures Denotes(mem, data, kids + i, children[i]) {
        assert vs[i] == children[i];
      }
    }
  }

  /** Where the payload of the item at `size` lies, and the type byte of an ext. */
  lemma ItemInPlace(data: bytes, size: nat)
    requires size <= |data| && FirstItem(data[size..]).Item?
    ensures var it := FirstItem(data[size..]); var offset := size + it.used - |it.payload|;
      && size < offset <= size + it.used <= |data| && data[offset..offset + |it.payload|] == it.payload
      && (it.tag.Ext? ==> it.tag.exttype == I8OfU8(data[offset - 1]))
  {
    hide ParseTag, FirstItem;
    FirstItemOfHeader(data[size..]);
    var h := ParseTag(data[size..]);
    if h.tag.Ext? {
      ExtTypeIsLast(data[size..]);
    }
  }

  lemma StepCloses(mem: Memory, data: bytes, size: nat, parsed: nat, pending: seq<nat>, root: nat, it: Item, kids: nat)
    requires size <= |data| && pending != [] && it.Item? && size + it.used <= |data|
    requires FirstItem(data[size..]) == it
    requires pending[0] in mem && Matches(mem[pending[0]], it.tag, size + it.used - |it.payload|, kids)
    requires Closes(mem, data, size, parsed, pending, root)
    ensures Closes(mem, data, size + it.used, parsed + 1, Range(kids, ChildCount(it.tag)) + pending[1..], root)
  {
    hide Decode, FirstItem, AllDenote, Matches, Denotes, NodeCount, NodesOf;
    var after := Range(kids, ChildCount(it.tag)) + pending[1..];
    DropDrop(data, size, it.used);
    var d := Decode(data[size + it.used..], |after|);
    DecodeFlat(data[size..], |pending|);
    if d.Decoded? { FoldNodes(it, d); }
    if d.Decoded? && AllDenote(mem, data, after, d.values) {
      StepDenotes(mem, data, size, pending, it, kids, d);
    }
  }

  /** The parser's step keeps the promise of `Completes`. */
  lemma StepCompletes(mem: Memory, data: bytes, size: nat, done: set<nat>, pending: seq<nat>, root: nat,
                      node: Node, it: Item, kids: nat)
    requires size <= |data| && Completes(mem, data, size, done, pending, root)
    requires pending != [] && pending[0] !in done
    requires it.Item? && FirstItem(data[size..]) == it && Matches(node, it.tag, size + it.used - |it.payload|, kids)
    ensures Completes(mem[pending[0] := node], data, size + it.used, done + {pending[0]},
                      Range(kids, ChildCount(it.tag)) + pending[1..], root)
  {
    hide Decode, FirstItem, Matches, Closes;
    var a := pending[0];
    var mem' := mem[a := node];
    var size', after := size + it.used, Range(kids, ChildCount(it.tag)) + pending[1..];
    forall m: Memory, d: bytes | data <= d && Agree(m, mem', done + {a})
      ensures Closes(m, d, size', |done + {a}|, after, root)
    {
      assert |done + {a}| == |done| + 1;
      assert Agree(m, mem, done);
      assert m[a] == node;
      assert data[size..] <= d[size..];
      FirstItemPrefix(data[size..], d[size..]);
      StepCloses(m, d, size, |done|, pending, root, it, kids);
    }
  }

  /** The nodes handed out are the parsed ones and the pending ones, each once. */
  ghost predicate Linked(done: set<nat>, pending: seq<nat>, handed: set<nat>) {
    && done <= handed && |handed| == |done| + |pending|
    && (forall i | 0 <= i < |pending| :: pending[i] in handed && pending[i] !in done)
    && (forall i, j | 0 <= i < j < |pending| :: pending[i] != pending[j])
  }

  lemma LinkedAtStart(root: nat)
    ensures Linked({}, [root], {root})
  {
  }

  lemma PendingAtStart(root: nat)
    ensures Pending([Level(root, 1)]) == [root]
  {
    PendingPush([], Level(root, 1));
    assert [] + [Level(root, 1)] == [Level(root, 1)];
    assert Range(root, 1) + Pending([]) == [root];
  }

  lemma LinkedStep(done: set<nat>, pending: seq<nat>, handed: set<nat>, kids: nat, k: nat)
    requires Linked(done, pending, handed) && pending != []
    requires Slots(Block(kids, k)) !! handed
    ensures Linked(done + {pending[0]}, Range(kids, k) + pending[1..], handed + Slots(Block(kids, k)))
    ensures pending[0] !in done
  {
    SlotCount(Block(kids, k));
    var after := Range(kids, k) + pending[1..];
    forall i | 0 <= i < |after| ensures after[i] in handed + Slots(Block(kids, k)) && after[i] !in done + {pending[0]} {
      if i < k {
        assert Covers(Block(kids, k), kids + i);
        assert after[i] in Slots(Block(kids, k));
      }
    }
    forall i, j | 0 <= i < j < |after| ensures after[i] != after[j] {
      if i < k {
        assert Covers(Block(kids, k), kids + i);
        assert after[i] in Slots(Block(kids, k));
      }
    }
  }

  lemma PendingPush(below: seq<Level>, top: Level)
    ensures Pending(below + [top]) == Range(top.child, top.left) + Pending(below)
  {
    assert (below + [top])[..|below|] == below;
  }

  /** Counting down the top level removes the first pending address; opening a level puts the children
      in its place. */
  lemma PendingStep(stack: seq<Level>, kids: nat, k: nat)
    requires stack != [] && stack[|stack| - 1].left > 0
    ensures var n := |stack| - 1; var t := stack[n];
      var moved := stack[n := Level(t.child + 1, t.left - 1)];
      && Pending(stack) != [] && Pending(stack)[0] == t.child
      && Pending(moved) == Pending(stack)[1..]
      && Pending(moved + [Level(kids, k)]) == Range(kids, k) + Pending(stack)[1..]
  {
    var n := |stack| - 1;
    var below, t := stack[..n], stack[n];
    var next := Level(t.child + 1, t.left - 1);
    assert stack == below + [t] && stack[n := next] == below + [next];
    hide Pending;
    PendingPush(below, t);
    PendingPush(below, next);
    PendingPush(below + [next], Level(kids, k));
    assert Range(t.child, t.left) == [t.child] + Range(next.child, next.left);
  }

  /** An exhausted level has nothing pending. */
  lemma PendingPop(stack: seq<Level>)
    requires stack != [] && stack[|stack| - 1].left == 0
    ensures Pending(stack) == Pending(stack[..|stack| - 1])
  {
  }

  lemma CompletesMore(mem: Memory, data: bytes, more: bytes, size: nat, done: set<nat>, pending: seq<nat>, root: nat)
    requires size <= |data| && data <= more && Completes(mem, data, size, done, pending, root)
    ensures Completes(mem, more, size, done, pending, root)
  {
    hide Closes;
  }

  /** Parsing one item neither adds nor removes a way to finish the message. */
  lemma FeasibleStep(data: bytes, size: nat, it: Item, n: nat)
    requires size <= |data| && n > 0 && it.Item? && FirstItem(data[size..]) == it
    ensures Decode(data[size..], n).Decoded? <==> Decode(data[size + it.used..], ChildCount(it.tag) + n - 1).Decoded?
  {
    hide Decode, FirstItem;
    DecodeFlat(data[size..], n);
    DropDrop(data, size, it.used);
  }

  /** A message that can be finished has the bytes its next item reserves. */
  lemma FeasibleReserve(data: bytes, size: nat, n: nat, possible: nat)
    requires size <= |data| && n > 0 && |data| == size + n + possible && Decode(data[size..], n).Decoded?
    ensures var it := FirstItem(data[size..]); it.Item? && it.used + ChildCount(it.tag) - 1 <= possible
  {
    hide Decode, FirstItem;
    DecodeUnfold(data[size..], n);
    FeasibleStep(data, size, FirstItem(data[size..]), n);
  }

  /** Where the next item needs more bytes than there are possible nodes left, there is no whole
      message yet. */
  lemma StarvedIsIncomplete(mem: Memory, before: bytes, data: bytes, size: nat, done: set<nat>, pending: seq<nat>, root: nat,
                            possible: nat)
    requires size <= |before| && before <= data && Completes(mem, before, size, done, pending, root) && done <= mem.Keys
    requires pending != [] && |data| == size + |pending| + possible
    requires var it := FirstItem(data[size..]); it.Item? ==> it.used + ChildCount(it.tag) - 1 > possible
    ensures Decode(data, 1).Malformed?
  {
    hide Decode, FirstItem;
    assert Closes(mem, data, size, |done|, pending, root);
    if Decode(data, 1).Decoded? {
      FeasibleReserve(data, size, |pending|, possible);
    }
  }

  /** A message that is not whole in the bytes received by `now` takes at least the bytes that its next item
      reserves. */
  lemma ReservedIsTaken(mem: Memory, before: bytes, now: bytes, data: bytes, size: nat, done: set<nat>,
                        pending: seq<nat>, root: nat)
    requires size <= |before| && before <= now <= data && Completes(mem, before, size, done, pending, root)
    requires done <= mem.Keys && pending != [] && FirstItem(data[size..]).Item? && |now| >= size + |pending|
    requires var it := FirstItem(data[size..]); |now| < size + |pending| + it.used - 1 + ChildCount(it.tag)
    ensures var it := FirstItem(data[size..]);
      Decode(data, 1).Decoded? ==> Decode(data, 1).size >= size + |pending| + it.used - 1 + ChildCount(it.tag)
  {
    hide Decode, FirstItem, Completes;
    var d := Decode(data, 1);
    if d.Decoded? {
      if FirstItem(now[size..]).Item? { FirstItemPrefix(now[size..], data[size..]); }
      StarvedIsIncomplete(mem, before, now, size, done, pending, root, |now| - size - |pending|);
      assert now == data[..|now|];
      if d.size <= |now| { DecodeCut(data, 1, |now|); }
      var whole := data[..d.size];
      DecodeCut(data, 1, d.size);
      if FirstItem(whole[size..]).Item? { FirstItemPrefix(whole[size..], data[size..]); }
      if d.size < size + |pending| + FirstItem(data[size..]).used - 1 + ChildCount(FirstItem(data[size..]).tag) {
        StarvedIsIncomplete(mem, before, whole, size, done, pending, root, d.size - size - |pending|);
      }
    }
  }

  /** Where the next item has more children than there are nodes left in the pool, the message has more
      nodes than the pool. */
  lemma CrowdedIsTooMany(mem: Memory, data: bytes, size: nat, done: set<nat>, pending: seq<nat>, root: nat, left: nat)
    requires size <= |data| && Completes(mem, data, size, done, pending, root) && done <= mem.Keys && pending != []
    requires FirstItem(data[size..]).Item? && ChildCount(FirstItem(data[size..]).tag) > left
    ensures Decode(data, 1).Decoded? ==> NodeCount(Decode(data, 1).values[0]) > |done| + |pending| + left
  {
    hide Decode, FirstItem, NodeCount, NodesOf;
    assert Closes(mem, data, size, |done|, pending, root);
    if Decode(data, 1).Decoded? {
      var it := FirstItem(data[size..]);
      DecodeFlat(data[size..], |pending|);
      var d := Decode(data[size..][it.used..], ChildCount(it.tag) + |pending| - 1);
      FoldNodes(it, d);
      NodesOfMany(d.values);
    }
  }

  /** What has stopped the parser is in the message: it is not whole, or has more nodes than the pool. */
  lemma StuckIsUnparsable(mem: Memory, before: bytes, data: bytes, size: nat, done: set<nat>, pending: seq<nat>, root: nat,
                          handed: set<nat>, paged: bool, left: nat)
    requires size <= |before| && before <= data && Completes(mem, before, size, done, pending, root) && done <= mem.Keys
    requires pending != [] && Linked(done, pending, handed) && |data| >= size + |pending|
    requires var it := FirstItem(data[size..]);
      || (it.Item? ==> it.used + ChildCount(it.tag) - 1 > |data| - size - |pending|)
      || (it.Item? && !paged && ChildCount(it.tag) > left)
    ensures Decode(data, 1).Decoded? ==> !paged && NodeCount(Decode(data, 1).values[0]) > |handed| + left
  {
    hide Decode, FirstItem, Completes, NodeCount;
    var it := FirstItem(data[size..]);
    if it.Item? ==> it.used + ChildCount(it.tag) - 1 > |data| - size - |pending| {
      StarvedIsIncomplete(mem, before, data, size, done, pending, root, |data| - size - |pending|);
    } else {
      CompletesMore(mem, before, data, size, done, pending, root);
      CrowdedIsTooMany(mem, data, size, done, pending, root, left);
    }
  }

  /** One round of the parser, on data that may have grown since the round before: the nodes stay
      linked and the promise is kept. */
  lemma ParserStep(mem: Memory, before: bytes, data: bytes, size: nat, done: set<nat>, pending: seq<nat>, handed: set<nat>,
                   root: nat, node: Node, it: Item, kids: nat)
    requires size <= |before| && before <= data && Completes(mem, before, size, done, pending, root)
    requires Linked(done, pending, handed) && pending != [] && it.Item? && Slots(Block(kids, ChildCount(it.tag))) !! handed
    requires FirstItem(data[size..]) == it && Matches(node, it.tag, size + it.used - |it.payload|, kids)
    ensures var a, k := pending[0], ChildCount(it.tag); var after := Range(kids, k) + pending[1..];
      && Completes(mem[a := node], data, size + it.used, done + {a}, after, root)
      && Linked(done + {a}, after, handed + Slots(Block(kids, k)))
      && |done + {a}| == |done| + 1
  {
    hide Decode, FirstItem, Matches, Completes, Linked;
    LinkedStep(done, pending, handed, kids, ChildCount(it.tag));
    CompletesMore(mem, before, data, size, done, pending, root);
    StepCompletes(mem, data, size, done, pending, root, node, it, kids);
  }
}
