/** Reading a parsed tree: map lookups and timestamps. */
module Lookups {
  import opened Bytes
  import opened Errors
  import opened Memory
  import opened Tags
  import opened Values
  import opened Nodes
  import opened Timestamps
  import opened Trees

  datatype Key = IntKey(i: i64) | UintKey(u: u64) | StrKey(s: bytes)

  /** A pointer to a node, or NULL. */
  datatype Pointer = Null | To(address: nat)

  /** What the keys of a lookup mean: numbers are compared as numbers, whichever integer type holds
      them. */
  predicate Holds(v: Value, key: Key) {
    match key
    case IntKey(n) => (v.tag.Int? || v.tag.Uint?) && IntegerOf(v.tag) == n
    case UintKey(n) => (v.tag.Int? || v.tag.Uint?) && IntegerOf(v.tag) == n
    case StrKey(s) => v.tag.Str? && v.payload == s
  }

  /** Entry `i` of the map has the key. */
  predicate Hit(v: Value, key: Key, i: nat)
    requires v.tag.Map? && |v.children| == ChildCount(v.tag)
  {
    i < v.tag.n && Holds(v.children[2 * i], key)
  }

  /** The test on one key node. */
  method KeyMatches(t: Tree, a: nat, key: Key, ghost v: Value) returns (yes: bool)
    requires Denotes(t.mem, t.data, a, v)
    ensures yes <==> Holds(v, key)
  {
    var node := t.mem[a];
    match key
    case IntKey(n) =>
      yes := node.Scalar? && ((node.tag.Int? && node.tag.i == n) || (node.tag.Uint? && n >= 0 && node.tag.u == n));
    case UintKey(n) =>
      yes := node.Scalar? && ((node.tag.Uint? && node.tag.u == n) || (node.tag.Int? && node.tag.i >= 0 && node.tag.i == n));
    case StrKey(s) =>
      if node.Blob? && node.kind == StrNode && node.len == |s| {
        var data := t.data[node.offset..node.offset + node.len];
        var c := Memcmp(s, data, |s|);
        assert s[..|s|] == s && data[..|s|] == data;
        CompareEqual(s, data);
        return c == 0;
      }
      yes := false;
  }

  /** mpack_node_map_int_impl, mpack_node_map_uint_impl and mpack_node_map_str_impl, on the node at `a`
      that stands for `v`: the value of the only matching entry; NULL when there is none; NULL and
      an error when there are two. */
  method MapLookup(t: Tree, a: nat, key: Key, ghost v: Value) returns (found: Pointer)
    requires t.error == NoError ==> Denotes(t.mem, t.data, a, v)
    modifies t`error
    ensures old(t.error) != NoError ==> found == Null && t.error == old(t.error)
    ensures old(t.error) == NoError && !v.tag.Map? ==> found == Null && t.error == Type
    ensures old(t.error) == NoError && v.tag.Map? ==>
      && |v.children| == ChildCount(v.tag)
      && (found.To? ==> t.error == NoError && exists i :: OnlyHit(t, v, key, i, found.address))
      && (found.Null? && t.error == NoError <==> forall i | 0 <= i < v.tag.n :: !Hit(v, key, i))
      && (t.error == Data <==> exists i, j :: i < j && Hit(v, key, i) && Hit(v, key, j))
      && (t.error == NoError || (t.error == Data && found == Null))
  {
    found := Null;
    if t.error != NoError { return; }
    var node := t.mem[a];
    if !(node.Compound? && node.isMap) {
      t.FlagError(Type);
      return;
    }
    ghost var hit: nat := 0;
    var i := 0;
    while i < node.len
      invariant 0 <= i <= node.len && t.error == NoError
      invariant found.Null? ==> forall k | 0 <= k < i :: !Hit(v, key, k)
      invariant found.To? ==> hit < i && Hit(v, key, hit) && found.address == node.children + 2 * hit + 1
      invariant found.To? ==> forall k | 0 <= k < i && k != hit :: !Hit(v, key, k)
    {
      assert Denotes(t.mem, t.data, node.children + 2 * i, v.children[2 * i]);
      var yes := KeyMatches(t, node.children + 2 * i, key, v.children[2 * i]);
      if yes {
        assert Hit(v, key, i);
        if found.To? {
          t.FlagError(Data);
          return Null;
        }
        hit := i;
        found := To(node.children + 2 * i + 1);
      }
      i := i + 1;
    }
    if found.To? {
      assert OnlyHit(t, v, key, hit, found.address);
    }
  }

  /** Entry `i` is the only one with the key, and the node at `at` stands for its value. */
  ghost predicate OnlyHit(t: Tree, v: Value, key: Key, i: nat, at: nat)
    reads t
    requires v.tag.Map? && |v.children| == ChildCount(v.tag)
  {
    && Hit(v, key, i) && (forall j | 0 <= j < v.tag.n && j != i :: !Hit(v, key, j))
    && Denotes(t.mem, t.data, at, v.children[2 * i + 1])
  }

  /** The switch on the length of the payload. */
  method PayloadFields(p: bytes) returns (known: bool, seconds: i64, nanoseconds: u32)
    ensures TimestampOf(p) == if known then Checked(seconds, nanoseconds) else BadTimestamp
    ensures !known ==> seconds == 0 && nanoseconds == 0
  {
    known, seconds, nanoseconds := true, 0, 0;
    match |p|
    case 4 =>
      nanoseconds := 0;
      seconds := LoadU32(p);
    case 8 =>
      var value := LoadU64(p);
      nanoseconds := value / 0x4_0000_0000;
      seconds := value % 0x4_0000_0000;
    case 12 =>
      nanoseconds := LoadU32(p);
      seconds := I64OfU64(LoadU64(p[4..]));
    case _ => known := false;
  }

  /** mpack_node_timestamp */
  method NodeTimestamp(t: Tree, a: nat, ghost v: Value) returns (seconds: i64, nanoseconds: u32)
    requires t.error == NoError ==> Denotes(t.mem, t.data, a, v)
    modifies t`error
    ensures old(t.error) != NoError ==> t.error == old(t.error)
    ensures t.error != NoError ==> seconds == 0 && nanoseconds == 0
    ensures old(t.error) == NoError && v.tag.Ext? && v.tag.exttype == -1 ==>
      && (t.error == NoError <==> TimestampOf(v.payload).Timestamp?)
      && (t.error == NoError ==> TimestampOf(v.payload) == Timestamp(seconds, nanoseconds))
      && (t.error != NoError ==> t.error == Invalid)
    ensures old(t.error) == NoError && !(v.tag.Ext? && v.tag.exttype == -1) ==> t.error == Type
  {
    seconds, nanoseconds := 0, 0;
    if t.error != NoError { return; }
    var node := t.mem[a];
    if !(node.Blob? && node.kind == ExtNode && I8OfU8(t.data[node.offset - 1]) == EXTTYPE_TIMESTAMP) {
      t.FlagError(Type);
      return;
    }
    var p := t.data[node.offset..node.offset + node.len];
    var known;
    known, seconds, nanoseconds := PayloadFields(p);
    if !known {
      t.FlagError(Invalid);
      return;
    }
    if nanoseconds > NANOSECONDS_MAX {
      t.FlagError(Invalid);
      seconds, nanoseconds := 0, 0;
    }
  }
}
