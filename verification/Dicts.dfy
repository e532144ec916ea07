/** What a loaded dict holds, told by the pairs of the map alone. */
module Dicts {
  import opened Bytes
  import opened Tags
  import opened Objects
  import opened Loads

  datatype Pair = Pair(key: Obj, value: Obj)

  /** The pairs that the loop over a map loads. */
  function PairsLoaded(rt: Runtime, left: Left, n: nat): seq<Pair>
    decreases n
  {
    if n == 0 then []
    else
      var key := LoadOne(rt, left);
      if key.Failed? then []
      else
        var value := LoadOne(rt, key.left);
        if value.Failed? then [] else [Pair(key.obj, value.obj)] + PairsLoaded(rt, value.left, n - 1)
  }

  /** Pair `i` has a key of its own: no such pair before it has an equal key. */
  predicate IsNew(rt: Runtime, pairs: seq<Pair>, i: nat)
    requires i < |pairs|
    decreases i
  {
    forall j | 0 <= j < i :: IsNew(rt, pairs, j) ==> !rt.equal(pairs[j].key, pairs[i].key)
  }

  /** Pair `i` is stored under the key of the new pair `h`: it is that pair itself, or its key is equal to the
      key of `h` and to that of no new pair before. */
  predicate StoredAt(rt: Runtime, pairs: seq<Pair>, h: nat, i: nat)
    requires i < |pairs|
  {
    && h <= i && IsNew(rt, pairs, h)
    && (h < i ==>
          && rt.equal(pairs[h].key, pairs[i].key)
          && forall g | 0 <= g < h :: IsNew(rt, pairs, g) ==> !rt.equal(pairs[g].key, pairs[i].key))
  }

  /** The last of the first `n` pairs that is stored under the key of `h`. */
  function LastStored(rt: Runtime, pairs: seq<Pair>, h: nat, n: nat): (m: nat)
    requires h < n <= |pairs| && IsNew(rt, pairs, h)
    ensures h <= m < n && StoredAt(rt, pairs, h, m)
    ensures forall i | m < i < n :: !StoredAt(rt, pairs, h, i)
  {
    if StoredAt(rt, pairs, h, n - 1) then n - 1 else LastStored(rt, pairs, h, n - 1)
  }

  /** How many of the first `n` pairs have a key of their own. */
  function NewBefore(rt: Runtime, pairs: seq<Pair>, n: nat): (k: nat)
    requires n <= |pairs|
    ensures k <= n
  {
    if n == 0 then 0 else NewBefore(rt, pairs, n - 1) + if IsNew(rt, pairs, n - 1) then 1 else 0
  }

  /** The entries of a dict made of the first `n` pairs: one for each new key, in the order and with the object
      of its first pair, and with the value of the last pair stored under it. */
  predicate IsDictOf(rt: Runtime, pairs: seq<Pair>, n: nat, entries: seq<Slot>)
    requires n <= |pairs|
  {
    && |entries| == NewBefore(rt, pairs, n)
    && forall h | 0 <= h < n && IsNew(rt, pairs, h) :: IsEntry(rt, pairs, n, entries, h)
  }

  predicate IsEntry(rt: Runtime, pairs: seq<Pair>, n: nat, entries: seq<Slot>, h: nat)
    requires h < n <= |pairs| && IsNew(rt, pairs, h)
  {
    var at := NewBefore(rt, pairs, h);
    at < |entries| && entries[at] == Filled(pairs[h].key, pairs[LastStored(rt, pairs, h, n)].value)
  }

  lemma {:induction false} NewBeforeGrows(rt: Runtime, pairs: seq<Pair>, h: nat, n: nat)
    requires h < n <= |pairs|
    ensures NewBefore(rt, pairs, h) + (if IsNew(rt, pairs, h) then 1 else 0) <= NewBefore(rt, pairs, n)
    decreases n
  {
    hide IsNew;
    if h < n - 1 { NewBeforeGrows(rt, pairs, h, n - 1); }
  }

  /** Every entry is that of a new pair. */
  lemma {:induction false} PairOfEntry(rt: Runtime, pairs: seq<Pair>, n: nat, at: nat) returns (h: nat)
    requires n <= |pairs| && at < NewBefore(rt, pairs, n)
    ensures h < n && IsNew(rt, pairs, h) && NewBefore(rt, pairs, h) == at
    decreases n
  {
    hide IsNew;
    if at < NewBefore(rt, pairs, n - 1) {
      h := PairOfEntry(rt, pairs, n - 1, at);
    } else {
      h := n - 1;
    }
  }

  /** The entry at `at` is the first whose key is equal to `key`. */
  predicate FirstMatch(rt: Runtime, entries: seq<Slot>, key: Obj, at: nat) {
    && at < |entries| && entries[at].Filled? && rt.equal(entries[at].key, key)
    && forall i | 0 <= i < at :: entries[i].Filled? ==> !rt.equal(entries[i].key, key)
  }

  predicate Unmatched(rt: Runtime, entries: seq<Slot>, key: Obj) {
    forall i | 0 <= i < |entries| :: entries[i].Filled? ==> !rt.equal(entries[i].key, key)
  }

  /** Storing puts a new key at the end, */
  lemma {:induction false} StoreAtEnd(rt: Runtime, entries: seq<Slot>, key: Obj, value: Obj)
    requires Unmatched(rt, entries, key)
    ensures Store(rt, entries, key, value) == entries + [Filled(key, value)]
  {
    if entries != [] {
      assert forall i | 0 <= i < |entries[1..]| :: entries[1..][i] == entries[i + 1];
      StoreAtEnd(rt, entries[1..], key, value);
      assert entries == [entries[0]] + entries[1..];
    }
  }

  /** and the value under the first equal key. */
  lemma {:induction false} StoreAtPlace(rt: Runtime, entries: seq<Slot>, key: Obj, value: Obj, at: nat)
    requires FirstMatch(rt, entries, key, at)
    ensures Store(rt, entries, key, value) == entries[at := Filled(entries[at].key, value)]
  {
    if at == 0 {
      assert entries[0 := Filled(entries[0].key, value)] == [Filled(entries[0].key, value)] + entries[1..];
    } else {
      assert forall i | 0 <= i < |entries[1..]| :: entries[1..][i] == entries[i + 1];
      StoreAtPlace(rt, entries[1..], key, value, at - 1);
      assert entries[at := Filled(entries[at].key, value)]
        == [entries[0]] + entries[1..][at - 1 := Filled(entries[at].key, value)];
    }
  }

  /** A pair with a new key. */
  lemma StoreNew(rt: Runtime, pairs: seq<Pair>, n: nat, entries: seq<Slot>)
    requires n < |pairs| && IsDictOf(rt, pairs, n, entries) && IsNew(rt, pairs, n)
    ensures IsDictOf(rt, pairs, n + 1, Store(rt, entries, pairs[n].key, pairs[n].value))
  {
    hide Store, IsNew, StoredAt;
    var key := pairs[n].key;
    forall i | 0 <= i < |entries| ensures entries[i].Filled? ==> !rt.equal(entries[i].key, key) {
      var h := PairOfEntry(rt, pairs, n, i);
      assert IsEntry(rt, pairs, n, entries, h);
      NewIsUnequal(rt, pairs, h, n);
    }
    StoreAtEnd(rt, entries, key, pairs[n].value);
    forall h | 0 <= h < n + 1 && IsNew(rt, pairs, h)
      ensures IsEntry(rt, pairs, n + 1, entries + [Filled(key, pairs[n].value)], h)
    {
      if h < n {
        assert IsEntry(rt, pairs, n, entries, h);
        NewIsUnequal(rt, pairs, h, n);
        OthersStay(rt, pairs, h, n);
      }
    }
  }

  lemma NewIsUnequal(rt: Runtime, pairs: seq<Pair>, h: nat, n: nat)
    requires h < n < |pairs| && IsNew(rt, pairs, h) && IsNew(rt, pairs, n)
    ensures !rt.equal(pairs[h].key, pairs[n].key)
  {
  }

  /** A pair that is not stored under the key of `h` leaves its entry alone. */
  lemma OthersStay(rt: Runtime, pairs: seq<Pair>, h: nat, n: nat)
    requires h < n < |pairs| && IsNew(rt, pairs, h)
    ensures !rt.equal(pairs[h].key, pairs[n].key) ==> LastStored(rt, pairs, h, n + 1) == LastStored(rt, pairs, h, n)
    ensures !StoredAt(rt, pairs, h, n) ==> LastStored(rt, pairs, h, n + 1) == LastStored(rt, pairs, h, n)
  {
  }

  /** A pair whose key has come before. */
  lemma StoreOld(rt: Runtime, pairs: seq<Pair>, n: nat, entries: seq<Slot>)
    requires n < |pairs| && IsDictOf(rt, pairs, n, entries) && !IsNew(rt, pairs, n)
    ensures IsDictOf(rt, pairs, n + 1, Store(rt, entries, pairs[n].key, pairs[n].value))
  {
    var h0 := FirstEqual(rt, pairs, n);
    hide Store, IsNew, StoredAt, IsDictOf, FirstMatch, NewBefore;
    PlaceIsFirst(rt, pairs, n, entries, h0);
    StoreUnder(rt, pairs, n, entries, h0);
  }

  lemma StoreUnder(rt: Runtime, pairs: seq<Pair>, n: nat, entries: seq<Slot>, h0: nat)
    requires n < |pairs| && IsDictOf(rt, pairs, n, entries) && !IsNew(rt, pairs, n)
    requires h0 < n && IsNew(rt, pairs, h0) && StoredAt(rt, pairs, h0, n)
    requires FirstMatch(rt, entries, pairs[n].key, NewBefore(rt, pairs, h0))
    ensures IsDictOf(rt, pairs, n + 1, Store(rt, entries, pairs[n].key, pairs[n].value))
  {
    var at := NewBefore(rt, pairs, h0);
    FirstIsPlace(rt, entries, pairs[n].key, at);
    StoreAtPlace(rt, entries, pairs[n].key, pairs[n].value, at);
    hide Store, IsNew, StoredAt, IsEntry, LastStored, FirstMatch;
    forall h | 0 <= h < n + 1 && IsNew(rt, pairs, h)
      ensures IsEntry(rt, pairs, n + 1, entries[at := Filled(entries[at].key, pairs[n].value)], h)
    {
      assert IsEntry(rt, pairs, n, entries, h) && IsEntry(rt, pairs, n, entries, h0);
      OneEntry(rt, pairs, n, entries, h0, h);
    }
  }

  lemma FirstIsPlace(rt: Runtime, entries: seq<Slot>, key: Obj, at: nat)
    requires FirstMatch(rt, entries, key, at)
    ensures at < |entries| && entries[at].Filled?
  {
  }

  lemma PlaceIsFirst(rt: Runtime, pairs: seq<Pair>, n: nat, entries: seq<Slot>, h0: nat)
    requires h0 < n < |pairs| && IsDictOf(rt, pairs, n, entries) && IsNew(rt, pairs, h0)
    requires rt.equal(pairs[h0].key, pairs[n].key)
    requires forall g | 0 <= g < h0 :: IsNew(rt, pairs, g) ==> !rt.equal(pairs[g].key, pairs[n].key)
    ensures FirstMatch(rt, entries, pairs[n].key, NewBefore(rt, pairs, h0))
  {
    hide IsNew, StoredAt, LastStored;
    assert IsEntry(rt, pairs, n, entries, h0);
    forall i | 0 <= i < NewBefore(rt, pairs, h0) ensures entries[i].Filled? ==> !rt.equal(entries[i].key, pairs[n].key) {
      var g := PairOfEntry(rt, pairs, h0, i);
      assert IsEntry(rt, pairs, n, entries, g);
    }
  }

  /** Of the entries, the one of `h0` gets the value, and the others stay. */
  lemma OneEntry(rt: Runtime, pairs: seq<Pair>, n: nat, entries: seq<Slot>, h0: nat, h: nat)
    requires h0 < n < |pairs| && IsNew(rt, pairs, h0) && StoredAt(rt, pairs, h0, n) && !IsNew(rt, pairs, n)
    requires IsEntry(rt, pairs, n, entries, h0) && h < n && IsNew(rt, pairs, h) && IsEntry(rt, pairs, n, entries, h)
    ensures var at := NewBefore(rt, pairs, h0);
      IsEntry(rt, pairs, n + 1, entries[at := Filled(entries[at].key, pairs[n].value)], h)
  {
    if h != h0 {
      OneHolder(rt, pairs, h, h0, n);
      OthersStay(rt, pairs, h, n);
      if h < h0 { NewBeforeGrows(rt, pairs, h, h0); } else { NewBeforeGrows(rt, pairs, h0, h); }
    }
    hide IsNew, StoredAt;
  }

  /** A key that has come before is stored under one pair, */
  lemma FirstEqual(rt: Runtime, pairs: seq<Pair>, n: nat) returns (h: nat)
    requires n < |pairs| && !IsNew(rt, pairs, n)
    ensures h < n && IsNew(rt, pairs, h) && rt.equal(pairs[h].key, pairs[n].key) && StoredAt(rt, pairs, h, n)
    ensures forall g | 0 <= g < h :: IsNew(rt, pairs, g) ==> !rt.equal(pairs[g].key, pairs[n].key)
  {
    h := 0;
    var some :| 0 <= some < n && IsNew(rt, pairs, some) && rt.equal(pairs[some].key, pairs[n].key);
    while !(IsNew(rt, pairs, h) && rt.equal(pairs[h].key, pairs[n].key))
      invariant 0 <= h <= some
      invariant forall g | 0 <= g < h :: IsNew(rt, pairs, g) ==> !rt.equal(pairs[g].key, pairs[n].key)
      decreases some - h
    {
      h := h + 1;
    }
  }

  /** and under no other. */
  lemma OneHolder(rt: Runtime, pairs: seq<Pair>, h: nat, h0: nat, n: nat)
    requires h < n < |pairs| && h != h0 && IsNew(rt, pairs, h) && StoredAt(rt, pairs, h0, n) && h0 < n
    ensures !StoredAt(rt, pairs, h, n)
  {
    hide IsNew;
  }

  // ---------------------------------------------------------------------------------------------

  function StoreAll(rt: Runtime, entries: seq<Slot>, pairs: seq<Pair>): seq<Slot>
    decreases pairs
  {
    if pairs == [] then entries else StoreAll(rt, Store(rt, entries, pairs[0].key, pairs[0].value), pairs[1..])
  }

  lemma {:induction false} StoreAllFrom(rt: Runtime, pairs: seq<Pair>, n: nat, entries: seq<Slot>)
    requires n <= |pairs| && IsDictOf(rt, pairs, n, entries)
    ensures IsDictOf(rt, pairs, |pairs|, StoreAll(rt, entries, pairs[n..]))
    decreases |pairs| - n
  {
    hide IsDictOf, IsNew, Store;
    if n < |pairs| {
      if IsNew(rt, pairs, n) { StoreNew(rt, pairs, n, entries); } else { StoreOld(rt, pairs, n, entries); }
      assert pairs[n..][1..] == pairs[n + 1..];
      StoreAllFrom(rt, pairs, n + 1, Store(rt, entries, pairs[n].key, pairs[n].value));
    }
  }

  lemma {:induction false} LoadPairsStores(rt: Runtime, left: Left, n: nat, entries: seq<Slot>, clean: bool)
    requires LoadPairs(rt, left, n, entries, clean).Step?
    ensures var r, pairs := LoadPairs(rt, left, n, entries, clean), PairsLoaded(rt, left, n);
      |pairs| == n && var table := StoreAll(rt, entries, pairs); r.obj == PyDict(|table|, table)
    decreases n
  {
    hide LoadOne, Store;
    if n > 0 {
      var key := LoadOne(rt, left);
      var value := LoadOne(rt, key.left);
      var more := Store(rt, entries, key.obj, value.obj);
      LoadPairsStores(rt, value.left, n - 1, more, clean && key.clean && value.clean);
      assert PairsLoaded(rt, left, n)[1..] == PairsLoaded(rt, value.left, n - 1);
    }
  }

  /** A map loads as the dict of its pairs: under every key the value of the last pair with an equal key, in the
      place and with the object of the first. */
  lemma LoadedDict(rt: Runtime, left: Left, n: nat)
    requires LoadPairs(rt, left, n, [], true).Step?
    ensures var o, pairs := LoadPairs(rt, left, n, [], true).obj, PairsLoaded(rt, left, n);
      |pairs| == n && o.PyDict? && o.used == |o.table| && IsDictOf(rt, pairs, n, o.table)
  {
    hide LoadPairs, PairsLoaded, StoreAll, IsNew;
    LoadPairsStores(rt, left, n, [], true);
    var pairs := PairsLoaded(rt, left, n);
    StoreAllFrom(rt, pairs, 0, []);
    assert pairs[0..] == pairs;
  }

  /** So a loader that comes to the header of a map. */
  lemma MapLoadsAsDict(rt: Runtime, s: bytes, n: u32, k: nat)
    requires ParseTag(s) == Header(Map(n), k) && LoadOne(rt, Left(s)).Step?
    ensures k <= |s|
    ensures var o, pairs := LoadOne(rt, Left(s)).obj, PairsLoaded(rt, Left(s[k..]), n);
      |pairs| == n && o.PyDict? && o.used == |o.table| && IsDictOf(rt, pairs, n, o.table)
  {
    hide ParseTag, LoadPairs, PairsLoaded, IsDictOf;
    LoadedDict(rt, Left(s[k..]), n);
  }

  /** Keys are compared by an equality, under which a key need not be equal to itself: a NaN is not. */
  ghost predicate IsEquality(rt: Runtime) {
    && (forall a, b :: rt.equal(a, b) ==> rt.equal(b, a))
    && (forall a, b, c :: rt.equal(a, b) && rt.equal(b, c) ==> rt.equal(a, c))
  }

  /** Then a key is new when no pair before has an equal key, and a pair is stored under the first pair with an
      equal key. */
  lemma {:induction false} NewByEquality(rt: Runtime, pairs: seq<Pair>, i: nat)
    requires IsEquality(rt) && i < |pairs|
    ensures IsNew(rt, pairs, i) <==> forall j | 0 <= j < i :: !rt.equal(pairs[j].key, pairs[i].key)
    decreases i
  {
    forall j | 0 <= j < i && rt.equal(pairs[j].key, pairs[i].key) ensures !IsNew(rt, pairs, i) {
      if !IsNew(rt, pairs, j) {
        var h := FirstEqual(rt, pairs, j);
        assert rt.equal(pairs[h].key, pairs[i].key);
      }
    }
  }

  lemma StoredByEquality(rt: Runtime, pairs: seq<Pair>, h: nat, i: nat)
    requires IsEquality(rt) && h < i < |pairs|
    ensures StoredAt(rt, pairs, h, i) <==> IsNew(rt, pairs, h) && rt.equal(pairs[h].key, pairs[i].key)
  {
    if IsNew(rt, pairs, h) && rt.equal(pairs[h].key, pairs[i].key) {
      assert rt.equal(pairs[i].key, pairs[h].key);
      forall g | 0 <= g < h && IsNew(rt, pairs, g) ensures !rt.equal(pairs[g].key, pairs[i].key) {
        NewIsUnequal(rt, pairs, g, h);
      }
    }
  }
}
