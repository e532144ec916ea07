/** mpack_discard: skips exactly one value, whatever it holds. */
module Discards {
  import opened Bytes
  import opened Errors
  import opened Tags
  import opened Values
  import opened Track
  import opened TrackedRuns
  import opened Readers

  /** The reader has gone past `n` values of what was left. */
  ghost predicate Passed(r: Reader, before: bytes, n: nat)
    reads r, r.mem
    requires r.Valid()
  {
    var d := Decode(before, n);
    d.Decoded? && r.Rest() == before[d.size..]
  }

  lemma PassedMore(r: Reader, before: bytes, m: nat, now: bytes, k: nat)
    requires r.Valid() && Decode(before, m).Decoded? && now == before[Decode(before, m).size..]
    ensures Passed(r, now, k) ==> Passed(r, before, m + k)
    ensures Decode(now, k).Decoded? <==> Decode(before, m + k).Decoded?
  {
    hide Decode;
    DecodeAppend(before, m, k);
  }

  /** The header of a value and its body. */
  lemma BodyOfValue(s: bytes)
    ensures var h := ParseTag(s);
      Decode(s, 1).Decoded? <==>
        h.Header? && |s| >= h.size + PayloadSize(h.tag)
        && Decode(s[h.size..][PayloadSize(h.tag)..], ChildCount(h.tag)).Decoded?
    ensures Decode(s, 1).Decoded? ==> var h := ParseTag(s); var p := PayloadSize(h.tag);
      s[Decode(s, 1).size..] == s[h.size..][p..][Decode(s[h.size..][p..], ChildCount(h.tag)).size..]
  {
    hide ParseTag, Decode, FirstItem;
    FirstItemOfHeader(s);
    DecodeOne(s);
    var it, h := FirstItem(s), ParseTag(s);
    if it.Item? {
      DropDrop(s, h.size, PayloadSize(h.tag));
      var kids := Decode(s[it.used..], ChildCount(it.tag));
      if kids.Decoded? {
        DropDrop(s, it.used, kids.size);
      }
    }
  }

  /** One round of the loop over the children of an array (`per` is 1) or a map (`per` is 2). */
  method DiscardRound(r: Reader, ghost bound: nat, per: nat, ghost b: Stack, kind: Kind, ghost left: nat)
    requires r.Valid() && r.error == NoError && |r.Rest()| <= bound && 1 <= per <= 2 && per <= left && HasChildren(kind)
    requires r.tracking ==> r.track == b + [Open(kind, left)]
    modifies r, r.mem
    ensures r.Kept() && (old(r.Settled()) ==> r.Settled())
    ensures r.error == NoError ==> Passed(r, old(r.Rest()), per)
    ensures r.error == NoError && r.tracking ==> r.track == b + [Open(kind, left - per)]
    ensures old(r.Dependable()) ==> r.Dependable() && (r.error == NoError <==> Decode(old(r.Rest()), per).Decoded?)
    decreases bound, 1
  {
    hide Decode, Element;
    ghost var before := r.Rest();
    ElementOfOpen(b, kind, left);
    Discard(r, bound);
    if per == 2 {
      ghost var now := r.Rest();
      if r.error == NoError {
        ElementOfOpen(b, kind, left - 1);
        Discard(r, bound);
        PassedMore(r, before, 1, now, 1);
      } else {
        Discard(r, bound);
        DecodeAppend(before, 1, 1);
      }
    }
  }

  /** The children of `n` array elements or of `n` map entries. */
  function Items(n: nat, per: nat): nat {
    if per == 1 then n else 2 * n
  }

  /** Where `m` values cannot be decoded, neither can more. */
  lemma MalformedMore(before: bytes, m: nat, n: nat)
    requires m <= n && Decode(before, m).Malformed?
    ensures Decode(before, n).Malformed?
  {
    DecodeAppend(before, m, n - m);
  }

  /** The loop has `left` of the children still to go after `m` of them. */
  ghost predicate Progress(r: Reader, before: bytes, m: nat, b: Stack, kind: Kind, left: nat, dependable: bool)
    reads r, r.mem
  {
    && r.Valid() && r.error == NoError && |r.Rest()| <= |before|
    && Passed(r, before, m)
    && (r.tracking ==> r.track == b + [Open(kind, left)])
    && (dependable ==> r.Dependable())
  }

  method DiscardStep(r: Reader, ghost bound: nat, per: nat, ghost before: bytes, ghost m: nat, ghost b: Stack, kind: Kind,
                     ghost left: nat, ghost dependable: bool)
    requires Progress(r, before, m, b, kind, left, dependable)
    requires |before| <= bound && 1 <= per <= 2 && per <= left && HasChildren(kind)
    modifies r, r.mem
    ensures r.Kept() && (old(r.Settled()) ==> r.Settled())
    ensures r.error == NoError ==> Progress(r, before, m + per, b, kind, left - per, dependable)
    ensures r.error != NoError && dependable ==> Decode(before, m + left).Malformed?
    decreases bound, 2
  {
    hide Decode;
    ghost var now := r.Rest();
    DiscardRound(r, bound, per, b, kind, left);
    PassedMore(r, before, m, now, per);
    if Decode(now, per).Malformed? {
      MalformedMore(before, m + per, m + left);
    }
  }

  method DiscardLoop(r: Reader, ghost bound: nat, n: nat, per: nat, kind: Kind, ghost b: Stack, ghost dependable: bool)
    requires r.Valid() && Progress(r, r.Rest(), 0, b, kind, Items(n, per), dependable)
    requires |r.Rest()| <= bound && 1 <= per <= 2 && HasChildren(kind)
    modifies r, r.mem
    ensures r.Kept() && (old(r.Settled()) ==> r.Settled())
    ensures r.error == NoError ==> Progress(r, old(r.Rest()), Items(n, per), b, kind, 0, dependable)
    ensures r.error != NoError && dependable ==> Decode(old(r.Rest()), Items(n, per)).Malformed?
    decreases bound, 3
  {
    hide Decode, Passed;
    ghost var before := r.Rest();
    ghost var m, left := 0, Items(n, per);
    var i := n;
    while i > 0
      invariant 0 <= i <= n && left == Items(i, per) && m == Items(n - i, per)
      invariant r.Kept() && (old(r.Settled()) ==> r.Settled())
      invariant Progress(r, before, m, b, kind, left, dependable)
    {
      DiscardStep(r, bound, per, before, m, b, kind, left, dependable);
      if r.error != NoError { return; }
      i, m, left := i - 1, m + per, left - per;
    }
  }

  /** The loop over the children, and the call that closes the container. */
  method DiscardChildren(r: Reader, ghost bound: nat, n: nat, per: nat, kind: Kind, ghost b: Stack)
    requires r.Valid() && r.error == NoError && |r.Rest()| <= bound && 1 <= per <= 2 && HasChildren(kind)
    requires r.tracking ==> r.track == b + [Open(kind, Items(n, per))]
    modifies r, r.mem
    ensures r.Kept() && (old(r.Settled()) ==> r.Settled())
    ensures r.error == NoError ==> Passed(r, old(r.Rest()), Items(n, per))
    ensures r.error == NoError && r.tracking ==> r.track == b
    ensures old(r.Dependable()) ==> r.Dependable() && (r.error == NoError <==> Decode(old(r.Rest()), Items(n, per)).Decoded?)
    decreases bound, 4
  {
    hide Decode, Pop, Items;
    NoValues(r.Rest());
    DiscardLoop(r, bound, n, per, kind, b, r.Dependable());
    PopOpen(b, kind);
    r.Done(kind);
  }

  /** The payload of a str, bin or ext. */
  method DiscardPayload(r: Reader, tag: Tag, ghost b: Stack)
    requires r.Valid() && r.error == NoError && (tag.Str? || tag.Bin? || tag.Ext?)
    requires r.tracking ==> r.track == b + [Open(KindOf(tag), tag.l)]
    modifies r, r.mem
    ensures r.Kept() && (old(r.Settled()) ==> r.Settled())
    ensures r.error == NoError ==> r.Advanced(tag.l)
    ensures r.error == NoError && r.tracking ==> r.track == b
    ensures old(r.Dependable()) ==> (r.error == NoError <==> tag.l <= |old(r.Rest())|)
  {
    hide Pop;
    BelowPush(b, Open(KindOf(tag), tag.l));
    PopOpen(b, KindOf(tag));
    r.SkipBytes(tag.l);
    r.Done(KindOf(tag));
  }

  /** One value. `bound` limits what is left to read, and with it the depth of the recursion. */
  method Discard(r: Reader, ghost bound: nat)
    requires r.Valid() && (r.error == NoError ==> |r.Rest()| <= bound)
    modifies r, r.mem
    ensures r.Kept() && (old(r.Settled()) ==> r.Settled())
    ensures r.error == NoError ==> Passed(r, old(r.Rest()), 1) && r.Follows(Element(old(r.track)), old(r.track))
    ensures old(r.Dependable()) ==> r.Dependable()
    ensures old(r.error) == NoError && old(r.Dependable()) ==>
      (r.error == NoError <==> Decode(old(r.Rest()), 1).Decoded? && r.Permits(Element(old(r.track))))
    decreases bound, 0
  {
    hide Decode, Element, ParseTag;
    BodyOfValue(r.Rest());
    var tag := r.ReadTag();
    if r.error != NoError { return; }
    ghost var body := r.Rest();
    if PayloadSize(tag) <= |body| {
      NoValues(body[PayloadSize(tag)..]);
    }
    assert body[0..] == body;
    assert r.tracking ==> Element(old(r.track)).Tracked?;
    ghost var b := if r.tracking then Element(old(r.track)).stack else [];
    if IsCompound(tag) {
      if tag.Array? {
        DiscardChildren(r, bound - 1, tag.n, 1, ArrayKind, b);
      } else if tag.Map? {
        DiscardChildren(r, bound - 1, tag.n, 2, MapKind, b);
      } else {
        DiscardPayload(r, tag, b);
      }
    }
  }
}
