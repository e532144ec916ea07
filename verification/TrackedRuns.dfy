/** What the track stack is for: an error-free tracked run that ends with nothing open has emitted a
    concatenation of complete MessagePack values. */
module TrackedRuns {
  import opened Bytes
  import opened Tags
  import opened Values
  import opened Track

  /** The calls a client makes on a tracking writer. `Whole` is a call that emits a header together
      with its payload and counts one element: the scalar writers, mpack_write_str, mpack_write_bin,
      mpack_write_ext and mpack_write_timestamp. */
  datatype Call =
    | Whole(tag: Tag, payload: bytes)
    | Start(tag: Tag)
    | Data(data: bytes)
    | Finish(kind: Kind)

  predicate IsCompound(t: Tag) { t.Str? || t.Bin? || t.Ext? || t.Array? || t.Map? }

  predicate Legal(c: Call) {
    match c
    case Whole(t, p) => t != Missing && !t.Array? && !t.Map? && |p| == PayloadSize(t)
    case Start(t) => IsCompound(t)
    case _ => true
  }

  function KindOf(t: Tag): Kind
    requires IsCompound(t)
  {
    if t.Str? then StrKind else if t.Bin? then BinKind else if t.Ext? then ExtKind
    else if t.Array? then ArrayKind else MapKind
  }

  /** The count that comes with an open element, in pairs for a map. */
  function CountOf(t: Tag): nat
    requires IsCompound(t)
  {
    if t.Array? || t.Map? then t.n else t.l
  }

  function OpenElement(st: Stack, t: Tag): Tracked
    requires IsCompound(t)
  {
    if Element(st).Misuse? then Misuse else Tracked(Push(Element(st).stack, KindOf(t), CountOf(t)))
  }

  /** The effect of a call on the track stack. */
  function TrackCall(st: Stack, c: Call): Tracked
    requires Legal(c)
  {
    match c
    case Whole(_, _) => Element(st)
    case Start(t) => OpenElement(st, t)
    case Data(d) => TakeBytes(st, |d|)
    case Finish(k) => Pop(st, k)
  }

  /** The bytes a call emits. */
  function Emit(c: Call): bytes {
    match c
    case Whole(t, p) => EncodeTag(t) + p
    case Start(t) => EncodeTag(t)
    case Data(d) => d
    case Finish(_) => []
  }

  predicate AllLegal(calls: seq<Call>) {
    calls == [] || (Legal(calls[0]) && AllLegal(calls[1..]))
  }

  function RunStack(st: Stack, calls: seq<Call>): Tracked
    requires AllLegal(calls)
    decreases calls
  {
    if calls == [] then Tracked(st)
    else
      var r := TrackCall(st, calls[0]);
      if r.Misuse? then Misuse else RunStack(r.stack, calls[1..])
  }

  function RunBytes(calls: seq<Call>): bytes {
    if calls == [] then [] else Emit(calls[0]) + RunBytes(calls[1..])
  }

  lemma RunUnfold(st: Stack, calls: seq<Call>)
    requires AllLegal(calls)
    ensures calls == [] ==> RunStack(st, calls) == Tracked(st) && RunBytes(calls) == []
    ensures calls != [] ==> Legal(calls[0]) && AllLegal(calls[1..])
    ensures calls != [] ==> var r := TrackCall(st, calls[0]);
      RunStack(st, calls) == if r.Misuse? then Misuse else RunStack(r.stack, calls[1..])
    ensures calls != [] ==> RunBytes(calls) == Emit(calls[0]) + RunBytes(calls[1..])
  {
    hide TrackCall, Emit, Legal;
  }

  // ---------------------------------------------------------------------------------------------

  /** `s` is a concatenation of `n` complete values. */
  predicate Complete(s: bytes, n: nat) {
    Decode(s, n).Decoded? && Decode(s, n).size == |s|
  }

  /** `t` supplies what the open elements lack, innermost first, and then `n` more values. */
  predicate Fulfils(st: Stack, t: bytes, n: nat)
    decreases |st|
  {
    if st == [] then Complete(t, n)
    else if HasChildren(Top(st).kind) then
      var d := Decode(t, Top(st).left);
      d.Decoded? && Fulfils(Below(st), t[d.size..], n)
    else |t| >= Top(st).left && Fulfils(Below(st), t[Top(st).left..], n)
  }

  /** How many values of the stream an element in this place counts as. */
  function Counted(st: Stack): nat {
    if st == [] then 1 else 0
  }

  /** The track step of a header: it opens an element or counts one. */
  function TagTrack(st: Stack, tag: Tag): Tracked {
    if IsCompound(tag) then OpenElement(st, tag) else Element(st)
  }

  lemma DecodeOneMore(s: bytes, m: nat)
    requires FirstItem(s).Item?
    ensures var it := FirstItem(s); var tail := s[it.used..];
      var kids, d := Decode(tail, ChildCount(it.tag)), Decode(s, m + 1);
      && (d.Decoded? <==> kids.Decoded? && Decode(tail[kids.size..], m).Decoded?)
      && (d.Decoded? ==> d.size == it.used + kids.size + Decode(tail[kids.size..], m).size)
  {
    hide Decode, FirstItem;
    DecodeUnfold(s, m + 1);
    var it := FirstItem(s);
    var kids := Decode(s[it.used..], ChildCount(it.tag));
    if kids.Decoded? { DropDrop(s, it.used, kids.size); }
  }

  /** A value with its children in place is one element of the innermost open container. */
  lemma ItemFulfils(st: Stack, s: bytes, n: nat)
    requires Element(st).Tracked? && FirstItem(s).Item?
    ensures var it := FirstItem(s); var tail := s[it.used..]; var kids := Decode(tail, ChildCount(it.tag));
      Fulfils(st, s, n) <==>
        n >= Counted(st) && kids.Decoded? && Fulfils(Element(st).stack, tail[kids.size..], n - Counted(st))
  {
    hide Decode, FirstItem;
    var it := FirstItem(s);
    var tail := s[it.used..];
    var kids := Decode(tail, ChildCount(it.tag));
    if st == [] {
      if n == 0 {
        NoValues(s);
      } else {
        DecodeOneMore(s, n - 1);
      }
    } else {
      var st' := Element(st).stack;
      assert Below(st') == Below(st);
      DecodeOneMore(s, Top(st').left);
      if kids.Decoded? && Decode(tail[kids.size..], Top(st').left).Decoded? {
        DropDrop(s, it.used, kids.size);
        DropDrop(s, it.used + kids.size, Decode(tail[kids.size..], Top(st').left).size);
      }
    }
  }

  /** A header, and what is behind it: the children and the payload are left to the element it opens. */
  lemma HeadFulfils(st: Stack, s: bytes, n: nat)
    requires ParseTag(s).Header? && Element(st).Tracked?
    ensures var h := ParseTag(s);
      Fulfils(st, s, n) <==>
        n >= Counted(st) && Fulfils(TagTrack(st, h.tag).stack, s[h.size..], n - Counted(st))
  {
    hide Decode, FirstItem, ParseTag, Fulfils, Element;
    FirstItemOfHeader(s);
    var h := ParseTag(s);
    var tail := s[h.size..];
    var p := PayloadSize(h.tag);
    if IsCompound(h.tag) && n >= Counted(st) {
      FulfilsOpened(Element(st).stack, Top(OpenElement(st, h.tag).stack), tail, n - Counted(st));
    }
    if |tail| >= p {
      ItemFulfils(st, s, n);
      DropDrop(s, h.size, p);
      NoValues(tail[p..]);
      NoValues(tail);
    } else {
      CutOff(st, s, n);
    }
  }

  /** A header whose payload is not all there fulfils nothing. */
  lemma CutOff(st: Stack, s: bytes, n: nat)
    requires Element(st).Tracked? && s != [] && FirstItem(s).NoItem?
    ensures !Fulfils(st, s, n)
  {
    hide Decode, FirstItem;
    NoValues(s);
    DecodeUnfold(s, if st == [] then n else Top(st).left);
  }

  lemma EncodedTagSize(t: Tag)
    requires t != Missing
    ensures 1 <= |EncodeTag(t)| <= 9
  {
  }

  lemma NoValues(t: bytes)
    ensures Decode(t, 0) == Decoded([], 0) && t[0..] == t
  {
    hide FirstItem;
    DecodeUnfold(t, 0);
  }

  lemma FulfilsOpened(st: Stack, o: Open, t: bytes, n: nat)
    ensures Fulfils(st + [o], t, n) <==>
      if HasChildren(o.kind) then Decode(t, o.left).Decoded? && Fulfils(st, t[Decode(t, o.left).size..], n)
      else |t| >= o.left && Fulfils(st, t[o.left..], n)
  {
    hide Decode;
    BelowPush(st, o);
  }

  lemma WholeFulfils(st: Stack, tag: Tag, payload: bytes, t: bytes, n: nat)
    requires Legal(Whole(tag, payload)) && Element(st).Tracked?
    ensures Fulfils(st, EncodeTag(tag) + payload + t, n) <==>
      n >= Counted(st) && Fulfils(Element(st).stack, t, n - Counted(st))
  {
    hide Decode, EncodeTag, FirstItem, Fulfils, Element;
    NoValues(t);
    FirstItemOfEncoding(tag, payload, t);
    ItemFulfils(st, EncodeTag(tag) + payload + t, n);
    DropOfConcat(EncodeTag(tag) + payload, t);
  }

  lemma StartFulfils(st: Stack, tag: Tag, t: bytes, n: nat)
    requires IsCompound(tag) && OpenElement(st, tag).Tracked?
    ensures Fulfils(st, EncodeTag(tag) + t, n) <==>
      n >= Counted(st) && Fulfils(OpenElement(st, tag).stack, t, n - Counted(st))
  {
    hide EncodeTag, ParseTag, Fulfils, Element;
    TagRoundTrip(tag, t);
    HeadFulfils(st, EncodeTag(tag) + t, n);
    DropOfConcat(EncodeTag(tag), t);
  }

  /** Bytes of the payload of the innermost element. */
  lemma BytesFulfil(st: Stack, d: bytes, t: bytes, n: nat)
    requires TakeBytes(st, |d|).Tracked?
    ensures Fulfils(st, d + t, n) <==> Fulfils(TakeBytes(st, |d|).stack, t, n)
  {
    hide Decode;
    var after := TakeBytes(st, |d|).stack;
    assert Below(after) == Below(st);
    assert |t| >= Top(after).left ==> (d + t)[Top(st).left..] == t[Top(after).left..];
  }

  /** An element that lacks nothing can be closed. */
  lemma PopFulfils(st: Stack, kind: Kind, t: bytes, n: nat)
    requires Pop(st, kind).Tracked?
    ensures Fulfils(st, t, n) <==> Fulfils(Pop(st, kind).stack, t, n)
  {
    hide Decode;
    NoValues(t);
  }

  /** The values of the stream a call completes or begins. */
  function CallCount(st: Stack, c: Call): nat {
    if c.Whole? || c.Start? then Counted(st) else 0
  }

  function RunCount(st: Stack, calls: seq<Call>): nat
    requires AllLegal(calls) && RunStack(st, calls).Tracked?
    decreases calls
  {
    if calls == [] then 0 else CallCount(st, calls[0]) + RunCount(TrackCall(st, calls[0]).stack, calls[1..])
  }

  /** Bytes behind those of a call fulfil the stack after the call exactly when all of them together
      fulfil the stack before it. */
  lemma CallFulfils(st: Stack, c: Call, t: bytes, n: nat)
    requires Legal(c) && TrackCall(st, c).Tracked?
    ensures Fulfils(st, Emit(c) + t, n) <==>
      n >= CallCount(st, c) && Fulfils(TrackCall(st, c).stack, t, n - CallCount(st, c))
  {
    hide EncodeTag, Fulfils, Element, Pop, TakeBytes;
    match c
    case Whole(tag, payload) => WholeFulfils(st, tag, payload, t, n);
    case Start(tag) => StartFulfils(st, tag, t, n);
    case Data(d) => BytesFulfil(st, d, t, n);
    case Finish(k) =>
      PopFulfils(st, k, t, n);
      assert [] + t == t;
  }

  lemma {:induction false} RunFulfils(st: Stack, calls: seq<Call>, t: bytes, n: nat)
    requires AllLegal(calls) && RunStack(st, calls).Tracked?
    ensures Fulfils(st, RunBytes(calls) + t, n) <==>
      n >= RunCount(st, calls) && Fulfils(RunStack(st, calls).stack, t, n - RunCount(st, calls))
    decreases calls
  {
    hide TrackCall, Emit, Fulfils, Legal, AllLegal, RunStack, RunBytes, CallCount;
    RunUnfold(st, calls);
    if calls == [] {
      assert [] + t == t;
    } else {
      var c := CallCount(st, calls[0]);
      assert Emit(calls[0]) + (RunBytes(calls[1..]) + t) == RunBytes(calls) + t;
      CallFulfils(st, calls[0], RunBytes(calls[1..]) + t, n);
      if n >= c {
        RunFulfils(TrackCall(st, calls[0]).stack, calls[1..], t, n - c);
      }
    }
  }

  /** No open element lacks anything: what is missing is the calls that close. */
  predicate NothingLacking(st: Stack) {
    forall o | o in st :: o.left == 0
  }

  lemma {:induction false} NoBytesFulfil(st: Stack, n: nat)
    ensures Fulfils(st, [], n) <==> n == 0 && NothingLacking(st)
    decreases |st|
  {
    hide Decode, FirstItem;
    NoValues([]);
    if st == [] {
      DecodeUnfold([], n);
    } else {
      NoBytesFulfil(Below(st), n);
      DecodeUnfold([], Top(st).left);
      assert st == Below(st) + [Top(st)];
    }
  }

  /** A tracked run without a misuse has emitted complete values and nothing else exactly when no
      open element lacks anything, so in particular when the track stack is empty. */
  lemma TrackingIsExact(calls: seq<Call>)
    requires AllLegal(calls) && RunStack([], calls).Tracked?
    ensures (exists n :: Complete(RunBytes(calls), n)) <==> NothingLacking(RunStack([], calls).stack)
    ensures NothingLacking(RunStack([], calls).stack) ==> Complete(RunBytes(calls), RunCount([], calls))
  {
    hide RunStack, RunBytes, RunCount, Complete;
    var count := RunCount([], calls);
    assert RunBytes(calls) + [] == RunBytes(calls);
    forall n ensures Complete(RunBytes(calls), n) <==> n == count && NothingLacking(RunStack([], calls).stack) {
      RunFulfils([], calls, [], n);
      assert Fulfils([], RunBytes(calls), n) <==> Complete(RunBytes(calls), n);
      if n >= count {
        NoBytesFulfil(RunStack([], calls).stack, n - count);
      }
    }
    assert NothingLacking(RunStack([], calls).stack) ==> Complete(RunBytes(calls), count);
  }

  /** A run that leaves an array without its element: the tracker has no objection, and what has been
      emitted is no concatenation of values. */
  lemma OpenArrayIsIncomplete(n: nat)
    ensures var calls := [Start(Array(1))];
      AllLegal(calls) && RunStack([], calls).Tracked? && RunBytes(calls) == [0x91] && !Complete([0x91], n)
  {
    var calls := [Start(Array(1))];
    assert calls[1..] == [];
    var top := Open(ArrayKind, 1);
    assert RunStack([], calls) == Tracked([top]);
    assert top in [top];
    TrackingIsExact(calls);
  }

  // ---------------------------------------------------------------------------------------------
  // Containers seen from the track stack

  lemma ElementOfOpen(b: Stack, kind: Kind, left: nat)
    requires HasChildren(kind) && left > 0
    ensures Element(b + [Open(kind, left)]) == Tracked(b + [Open(kind, left - 1)])
  {
    BelowPush(b, Open(kind, left));
  }

  lemma PopOpen(b: Stack, kind: Kind)
    ensures Pop(b + [Open(kind, 0)], kind) == Tracked(b)
  {
    BelowPush(b, Open(kind, 0));
  }

  /** Inside a container opened on `st` that still lacks `left` elements. */
  function Inside(st: Stack, kind: Kind, left: nat): Tracked {
    if Element(st).Misuse? then Misuse else Tracked(Element(st).stack + [Open(kind, left)])
  }

  function OneMore(t: Tracked): Tracked {
    if t.Misuse? then Misuse else Element(t.stack)
  }

  function Closed(t: Tracked, kind: Kind): Tracked {
    if t.Misuse? then Misuse else Pop(t.stack, kind)
  }

  /** A container is opened, counts its elements down, and closes as one element of its parent. */
  lemma ContainerTrack(st: Stack, tag: Tag, left: nat)
    requires tag.Array? || tag.Map?
    ensures OpenElement(st, tag) == Inside(st, KindOf(tag), ChildCount(tag))
    ensures left > 0 ==> OneMore(Inside(st, KindOf(tag), left)) == Inside(st, KindOf(tag), left - 1)
    ensures Closed(Inside(st, KindOf(tag), 0), KindOf(tag)) == Element(st)
  {
    hide Element, Pop;
    if Element(st).Tracked? {
      PopOpen(Element(st).stack, KindOf(tag));
      if left > 0 {
        ElementOfOpen(Element(st).stack, KindOf(tag), left);
      }
    }
  }

  /** Opening a blob, filling it and closing it counts one element. */
  lemma BlobTrack(st: Stack, t: Tag)
    requires t.Str? || t.Bin? || t.Ext?
    ensures OpenElement(st, t).Misuse? <==> Element(st).Misuse?
    ensures OpenElement(st, t).Tracked? ==>
      var full := TakeBytes(OpenElement(st, t).stack, t.l);
      full.Tracked? && Pop(full.stack, KindOf(t)) == Element(st)
  {
    hide Element;
    if Element(st).Tracked? {
      var e := Element(st).stack;
      BelowPush(e, Open(KindOf(t), t.l));
      BelowPush(e, Open(KindOf(t), 0));
    }
  }

  // ---------------------------------------------------------------------------------------------
  // Every value can be written

  /** The calls that write a value. */
  function Calls(v: Value): seq<Call> {
    if v.tag.Array? || v.tag.Map? then [Start(v.tag)] + AllCalls(v.children) + [Finish(KindOf(v.tag))]
    else [Whole(v.tag, v.payload)]
  }

  function AllCalls(vs: seq<Value>): seq<Call> {
    if vs == [] then [] else Calls(vs[0]) + AllCalls(vs[1..])
  }

  lemma {:induction false} RunAppend(st: Stack, a: seq<Call>, b: seq<Call>)
    requires AllLegal(a) && AllLegal(b)
    ensures AllLegal(a + b) && RunBytes(a + b) == RunBytes(a) + RunBytes(b)
    ensures RunStack(st, a).Tracked? ==> RunStack(st, a + b) == RunStack(RunStack(st, a).stack, b)
    decreases a
  {
    hide TrackCall, Emit, Legal;
    if a == [] {
      assert a + b == b;
    } else {
      var r := TrackCall(st, a[0]);
      RunAppend(if r.Tracked? then r.stack else st, a[1..], b);
      assert (a + b)[0] == a[0] && (a + b)[1..] == a[1..] + b;
    }
  }

  lemma NoCalls(st: Stack)
    ensures AllLegal([]) && RunStack(st, []) == Tracked(st) && RunBytes([]) == []
  {
  }

  lemma OneCall(st: Stack, c: Call)
    requires Legal(c)
    ensures AllLegal([c]) && RunStack(st, [c]) == TrackCall(st, c) && RunBytes([c]) == Emit(c)
  {
    hide TrackCall, Emit, Legal;
    assert [c][1..] == [];
  }

  /** For every value there is a run that the tracker accepts, that writes the encoding of the value,
      and that counts as one element wherever an element may stand. */
  lemma {:induction false} TrackingIsComplete(st: Stack, v: Value)
    requires WellFormed(v) && Element(st).Tracked?
    ensures AllLegal(Calls(v)) && RunStack(st, Calls(v)) == Element(st) && RunBytes(Calls(v)) == Encode(v)
    decreases v, 0
  {
    hide EncodeTag, Element, Pop, RunStack, RunBytes, AllLegal;
    if v.tag.Array? || v.tag.Map? {
      var start, end := [Start(v.tag)], [Finish(KindOf(v.tag))];
      OneCall(st, start[0]);
      OneCall(Element(st).stack + [Open(KindOf(v.tag), 0)], end[0]);
      var kids := AllCalls(v.children);
      var b, kind := Element(st).stack, KindOf(v.tag);
      ContainerTrack(st, v.tag, 0);
      ElementsRun(b, kind, v.children, 0);
      RunAppend(st, start, kids);
      RunAppend(st, start + kids, end);
      assert v.payload == [];
    } else {
      OneCall(st, Whole(v.tag, v.payload));
      assert v.children == [];
    }
  }

  lemma {:induction false} ElementsRun(b: Stack, kind: Kind, vs: seq<Value>, more: nat)
    requires AllWellFormed(vs) && HasChildren(kind)
    ensures AllLegal(AllCalls(vs)) && RunBytes(AllCalls(vs)) == EncodeAll(vs)
    ensures RunStack(b + [Open(kind, |vs| + more)], AllCalls(vs)) == Tracked(b + [Open(kind, more)])
    decreases vs, 1
  {
    hide Encode, Calls, Element, RunStack, RunBytes, AllLegal;
    if vs == [] {
      NoCalls(b + [Open(kind, more)]);
    } else {
      var st := b + [Open(kind, |vs| + more)];
      ElementOfOpen(b, kind, |vs| + more);
      BelowPush(b, Open(kind, |vs| + more));
      TrackingIsComplete(st, vs[0]);
      ElementsRun(b, kind, vs[1..], more);
      RunAppend(st, Calls(vs[0]), AllCalls(vs[1..]));
    }
  }
}
