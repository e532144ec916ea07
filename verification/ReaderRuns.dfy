/** What the buffered reader is for: however the bytes come in, the client sees the plain stream. And
    what the track stack of a reader is for: a run that it accepts has read whole values. */
module ReaderRuns {
  import opened Bytes
  import opened Errors
  import opened Tags
  import opened Values
  import opened Track
  import opened TrackedRuns
  import opened Readers
  import Reads

  /** A call of the client. `Close` is mpack_done_array and the other closing calls. */
  datatype Op = Copy(n: nat) | Inplace(n: nat) | Skip(n: nat) | Read | Peek | Close(kind: Kind)

  /** What the call gives it. */
  datatype Got = Block(b: bytes) | NullPointer | Nothing | Head(tag: Tag)

  /** A stream without a buffer: what the calls give, the bytes behind them, and the track stack. */
  datatype Seen = Seen(got: seq<Got>, rest: bytes, track: Stack) | Stopped

  /** `n` bytes are taken, if the tracker lets them. */
  function Taken(s: bytes, n: nat, got: Got, st: Stack, tracking: bool, t: Tracked): Seen {
    if n > |s| || (tracking && t.Misuse?) then Stopped
    else Seen([got], s[n..], if tracking then t.stack else st)
  }

  /** The track step of a call that reads from `s`. */
  function TrackOp(s: bytes, st: Stack, op: Op): Tracked {
    match op
    case Close(k) => Pop(st, k)
    case Read => TagTrack(st, if ParseTag(s).Header? then ParseTag(s).tag else Nil)
    case Peek => if Element(st).Tracked? then Tracked(st) else Misuse
    case _ => TakeBytes(st, op.n)
  }

  function PlainOne(s: bytes, st: Stack, tracking: bool, op: Op): Seen {
    var h, t := ParseTag(s), TrackOp(s, st, op);
    match op
    case Close(_) => Taken(s, 0, Nothing, st, tracking, t)
    case Read => if h.Header? then Taken(s, h.size, Head(h.tag), st, tracking, t) else Stopped
    case Peek => if h.Header? then Taken(s, 0, Head(h.tag), st, tracking, t) else Stopped
    case Skip(n) => Taken(s, n, Nothing, st, tracking, t)
    case _ => if op.n <= |s| then Taken(s, op.n, Block(s[..op.n]), st, tracking, t) else Stopped
  }

  function Plain(s: bytes, st: Stack, tracking: bool, ops: seq<Op>): Seen
    decreases ops
  {
    if ops == [] then Seen([], s, st)
    else
      var one := PlainOne(s, st, tracking, ops[0]);
      if one.Stopped? then Stopped
      else
        var more := Plain(one.rest, one.track, tracking, ops[1..]);
        if more.Stopped? then Stopped else Seen(one.got + more.got, more.rest, more.track)
  }

  /** What a call gives in an error state. */
  function Blank(op: Op): Got {
    match op
    case Copy(n) => Block(seq(n, _ => 0))
    case Inplace(_) => NullPointer
    case Skip(_) => Nothing
    case Read => Head(Nil)
    case Peek => Head(Nil)
    case Close(_) => Nothing
  }

  function Blanks(ops: seq<Op>): seq<Got> {
    if ops == [] then [] else [Blank(ops[0])] + Blanks(ops[1..])
  }

  /** Bytes that are to stay in the buffer have to fit into it. */
  predicate Fitting(op: Op, size: nat) {
    op.Inplace? ==> op.n <= size
  }

  method Perform(r: Reader, op: Op) returns (got: Got)
    requires r.Valid()
    modifies r, r.mem
    ensures r.Kept()
    ensures old(r.Settled()) ==> (r.Settled() <==>
      !(op.Skip? && old(r.error) == NoError && !r.Permits(TakeBytes(old(r.track), op.n)) && r.StepsBack(op.n, old(r.data))))
    ensures r.error == NoError ==>
      PlainOne(old(r.Rest()), old(r.track), r.tracking, op) == Seen([got], r.Rest(), r.track)
    ensures old(r.error) == NoError && old(r.Dependable()) && (r.hasFill ==> Fitting(op, r.size)) ==>
      (r.error == NoError <==> PlainOne(old(r.Rest()), old(r.track), r.tracking, op).Seen?)
    ensures old(r.error) != NoError && old(r.Settled()) ==> got == Blank(op)
  {
    hide ParseTag, TakeBytes, Element, Pop;
    match op
    case Copy(n) =>
      var p := new byte[n](_ => 0);
      r.ReadBytes(p, n);
      got := Block(p[..n]);
      assert old(r.error) != NoError && old(r.Settled()) ==> p[..n] == seq(n, _ => 0);
    case Inplace(n) =>
      var at := Reads.ReadBytesInplace(r, n);
      got := if r.error == NoError then Block(r.mem[at..at + n]) else NullPointer;
    case Skip(n) =>
      r.SkipBytes(n);
      got := Nothing;
    case Read =>
      var tag := r.ReadTag();
      got := Head(tag);
    case Peek =>
      var tag := r.PeekTag();
      got := Head(tag);
    case Close(kind) =>
      r.Done(kind);
      got := Nothing;
  }

  /** Any run of calls, with any fill function. Without an error the client has seen what the plain
      stream gives, and stands where it would stand there; with a fill function that keeps its
      promise there is an error only when the stream runs out or the tracker objects; and after an
      error nothing moves. */
  method Run(r: Reader, ops: seq<Op>) returns (got: seq<Got>)
    requires r.Valid()
    modifies r, r.mem
    ensures r.Kept()
    ensures old(r.Settled()) && (!r.tracking || old(r.error) != NoError || forall op | op in ops :: !op.Skip?) ==>
      r.Settled()
    ensures r.error == NoError ==>
      Plain(old(r.Rest()), old(r.track), r.tracking, ops) == Seen(got, r.Rest(), r.track)
    ensures old(r.error) == NoError && old(r.Dependable())
            && (r.hasFill ==> forall op | op in ops :: Fitting(op, r.size)) ==>
      (r.error == NoError <==> Plain(old(r.Rest()), old(r.track), r.tracking, ops).Seen?)
    ensures old(r.error) != NoError && old(r.Settled()) ==> got == Blanks(ops)
    decreases ops
  {
    hide PlainOne;
    if ops == [] { return []; }
    var first := Perform(r, ops[0]);
    var more := Run(r, ops[1..]);
    got := [first] + more;
  }

  // ---------------------------------------------------------------------------------------------
  // What tracking is for

  /** The bytes read when `rest` is left of `s`. */
  function Gone(s: bytes, rest: bytes): bytes
    requires |rest| <= |s|
  {
    s[..|s| - |rest|]
  }

  /** The values of the stream a call reads or begins to read. */
  function OpCount(st: Stack, op: Op): nat {
    if op.Read? then Counted(st) else 0
  }

  function ReadCount(s: bytes, st: Stack, ops: seq<Op>): nat
    requires Plain(s, st, true, ops).Seen?
    decreases ops
  {
    if ops == [] then 0
    else
      var one := PlainOne(s, st, true, ops[0]);
      OpCount(st, ops[0]) + ReadCount(one.rest, one.track, ops[1..])
  }

  /** A header is the same whatever follows it. */
  lemma HeaderAlone(s: bytes, u: bytes)
    requires ParseTag(s).Header?
    ensures ParseTag(s[..ParseTag(s).size] + u) == ParseTag(s)
  {
    hide ParseTag, TagOf, HeaderSize;
    ParseTagCases(s);
    var s' := s[..ParseTag(s).size] + u;
    ParseTagCases(s');
    assert s'[..ParseTag(s).size] == s[..ParseTag(s).size];
  }

  lemma ReadFulfils(st: Stack, s: bytes, u: bytes, n: nat)
    requires ParseTag(s).Header? && TagTrack(st, ParseTag(s).tag).Tracked?
    ensures var h := ParseTag(s);
      Fulfils(st, s[..h.size] + u, n) <==>
        n >= Counted(st) && Fulfils(TagTrack(st, h.tag).stack, u, n - Counted(st))
  {
    hide ParseTag, Fulfils, Element;
    HeaderAlone(s, u);
    HeadFulfils(st, s[..ParseTag(s).size] + u, n);
    DropOfConcat(s[..ParseTag(s).size], u);
  }

  /** Where one call leads: `k` bytes are read. */
  lemma OneGone(s: bytes, st: Stack, op: Op)
    requires PlainOne(s, st, true, op).Seen?
    ensures var one := PlainOne(s, st, true, op);
      && |one.rest| <= |s| && one.rest == s[|Gone(s, one.rest)|..]
      && TrackOp(s, st, op) == Tracked(one.track)
      && (op.Read? ==> ParseTag(s).Header? && Gone(s, one.rest) == s[..ParseTag(s).size])
      && (op.Peek? || op.Close? ==> Gone(s, one.rest) == [])
      && (op.Copy? || op.Inplace? || op.Skip? ==> |Gone(s, one.rest)| == op.n)
  {
    hide ParseTag, TrackOp;
  }

  /** Bytes behind those a call has read fulfil the stack after it exactly when all of them together
      fulfil the stack before it. */
  lemma OpFulfils(s: bytes, st: Stack, op: Op, u: bytes, n: nat)
    requires PlainOne(s, st, true, op).Seen?
    ensures var one := PlainOne(s, st, true, op);
      |one.rest| <= |s| &&
      (Fulfils(st, Gone(s, one.rest) + u, n) <==> n >= OpCount(st, op) && Fulfils(one.track, u, n - OpCount(st, op)))
  {
    hide ParseTag, Fulfils, Element, Pop, TakeBytes, PlainOne, Gone;
    OneGone(s, st, op);
    var gone := Gone(s, PlainOne(s, st, true, op).rest);
    assert [] + u == u;
    match op
    case Read => ReadFulfils(st, s, u, n);
    case Peek =>
    case Close(k) => PopFulfils(st, k, u, n);
    case _ => BytesFulfil(st, gone, u, n);
  }

  lemma {:induction false} ReadsFulfil(s: bytes, st: Stack, ops: seq<Op>, u: bytes, n: nat)
    requires Plain(s, st, true, ops).Seen?
    ensures var all := Plain(s, st, true, ops); var count := ReadCount(s, st, ops);
      |all.rest| <= |s| &&
      (Fulfils(st, Gone(s, all.rest) + u, n) <==> n >= count && Fulfils(all.track, u, n - count))
    decreases ops
  {
    hide PlainOne, Fulfils, OpCount;
    if ops == [] {
      assert Gone(s, s) + u == u;
    } else {
      var one := PlainOne(s, st, true, ops[0]);
      OneGone(s, st, ops[0]);
      ReadsFulfil(one.rest, one.track, ops[1..], u, 0);
      var all := Plain(s, st, true, ops);
      var c := OpCount(st, ops[0]);
      assert Gone(s, all.rest) == Gone(s, one.rest) + Gone(one.rest, all.rest);
      assert Gone(s, one.rest) + (Gone(one.rest, all.rest) + u) == Gone(s, all.rest) + u;
      OpFulfils(s, st, ops[0], Gone(one.rest, all.rest) + u, n);
      if n >= c { ReadsFulfil(one.rest, one.track, ops[1..], u, n - c); }
    }
  }

  /** A tracked run of reads that starts with nothing open and that the tracker accepts has read complete
      values and nothing else exactly when no open element lacks anything. */
  lemma ReadingIsExact(s: bytes, ops: seq<Op>)
    requires Plain(s, [], true, ops).Seen?
    ensures var all := Plain(s, [], true, ops);
      && |all.rest| <= |s|
      && ((exists n :: Complete(Gone(s, all.rest), n)) <==> NothingLacking(all.track))
      && (NothingLacking(all.track) ==> Complete(Gone(s, all.rest), ReadCount(s, [], ops)))
  {
    hide Plain, ReadCount, Complete, Gone;
    ReadsFulfil(s, [], ops, [], 0);
    var all := Plain(s, [], true, ops);
    var gone, count := Gone(s, all.rest), ReadCount(s, [], ops);
    assert gone + [] == gone;
    forall n ensures Complete(gone, n) <==> n == count && NothingLacking(all.track) {
      ReadsFulfil(s, [], ops, [], n);
      assert Fulfils([], gone, n) <==> Complete(gone, n);
      if n >= count { NoBytesFulfil(all.track, n - count); }
    }
    assert NothingLacking(all.track) ==> Complete(gone, count);
  }

  /** A tracked run from the start of a reader. */
  method Session(r: Reader, ops: seq<Op>) returns (got: seq<Got>)
    requires r.Valid() && r.error == NoError && r.tracking && r.track == []
    modifies r, r.mem
    ensures r.Kept()
    ensures r.error == NoError ==> Plain(old(r.Rest()), [], true, ops) == Seen(got, r.Rest(), r.track)
    ensures r.error == NoError ==>
      && |r.Rest()| <= |old(r.Rest())|
      && ((exists n :: Complete(Gone(old(r.Rest()), r.Rest()), n)) <==> NothingLacking(r.track))
  {
    hide Plain, Complete, Gone;
    ghost var before := r.Rest();
    got := Run(r, ops);
    if r.error == NoError { ReadingIsExact(before, ops); }
  }
}
