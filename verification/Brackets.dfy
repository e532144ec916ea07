/** What the tracker accepts, told by the calls alone: every element is closed as the type it was opened as,
    with all it was said to hold. */
module Brackets {
  import opened Bytes
  import opened Tags
  import opened Values
  import opened Track
  import opened TrackedRuns
  import opened ReaderRuns

  /** What a call is to the tracker: it counts an element, opens one, takes bytes of the payload, closes an
      element, or only looks whether an element may come. */
  datatype Event = One | Opens(tag: Tag) | Takes(n: nat) | Shuts(kind: Kind) | Looks

  predicate LegalEvent(e: Event) {
    e.Opens? ==> IsCompound(e.tag)
  }

  predicate LegalEvents(es: seq<Event>) {
    forall e | e in es :: LegalEvent(e)
  }

  function TrackEvent(st: Stack, e: Event): Tracked
    requires LegalEvent(e)
  {
    match e
    case One => Element(st)
    case Opens(t) => OpenElement(st, t)
    case Takes(n) => TakeBytes(st, n)
    case Shuts(k) => Pop(st, k)
    case Looks => if Element(st).Tracked? then Tracked(st) else Misuse
  }

  /** The track stack after the first `n` events. */
  function TrackFirst(es: seq<Event>, n: nat): Tracked
    requires LegalEvents(es) && n <= |es|
  {
    if n == 0 then Tracked([])
    else
      var t := TrackFirst(es, n - 1);
      if t.Misuse? then Misuse else TrackEvent(t.stack, es[n - 1])
  }

  // ---------------------------------------------------------------------------------------------
  // Brackets

  /** The event that opened the element which is innermost before event `j`, when `closed` more elements are
      left out of account; -1 if nothing is open then. Every closing event on the way back hides one opening
      event. */
  function Opener(es: seq<Event>, j: nat, closed: nat): (i: int)
    requires j <= |es|
    ensures -1 <= i < j && (i >= 0 ==> es[i].Opens?)
  {
    if j == 0 then -1
    else if es[j - 1].Shuts? then Opener(es, j - 1, closed + 1)
    else if !es[j - 1].Opens? then Opener(es, j - 1, closed)
    else if closed == 0 then j - 1
    else Opener(es, j - 1, closed - 1)
  }

  /** What an event gives to the element it is in: an element or bytes. */
  function Gift(e: Event): nat {
    if e.One? || e.Opens? then 1 else if e.Takes? then e.n else 0
  }

  /** What the events before `j` have given to the element that event `i` opened. */
  function Given(es: seq<Event>, i: nat, j: nat): nat
    requires j <= |es|
  {
    if j <= i + 1 then 0
    else Given(es, i, j - 1) + if Opener(es, j - 1, 0) == i then Gift(es[j - 1]) else 0
  }

  predicate IsKind(k: Kind, t: Tag) {
    match k
    case ArrayKind => t.Array?
    case MapKind => t.Map?
    case StrKind => t.Str?
    case BinKind => t.Bin?
    case ExtKind => t.Ext?
  }

  /** Event `j` is in its place: an element is at the top or in an array or map that still lacks one, bytes are
      in a str, bin or ext that still lacks them, and what is closed is of the type it is closed as and lacks
      nothing. */
  predicate Allowed(es: seq<Event>, j: nat)
    requires j < |es|
  {
    var i := Opener(es, j, 0);
    match es[j]
    case Takes(n) =>
      i >= 0 && !es[i].tag.Array? && !es[i].tag.Map? && Given(es, i, j) + n <= PayloadSize(es[i].tag)
    case Shuts(k) =>
      i >= 0 && IsKind(k, es[i].tag) && Given(es, i, j) == PayloadSize(es[i].tag) + ChildCount(es[i].tag)
    case _ =>
      i >= 0 ==> (es[i].tag.Array? || es[i].tag.Map?) && Given(es, i, j) < ChildCount(es[i].tag)
  }

  /** The open element `o` is the one that event `i` opened. */
  predicate IsOpen(es: seq<Event>, j: nat, i: int, o: Open)
    requires j <= |es|
  {
    && 0 <= i < j && es[i].Opens? && IsKind(o.kind, es[i].tag)
    && o.left + Given(es, i, j) == PayloadSize(es[i].tag) + ChildCount(es[i].tag)
  }

  /** The element at depth `d` of the stack is the one that is open at this depth. */
  predicate Layer(es: seq<Event>, j: nat, st: Stack, d: nat)
    requires j <= |es| && d < |st|
  {
    IsOpen(es, j, Opener(es, j, d), st[|st| - 1 - d])
  }

  /** The stack holds the elements that are open before event `j`, with what they lack. */
  predicate Reflects(es: seq<Event>, j: nat, st: Stack)
    requires j <= |es|
  {
    && (forall d | 0 <= d < |st| :: Layer(es, j, st, d))
    && Opener(es, j, |st|) == -1
  }

  lemma {:induction false} OuterIsEarlier(es: seq<Event>, j: nat, d: nat, e: nat)
    requires j <= |es| && d < e
    ensures Opener(es, j, e) < Opener(es, j, d) || Opener(es, j, e) == -1
    decreases j
  {
    if j > 0 {
      if es[j - 1].Shuts? {
        OuterIsEarlier(es, j - 1, d + 1, e + 1);
      } else if !es[j - 1].Opens? {
        OuterIsEarlier(es, j - 1, d, e);
      } else if d > 0 {
        OuterIsEarlier(es, j - 1, d - 1, e - 1);
      }
    }
  }

  /** An event gives to the innermost element and to no other. */
  lemma GivenNext(es: seq<Event>, i: nat, j: nat)
    requires i < j < |es|
    ensures Given(es, i, j + 1) == Given(es, i, j) + if Opener(es, j, 0) == i then Gift(es[j]) else 0
  {
  }

  /** An open element further out stays as it is. */
  lemma OuterStays(es: seq<Event>, j: nat, d: nat, o: Open)
    requires j < |es| && d > 0 && IsOpen(es, j, Opener(es, j, d), o)
    ensures IsOpen(es, j + 1, Opener(es, j, d), o)
  {
    OuterIsEarlier(es, j, 0, d);
    GivenNext(es, Opener(es, j, d), j);
  }

  lemma TopOpen(es: seq<Event>, j: nat, st: Stack)
    requires j <= |es| && Reflects(es, j, st)
    ensures st == [] <==> Opener(es, j, 0) == -1
    ensures st != [] ==> IsOpen(es, j, Opener(es, j, 0), Top(st))
  {
    hide Opener, Given;
    if st != [] { assert Layer(es, j, st, 0); }
  }

  /** The tracker accepts an event exactly when it is in its place. */
  lemma AcceptedIfAllowed(es: seq<Event>, j: nat, st: Stack)
    requires j < |es| && LegalEvent(es[j]) && Reflects(es, j, st)
    ensures TrackEvent(st, es[j]).Tracked? <==> Allowed(es, j)
  {
    TopOpen(es, j, st);
    hide Opener, Given, Reflects;
  }

  /** An event that stays in the innermost element, which then lacks `gift` fewer. */
  lemma StaysInside(es: seq<Event>, j: nat, st: Stack)
    requires j < |es| && Reflects(es, j, st) && !es[j].Opens? && !es[j].Shuts?
    requires st != [] ==> Top(st).left >= Gift(es[j])
    ensures st == [] ==> Reflects(es, j + 1, st)
    ensures st != [] ==> Reflects(es, j + 1, Below(st) + [Open(Top(st).kind, Top(st).left - Gift(es[j]))])
  {
    TopOpen(es, j, st);
    if st != [] {
      var after := Below(st) + [Open(Top(st).kind, Top(st).left - Gift(es[j]))];
      GivenNext(es, Opener(es, j, 0), j);
      var next := j + 1;
      forall d | 0 <= d < |after| ensures Layer(es, next, after, d) {
        assert Layer(es, j, st, d);
        if d > 0 { OuterStays(es, j, d, st[|st| - 1 - d]); }
      }
    }
  }

  lemma OpensInside(es: seq<Event>, j: nat, st: Stack)
    requires j < |es| && Reflects(es, j, st) && es[j].Opens? && IsCompound(es[j].tag) && Element(st).Tracked?
    ensures Reflects(es, j + 1, OpenElement(st, es[j].tag).stack)
  {
    var inner := Element(st).stack;
    var after := OpenElement(st, es[j].tag).stack;
    assert after[..|inner|] == inner && |after| == |inner| + 1;
    forall d | 0 <= d <= |st| { OpenerOutside(es, j, d); }
    NewIsOpen(es, j, st);
    var next := j + 1;
    forall d | 0 <= d < |after| ensures Layer(es, next, after, d) {
      if d > 0 {
        OpenerOutside(es, j, d - 1);
        assert Layer(es, j, st, d - 1);
        OneFewer(es, j, st, d - 1);
      }
    }
    OpenerOutside(es, j, |st|);
    hide Opener, Given;
  }

  /** The elements that are open before an element is opened lie outside it. */
  lemma OpenerOutside(es: seq<Event>, j: nat, d: nat)
    requires j < |es| && es[j].Opens?
    ensures Opener(es, j + 1, d + 1) == Opener(es, j, d) && Opener(es, j + 1, 0) == j
  {
  }

  lemma NewIsOpen(es: seq<Event>, j: nat, st: Stack)
    requires j < |es| && es[j].Opens? && IsCompound(es[j].tag) && Element(st).Tracked?
    ensures IsOpen(es, j + 1, j, Top(OpenElement(st, es[j].tag).stack))
  {
  }

  /** Of the open elements the innermost lacks one fewer. */
  lemma OneFewer(es: seq<Event>, j: nat, st: Stack, d: nat)
    requires j < |es| && es[j].Opens? && d < |st| && Layer(es, j, st, d) && Element(st).Tracked?
    ensures IsOpen(es, j + 1, Opener(es, j, d), Element(st).stack[|st| - 1 - d])
  {
    if d == 0 {
      GivenNext(es, Opener(es, j, 0), j);
    } else {
      OuterStays(es, j, d, st[|st| - 1 - d]);
    }
    hide Opener, Given;
  }

  lemma ShutsInnermost(es: seq<Event>, j: nat, st: Stack)
    requires j < |es| && Reflects(es, j, st) && es[j].Shuts? && st != []
    ensures Reflects(es, j + 1, Below(st))
  {
    var after := Below(st);
    var next := j + 1;
    forall d | 0 <= d < |after| ensures Layer(es, next, after, d) {
      assert Layer(es, j, st, d + 1);
      OuterStays(es, j, d + 1, st[|st| - 2 - d]);
    }
  }

  lemma ReflectsNext(es: seq<Event>, j: nat, st: Stack)
    requires j < |es| && LegalEvent(es[j]) && Reflects(es, j, st) && TrackEvent(st, es[j]).Tracked?
    ensures Reflects(es, j + 1, TrackEvent(st, es[j]).stack)
  {
    hide Reflects, Opener;
    match es[j]
    case Opens(t) => OpensInside(es, j, st);
    case Shuts(k) => ShutsInnermost(es, j, st);
    case Looks =>
      StaysInside(es, j, st);
      assert st != [] ==> Below(st) + [Open(Top(st).kind, Top(st).left - 0)] == st;
    case _ => StaysInside(es, j, st);
  }

  /** The tracker accepts a run exactly when every event is in its place, and its stack then holds the elements
      that are open, each of the type it was opened as and with what it lacks. */
  lemma {:induction false} TrackerIsBrackets(es: seq<Event>, n: nat)
    requires LegalEvents(es) && n <= |es|
    ensures TrackFirst(es, n).Tracked? <==> forall j | 0 <= j < n :: Allowed(es, j)
    ensures TrackFirst(es, n).Tracked? ==> Reflects(es, n, TrackFirst(es, n).stack)
    decreases n
  {
    hide Allowed, TrackEvent;
    if n > 0 {
      TrackerIsBrackets(es, n - 1);
      var t := TrackFirst(es, n - 1);
      if t.Tracked? {
        AcceptedIfAllowed(es, n - 1, t.stack);
        if TrackEvent(t.stack, es[n - 1]).Tracked? { ReflectsNext(es, n - 1, t.stack); }
      }
      hide Reflects;
    }
  }

  // ---------------------------------------------------------------------------------------------
  // Runs of a writer and of a reader

  /** All events, one after the other. */
  function TrackAll(st: Stack, es: seq<Event>): Tracked
    requires LegalEvents(es)
    decreases es
  {
    if es == [] then Tracked(st)
    else
      var t := TrackEvent(st, es[0]);
      if t.Misuse? then Misuse else TrackAll(t.stack, es[1..])
  }

  lemma {:induction false} TrackRest(es: seq<Event>, n: nat)
    requires LegalEvents(es) && n <= |es|
    ensures TrackAll([], es) ==
      if TrackFirst(es, n).Misuse? then Misuse else TrackAll(TrackFirst(es, n).stack, es[n..])
  {
    hide TrackEvent, LegalEvent;
    if n == 0 {
      assert es[0..] == es;
    } else {
      TrackRest(es, n - 1);
      assert es[n - 1..][1..] == es[n..];
    }
  }

  function EventOf(c: Call): Event {
    match c
    case Whole(_, _) => One
    case Start(t) => Opens(t)
    case Data(d) => Takes(|d|)
    case Finish(k) => Shuts(k)
  }

  function EventsOf(calls: seq<Call>): (es: seq<Event>)
    ensures |es| == |calls|
  {
    if calls == [] then [] else [EventOf(calls[0])] + EventsOf(calls[1..])
  }

  lemma {:induction false} RunIsTracked(st: Stack, calls: seq<Call>)
    requires AllLegal(calls)
    ensures LegalEvents(EventsOf(calls)) && RunStack(st, calls) == TrackAll(st, EventsOf(calls))
    decreases calls
  {
    hide Element, OpenElement, TakeBytes, Pop;
    if calls != [] {
      var r := TrackCall(st, calls[0]);
      RunIsTracked(if r.Tracked? then r.stack else st, calls[1..]);
      assert EventsOf(calls)[1..] == EventsOf(calls[1..]);
    }
  }

  /** A run of writer calls is accepted exactly when every call is in its place. */
  lemma CallsAreBrackets(calls: seq<Call>)
    requires AllLegal(calls)
    ensures RunStack([], calls).Tracked? <==> forall j | 0 <= j < |calls| :: Allowed(EventsOf(calls), j)
    ensures RunStack([], calls).Tracked? ==> Reflects(EventsOf(calls), |calls|, RunStack([], calls).stack)
  {
    hide RunStack, EventsOf, TrackFirst, Allowed, Reflects;
    RunIsTracked([], calls);
    var es := EventsOf(calls);
    TrackRest(es, |es|);
    TrackerIsBrackets(es, |es|);
  }

  /** An element opened as an array cannot be closed as a map. */
  lemma WrongCloseIsMisuse()
    ensures AllLegal([Start(Array(0)), Finish(MapKind)])
    ensures RunStack([], [Start(Array(0)), Finish(MapKind)]).Misuse?
  {
    var calls := [Start(Array(0)), Finish(MapKind)];
    assert calls[1..] == [Finish(MapKind)] && calls[1..][1..] == [];
    assert EventsOf(calls) == [Opens(Array(0)), Shuts(MapKind)];
    assert !Allowed(EventsOf(calls), 1);
    CallsAreBrackets(calls);
  }

  /** What a read is to the tracker depends on the tag it gives. */
  function OpEvent(s: bytes, op: Op): Event {
    match op
    case Close(k) => Shuts(k)
    case Read => if ParseTag(s).Header? && IsCompound(ParseTag(s).tag) then Opens(ParseTag(s).tag) else One
    case Peek => Looks
    case _ => Takes(op.n)
  }

  /** The events of a run on a stream that holds enough for it. */
  function OpEvents(s: bytes, ops: seq<Op>): (es: seq<Event>)
    requires Plain(s, [], false, ops).Seen?
    ensures |es| == |ops|
    decreases ops
  {
    if ops == [] then [] else [OpEvent(s, ops[0])] + OpEvents(PlainOne(s, [], false, ops[0]).rest, ops[1..])
  }

  lemma TrackOpIsEvent(s: bytes, st: Stack, op: Op)
    ensures LegalEvent(OpEvent(s, op)) && TrackEvent(st, OpEvent(s, op)) == TrackOp(s, st, op)
  {
    hide ParseTag, Element, TakeBytes, Pop;
  }

  /** Tracking adds what the tracker says to what the stream says. */
  lemma PlainTracked(s: bytes, st: Stack, op: Op)
    ensures var free, one := PlainOne(s, [], false, op), PlainOne(s, st, true, op);
      && (one.Seen? <==> free.Seen? && TrackOp(s, st, op).Tracked?)
      && (free.Seen? ==> free.track == [])
      && (one.Seen? ==> one.got == free.got && one.rest == free.rest && one.track == TrackOp(s, st, op).stack)
  {
    hide ParseTag, TrackOp;
  }

  lemma {:induction false} ReadIsTracked(s: bytes, st: Stack, ops: seq<Op>)
    ensures var free, all := Plain(s, [], false, ops), Plain(s, st, true, ops);
      && (all.Seen? ==> free.Seen?)
      && (free.Seen? ==>
            && LegalEvents(OpEvents(s, ops))
            && var t := TrackAll(st, OpEvents(s, ops));
               (all.Seen? <==> t.Tracked?) && (all.Seen? ==> t == Tracked(all.track)))
    decreases ops
  {
    hide PlainOne, TrackOp, TrackEvent, OpEvent, LegalEvent;
    if ops != [] {
      PlainTracked(s, st, ops[0]);
      TrackOpIsEvent(s, st, ops[0]);
      var free := PlainOne(s, [], false, ops[0]);
      if free.Seen? {
        var t := TrackOp(s, st, ops[0]);
        ReadIsTracked(free.rest, if t.Tracked? then t.stack else st, ops[1..]);
        if Plain(s, [], false, ops).Seen? {
          assert OpEvents(s, ops)[1..] == OpEvents(free.rest, ops[1..]);
        }
      }
    }
  }

  /** A run of reads with tracking succeeds on exactly the streams that hold enough for it, if every read is in
      its place. */
  lemma ReadsAreBrackets(s: bytes, ops: seq<Op>)
    ensures Plain(s, [], true, ops).Seen? <==>
      Plain(s, [], false, ops).Seen? && forall j | 0 <= j < |ops| :: Allowed(OpEvents(s, ops), j)
    ensures Plain(s, [], true, ops).Seen? ==> Reflects(OpEvents(s, ops), |ops|, Plain(s, [], true, ops).track)
  {
    hide Plain, TrackFirst, Allowed, Reflects, OpEvents;
    ReadIsTracked(s, [], ops);
    if Plain(s, [], false, ops).Seen? {
      var es := OpEvents(s, ops);
      TrackRest(es, |es|);
      TrackerIsBrackets(es, |es|);
    }
  }
}
