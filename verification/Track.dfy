/** The track stack of mpack-common.c: a pushdown automaton over the open compound elements. */
module Track {
  import opened Bytes
  import opened Errors

  datatype Kind = ArrayKind | MapKind | StrKind | BinKind | ExtKind

  /** mpack_track_element_t: an open element and how many children or bytes it still lacks. */
  datatype Open = Open(kind: Kind, left: nat)

  /** The open elements, innermost last. */
  type Stack = seq<Open>

  datatype Tracked = Tracked(stack: Stack) | Misuse

  predicate HasChildren(k: Kind) { k == ArrayKind || k == MapKind }

  function Top(st: Stack): Open
    requires st != []
  { st[|st| - 1] }

  function Below(st: Stack): Stack
    requires st != []
  { st[..|st| - 1] }

  // ---------------------------------------------------------------------------------------------
  // The transitions

  function Push(st: Stack, kind: Kind, count: nat): Stack {
    st + [Open(kind, if kind == MapKind then 2 * count else count)]
  }

  function Pop(st: Stack, kind: Kind): (r: Tracked)
    ensures r.Tracked? ==> |r.stack| <= |st|
  {
    if st == [] || Top(st).kind != kind || Top(st).left != 0 then Misuse else Tracked(Below(st))
  }

  predicate CanElement(st: Stack) {
    st == [] || (HasChildren(Top(st).kind) && Top(st).left > 0)
  }

  function Element(st: Stack): (r: Tracked)
    ensures r.Tracked? ==> |r.stack| == |st|
  {
    if !CanElement(st) then Misuse
    else if st == [] then Tracked(st)
    else Tracked(Below(st) + [Open(Top(st).kind, Top(st).left - 1)])
  }

  function TakeBytes(st: Stack, count: nat): (r: Tracked)
    ensures r.Tracked? ==> |r.stack| == |st|
  {
    if st == [] || HasChildren(Top(st).kind) || Top(st).left < count then Misuse
    else Tracked(Below(st) + [Open(Top(st).kind, Top(st).left - count)])
  }

  function TakeAllBytes(st: Stack, count: nat): (r: Tracked)
    ensures r.Tracked? ==> |r.stack| == |st|
  {
    var t := TakeBytes(st, count);
    if t.Misuse? || Top(t.stack).kind != StrKind || Top(t.stack).left != 0 then Misuse else t
  }

  /** All bytes of a str are taken at once exactly when a str is innermost and lacks just these. */
  lemma TakeAllByTop(st: Stack, count: nat)
    ensures TakeAllBytes(st, count).Tracked? <==> st != [] && st[|st| - 1] == Open(StrKind, count)
    ensures TakeAllBytes(st, count).Tracked? ==>
      TakeAllBytes(st, count).stack == st[..|st| - 1] + [Open(StrKind, 0)]
  {
  }

  lemma BelowPush(st: Stack, o: Open)
    ensures st + [o] != [] && Below(st + [o]) == st && Top(st + [o]) == o
  {
  }

  // ---------------------------------------------------------------------------------------------
  // The stack in memory

  /** mpack_track_t. The array doubles when it is full. */
  class TrackStack {
    var elements: array<Open>
    var count: nat

    ghost predicate Valid()
      reads this
    {
      count <= elements.Length && elements.Length > 0
    }

    ghost function Contents(): Stack
      reads this, elements
      requires Valid()
    {
      elements[..count]
    }

    constructor ()
      ensures Valid() && fresh(elements) && Contents() == [] && elements.Length == 8
    {
      elements := new Open[8](_ => Open(StrKind, 0));
      count := 0;
    }

    method Grow(mallocOk: bool) returns (error: Error)
      requires Valid() && count == elements.Length
      modifies this
      ensures Valid() && Contents() == old(Contents())
      ensures error == if mallocOk then NoError else Memory
      ensures if mallocOk then fresh(elements) && elements.Length == 2 * old(elements.Length)
              else elements == old(elements)
    {
      if !mallocOk { return Memory; }
      var src, n := elements, count;
      var bigger := new Open[2 * n](i requires 0 <= i < 2 * n reads src => if i < n then src[i] else src[0]);
      assert bigger[..n] == src[..n];
      elements := bigger;
      return NoError;
    }

    /** mpack_track_push */
    method PushElement(kind: Kind, n: nat, mallocOk: bool) returns (error: Error)
      requires Valid()
      modifies this, elements
      ensures Valid() && (elements == old(elements) || fresh(elements))
      ensures error == NoError ==> Contents() == Push(old(Contents()), kind, n)
      ensures error != NoError ==> error == Memory && !mallocOk && Contents() == old(Contents())
    {
      var left := if kind == MapKind then 2 * n else n;
      if count == elements.Length {
        error := Grow(mallocOk);
        if error != NoError { return; }
      }
      elements[count] := Open(kind, left);
      count := count + 1;
      return NoError;
    }

    /** mpack_track_pop */
    method PopElement(kind: Kind) returns (error: Error)
      requires Valid()
      modifies this
      ensures Valid() && elements == old(elements)
      ensures error == if Pop(old(Contents()), kind).Misuse? then Bug else NoError
      ensures Contents() == if error == NoError then Pop(old(Contents()), kind).stack else old(Contents())
    {
      if count == 0 { return Bug; }
      var e := elements[count - 1];
      if e.kind != kind { return Bug; }
      if e.left != 0 { return Bug; }
      count := count - 1;
      return NoError;
    }

    /** mpack_track_peek_element */
    method PeekElement() returns (error: Error)
      requires Valid()
      ensures error == if CanElement(Contents()) then NoError else Bug
    {
      if count == 0 { return NoError; }
      var e := elements[count - 1];
      if e.kind != MapKind && e.kind != ArrayKind { return Bug; }
      if e.left == 0 { return Bug; }
      return NoError;
    }

    /** mpack_track_element */
    method CountElement() returns (error: Error)
      requires Valid()
      modifies elements
      ensures Valid()
      ensures error == if Element(old(Contents())).Misuse? then Bug else NoError
      ensures Contents() == if error == NoError then Element(old(Contents())).stack else old(Contents())
    {
      error := PeekElement();
      if count > 0 && error == NoError {
        var e := elements[count - 1];
        elements[count - 1] := Open(e.kind, e.left - 1);
      }
    }

    /** mpack_track_bytes */
    method CountBytes(n: nat) returns (error: Error)
      requires Valid()
      modifies elements
      ensures Valid()
      ensures error == if TakeBytes(old(Contents()), n).Misuse? then Bug else NoError
      ensures Contents() == if error == NoError then TakeBytes(old(Contents()), n).stack else old(Contents())
    {
      if count == 0 { return Bug; }
      var e := elements[count - 1];
      if e.kind == MapKind || e.kind == ArrayKind { return Bug; }
      if e.left < n { return Bug; }
      elements[count - 1] := Open(e.kind, e.left - n);
      return NoError;
    }

    /** mpack_track_str_bytes_all. A count that leaves bytes over has been taken when the misuse is
        reported. */
    method CountAllBytes(n: nat) returns (error: Error)
      requires Valid()
      modifies elements
      ensures Valid()
      ensures error == if TakeAllBytes(old(Contents()), n).Misuse? then Bug else NoError
      ensures error == NoError ==> Contents() == TakeAllBytes(old(Contents()), n).stack
    {
      error := CountBytes(n);
      if error != NoError { return; }
      var e := elements[count - 1];
      assert e == Top(Contents());
      if e.kind != StrKind { return Bug; }
      if e.left != 0 { return Bug; }
    }
  }
}
