/** The tree parser of mpack-node.c: one loop over an explicit stack, on data that may arrive in
    pieces. */
module Trees {
  import opened Bytes
  import opened Doubling
  import opened Errors
  import opened Tags
  import opened Values
  import opened Nodes
  import opened NodePages

  /** What one call of the read function does. */
  datatype ReadEvent = Deliver(n: nat) | Raise(e: Error) | MinusOne

  datatype ParseState = NotStarted | InProgress | Parsed

  const BUFFER_SIZE := 4096
  const INITIAL_DEPTH := 8

  class Tree {
    /** The read function, if there is one, and the most bytes a message may have. */
    const hasRead: bool
    const maxSize: nat
    /** The size of the caller's node pool, or zero when pages are allocated. */
    const poolCount: nat

    /** Bytes received and not yet dropped, from the start of the current message. */
    var data: bytes
    var capacity: nat
    /** Bytes the read function has not delivered, and the results of its calls to come. */
    var stream: bytes
    var events: seq<ReadEvent>
    /** Results of the calls to malloc to come. */
    var mallocs: seq<bool>

    var error: Error
    var state: ParseState
    var size: nat
    var possible: nat
    var reserved: nat
    var stack: seq<Level>
    var stackCapacity: nat
    var mem: Memory
    var arena: NodeArena
    var root: nat
    /** Nodes that have been parsed. */
    ghost var done: set<nat>

    ghost predicate Limited()
      reads this
    {
      && size <= |data| <= SIZE_MAX && maxSize <= SIZE_MAX
      && (!hasRead ==> stream == [])
      && (hasRead ==> |data| <= capacity <= maxSize && poolCount == 0)
      && (capacity == 0 || capacity == maxSize || PowerOfTwo(capacity)) && capacity <= 0x8000_0000
    }

    /** `k` more bytes have come in; nothing else has changed. */
    twostate predicate Fed()
      reads this
    {
      && Limited()
      && old(data) <= data && data + stream == old(data + stream)
      && |data| - possible == old(|data| - possible)
      && (!hasRead ==> data == old(data))
      && done == old(done) && root == old(root) && state == old(state)
      && Steady()
    }

    ghost predicate AllocOk()
      reads this`mallocs
    {
      forall b | b in mallocs :: b
    }

    /** Memory is there for the asking, and the read function flags no error. */
    ghost predicate Tame()
      reads this`mallocs, this`events
    {
      AllocOk() && (hasRead ==> forall e | e in events :: e.Deliver?)
    }

    /** Besides, the read function delivers at least one byte as long as there are any. */
    ghost predicate Prompt()
      reads this`mallocs, this`events
    {
      Tame() && forall e | e in events :: e.Deliver? && e.n > 0
    }

    /** The size limit keeps the buffer from growing beyond two to the 31 bytes, and the read function
        comes back. */
    ghost predicate Returns()
      reads this`events
    {
      hasRead ==> maxSize <= 0x8000_0000 && Raise(NoReturn) !in events
    }

    /** What every step keeps. A call that returns at all sizes comes back. */
    twostate predicate Steady()
      reads this
    {
      && (old(Tame()) ==> Tame()) && (old(Prompt()) ==> Prompt())
      && (old(Returns()) ==> Returns() && (error == NoReturn ==> old(error) == NoReturn))
    }

    /** mpack_tree_init */
    constructor FromData(data: bytes, mallocs: seq<bool>)
      requires |data| <= SIZE_MAX
      ensures Limited() && error == NoError && state == NotStarted && size == 0 && fresh(arena)
      ensures this.data == data && stream == [] && !hasRead && poolCount == 0 && this.mallocs == mallocs && events == []
    {
      hasRead, maxSize, poolCount := false, SIZE_MAX, 0;
      this.data, capacity, stream, events, this.mallocs := data, 0, [], [], mallocs;
      error, state, size, possible, reserved := NoError, NotStarted, 0, 0, 0;
      stack, stackCapacity, mem, root, done := [], INITIAL_DEPTH, map[], 0, {};
      arena := new NodeArena(true, NODES_PER_PAGE);
    }

    /** mpack_tree_init_pool. A pool of no nodes is an error. */
    constructor FromPool(data: bytes, poolCount: nat, mallocs: seq<bool>)
      requires |data| <= SIZE_MAX
      ensures Limited() && state == NotStarted && size == 0 && stream == [] && !hasRead && events == [] && fresh(arena)
      ensures this.poolCount == poolCount && this.mallocs == mallocs
      ensures if poolCount == 0 then error == Bug && this.data == [] else error == NoError && this.data == data
    {
      hasRead, maxSize, this.poolCount := false, SIZE_MAX, poolCount;
      this.data, error := if poolCount == 0 then [] else data, if poolCount == 0 then Bug else NoError;
      capacity, stream, events, this.mallocs := 0, [], [], mallocs;
      state, size, possible, reserved := NotStarted, 0, 0, 0;
      stack, stackCapacity, mem, root, done := [], INITIAL_DEPTH, map[], 0, {};
      arena := new NodeArena(false, 1);
    }

    /** mpack_tree_init_stream */
    constructor FromStream(stream: bytes, events: seq<ReadEvent>, maxSize: u32, mallocs: seq<bool>)
      ensures Limited() && error == NoError && state == NotStarted && size == 0 && fresh(arena)
      ensures data == [] && this.stream == stream && this.events == events && hasRead && poolCount == 0
      ensures this.maxSize == maxSize && this.mallocs == mallocs && capacity == 0
    {
      hasRead, this.maxSize, poolCount := true, maxSize, 0;
      data, capacity, this.stream, this.events, this.mallocs := [], 0, stream, events, mallocs;
      error, state, size, possible, reserved := NoError, NotStarted, 0, 0, 0;
      stack, stackCapacity, mem, root, done := [], INITIAL_DEPTH, map[], 0, {};
      arena := new NodeArena(false, 1);
    }

    method FlagError(e: Error)
      requires e != NoError
      modifies this`error
      ensures error == if old(error) == NoError then e else old(error)
    {
      if error == NoError { error := e; }
    }

    method Malloc() returns (ok: bool)
      modifies this`mallocs
      ensures ok == (old(mallocs) == [] || old(mallocs)[0])
      ensures mallocs == if old(mallocs) == [] then [] else old(mallocs)[1..]
      ensures (old(AllocOk()) ==> ok && AllocOk()) && Steady() && (old(Tame()) ==> ok)
    {
      if mallocs == [] { return true; }
      ok := mallocs[0];
      assert ok in mallocs;
      assert forall b | b in mallocs[1..] :: b in mallocs;
      mallocs := mallocs[1..];
    }

    // -------------------------------------------------------------------------------------------
    // Bytes

    /** Grows the buffer until `need` bytes fit, up to the maximum. Where two to the 31 is not enough, the
        loop of the code comes to zero and stays there. */
    method GrowBuffer(need: u32) returns (ok: bool)
      requires Limited() && hasRead && need <= maxSize && error == NoError
      modifies this`capacity, this`mallocs, this`error
      ensures Limited() && (ok <==> error == NoError) && (old(AllocOk()) ==> AllocOk())
      ensures ok ==> capacity == NewCapacity(old(capacity), need) >= need
      ensures error == NoReturn <==> need > 0x8000_0000
      ensures (old(AllocOk()) || old(Tame())) && need <= 0x8000_0000 ==> ok
      ensures Steady()
    {
      if need <= capacity { return true; }
      StartsAtPower();
      var newCapacity := DoubleUntil(if capacity == 0 then BUFFER_SIZE else capacity, need);
      if newCapacity == 0 {
        FlagError(NoReturn);
        return false;
      }
      if newCapacity > maxSize { newCapacity := maxSize; }
      var granted := Malloc();
      if !granted {
        FlagError(Memory);
        return false;
      }
      capacity := newCapacity;
      return true;
    }

    /** Where it grows, it is at most the maximum and under twice the need, unless that is under one buffer. */
    function NewCapacity(before: nat, need: nat): (r: nat)
      ensures need <= before ==> r == before
      ensures before < need <= maxSize ==> need <= r <= maxSize && (r <= 4096 || r < 2 * need)
    {
      if need <= before then before
      else
        var grown := Grown(if before == 0 then BUFFER_SIZE else before, need);
        if grown > maxSize then maxSize else grown
    }

    /** What the next call of the read function does. */
    method NextEvent(count: nat) returns (event: ReadEvent)
      requires hasRead
      modifies this`events
      ensures events == if old(events) == [] then [] else old(events)[1..]
      ensures event == if old(events) == [] then Deliver(count) else old(events)[0]
      ensures Steady() && (old(Tame()) ==> event.Deliver?)
      ensures old(Returns()) ==> event != Raise(NoReturn)
      ensures old(Prompt()) && count > 0 ==> event.n > 0
    {
      event := if events == [] then Deliver(count) else events[0];
      if events != [] {
        assert event in events && forall e | e in events[1..] :: e in events;
        events := events[1..];
      }
    }

    /** What the next call of the read function delivers, if it is let to. */
    ghost function FirstRead(): nat
      reads this`events, this`stream
    {
      if events == [] || !events[0].Deliver? then 0
      else if events[0].n < |stream| then events[0].n else |stream|
    }

    /** One call of the read function. None is the value -1. */
    method Read(count: nat) returns (n: int)
      requires Limited() && error == NoError && |data| + count <= capacity && hasRead
      modifies this`error, this`data, this`stream, this`events, this`possible
      ensures Fed() && -1 <= n <= count
      ensures error == NoError && n >= 0 ==> |data| == |old(data)| + n
      ensures n <= 0 || error != NoError ==> data == old(data) && possible == old(possible)
      ensures events == if old(events) == [] then [] else old(events)[1..]
      ensures n == -1 <==> old(events) != [] && !old(events)[0].Deliver?
      ensures old(Tame()) ==> error == NoError && n >= 0
      ensures old(Prompt()) && n == 0 && count > 0 ==> stream == []
      ensures 0 < old(FirstRead()) <= count ==> n == old(FirstRead()) && error == NoError
    {
      var event := NextEvent(count);
      match event
      case Raise(e) =>
        if e != NoError { FlagError(e); }
        n := -1;
      case MinusOne => n := -1;
      case Deliver(k) =>
        n := if k < count then k else count;
        n := if n < |stream| then n else |stream|;
        assert data + stream == (data + stream[..n]) + stream[n..];
        data, stream, possible := data + stream[..n], stream[n..], possible + n;
    }

    /** Bytes that may still become nodes: the possible nodes left and, where the read function has no way
        of holding them back, the bytes to come. */
    twostate function Offer(): nat
      reads this
    {
      if error == NoError && !old(Prompt()) then possible else possible + |stream|
    }

    /** Reads until `bytes` can be had, or there is nothing to read for now. */
    method FillUp(bytes: nat) returns (ok: bool)
      requires Limited() && error == NoError && hasRead && possible <= |data|
      modifies this`error, this`data, this`stream, this`events, this`possible
      ensures Fed() && (ok ==> error == NoError) && (ok <==> bytes <= possible)
      ensures error == NoError ==> Delivered(old(events), events)
      ensures old(Tame()) ==> error == NoError
      ensures !ok && error == NoError && old(Prompt()) && capacity >= |old(data)| + bytes ==> stream == []
      ensures 0 < bytes - old(possible) <= old(FirstRead()) <= capacity - |old(data)| ==>
        ok && |data| == old(|data| + FirstRead())
    {
      hide Tame, Prompt, AllocOk, FirstRead;
      while possible < bytes
        invariant Fed() && error == NoError && Delivered(old(events), events) && possible <= |data|
        invariant 0 < bytes - old(possible) <= old(FirstRead()) <= capacity - |old(data)| ==>
          if possible < bytes then FirstRead() == old(FirstRead()) && data == old(data) && possible == old(possible)
          else |data| == old(|data| + FirstRead())
        decreases bytes - possible
      {
        var read := Read(capacity - |data|);
        if error != NoError { return false; }
        if read == -1 {
          FlagError(Io);
          return false;
        }
        if read == 0 { return false; }
      }
      return true;
    }

    /** The most bytes the buffer is let to hold. */
    function Roof(): nat {
      if maxSize < 0x8000_0000 then maxSize else 0x8000_0000
    }

    /** A node that takes `total` bytes, more than have come in, may exceed the size limit: bytes of it that
        are in the buffer count twice. */
    ghost predicate Cramped(total: int)
      reads this`data, this`possible
    {
      hasRead && total > possible && |data| - possible + 2 * total - 1 > Roof()
    }

    /** `total` bytes are not to be had, or the size limit may stand in the way. */
    twostate predicate Denied(total: int)
      reads this
    {
      total > Offer() || Cramped(total)
    }

    /** Without that, the size check passes. */
    lemma RoomForNode(bytes: nat)
      requires Limited() && hasRead && possible <= |data| && bytes > possible && !Cramped(bytes)
      ensures Sum32(|data|, bytes) as int == |data| + bytes <= maxSize && |data| + bytes <= 0x8000_0000
    {
    }

    /** A node asks for `total` bytes that are not there, for more than two to the 31 together with the data,
        and the size limit lets it. */
    ghost predicate Vast(total: nat)
      reads this`data, this`stream, this`possible
    {
      && hasRead && total > possible + |stream|
      && |data| + total > 0x8000_0000 && |data| + |stream| + total <= maxSize
    }

    /** A node asks for `total` bytes, more than have come in, and fails the size check. */
    ghost predicate Swollen(total: nat)
      reads this`data, this`possible
    {
      total > possible && maxSize < |data| + total <= SIZE_MAX
    }

    /** The next call of the read function delivers enough for `total` bytes. */
    ghost predicate OneRead(total: nat)
      reads this`data, this`stream, this`possible, this`capacity, this`events, this`mallocs
    {
      && hasRead && AllocOk() && total > possible && |data| + total <= maxSize && |data| + total <= 0x8000_0000
      && total - possible <= FirstRead() <= NewCapacity(capacity, |data| + total) - |data|
    }

    /** What the size check and the loop that doubles the buffer see of this. */
    lemma AskedFor(total: nat)
      requires Limited()
      ensures Vast(total) ==> hasRead && 0x8000_0000 < Sum32(|data|, total) as int <= maxSize
      ensures Swollen(total) ==> Sum32(|data|, total) > maxSize
      ensures OneRead(total) ==>
        && Sum32(|data|, total) as int == |data| + total <= 0x8000_0000 && |data| + total <= maxSize && hasRead && AllocOk()
        && 0 < total - possible <= FirstRead() <= NewCapacity(capacity, |data| + total) - |data|
    {
      hide FirstRead, NewCapacity, AllocOk;
    }

    /** Room for `need` bytes in the buffer, and reads until `bytes` can be had. */
    method GrowAndFill(bytes: nat, need: u32) returns (ok: bool)
      requires Limited() && error == NoError && possible <= |data| && bytes > possible && hasRead && need <= maxSize
      modifies this`error, this`data, this`stream, this`events, this`possible, this`capacity, this`mallocs
      ensures Fed() && (ok ==> error == NoError) && (ok <==> bytes <= possible)
      ensures error == NoError ==> Delivered(old(events), events)
      ensures need > 0x8000_0000 ==> error == NoReturn
      ensures need <= 0x8000_0000 && old(Tame()) ==> error == NoError
      ensures old(Tame()) && error != NoError ==> error == NoReturn
      ensures !ok && error == NoError && old(Prompt()) && need as int == |old(data)| + bytes ==> stream == []
      ensures need as int == |old(data)| + bytes <= 0x8000_0000 && old(AllocOk())
              && 0 < bytes - old(possible) <= old(FirstRead()) <= NewCapacity(old(capacity), need) - |old(data)| ==>
        |data| == old(|data| + FirstRead())
    {
      hide Prompt, Tame, Delivered, FirstRead, AllocOk, Returns, PowerOfTwo, NewCapacity;
      ok := GrowBuffer(need);
      if !ok { return; }
      ok := FillUp(bytes);
    }

    /** mpack_tree_reserve_fill */
    method ReserveFill() returns (ok: bool)
      requires Limited() && error == NoError && possible <= |data| && reserved > possible
      modifies this`error, this`data, this`stream, this`events, this`possible, this`capacity, this`mallocs
      ensures Fed() && (ok ==> error == NoError) && (error == NoError ==> (ok <==> reserved <= possible))
      ensures error == NoError ==> Delivered(old(events), events)
      ensures !hasRead ==> mallocs == old(mallocs) && !ok
      ensures !hasRead ==> error == if Sum32(|data|, reserved) > maxSize then TooBig else Invalid
      ensures !ok && (error == NoError || old(Tame())) ==> Denied(reserved)
      ensures old(Prompt() && hasRead && reserved <= possible + |stream|) && old(|data| + |stream|) + reserved <= maxSize ==>
        ok || error == NoReturn
      ensures old(Vast(reserved)) ==> error == NoReturn
      ensures old(Swollen(reserved)) ==> error == TooBig
      ensures old(OneRead(reserved)) ==> |data| == old(|data| + FirstRead())
    {
      hide Prompt, Tame, Delivered, Sum32, FirstRead, AllocOk, Returns, PowerOfTwo, NewCapacity,
           Vast, Swollen, OneRead;
      PromptIsTame();
      var bytes := reserved;
      if hasRead && !Cramped(bytes) { RoomForNode(bytes); }
      SmallSum(|data|, bytes);
      AskedFor(bytes);
      var need := Sum32(|data|, bytes);
      if need > maxSize {
        FlagError(TooBig);
        return false;
      }
      if !hasRead {
        FlagError(Invalid);
        return false;
      }
      ok := GrowAndFill(bytes, need);
    }

    /** mpack_tree_reserve_bytes */
    method ReserveBytes(bytes: nat) returns (ok: bool)
      requires Limited() && error == NoError && possible <= |data|
      modifies this`error, this`data, this`stream, this`events, this`possible, this`capacity, this`mallocs, this`reserved
      ensures Fed() && (ok ==> error == NoError && reserved == old(reserved) + bytes <= possible)
      ensures !hasRead ==> mallocs == old(mallocs)
      ensures !hasRead ==> (ok <==> old(reserved) + bytes <= possible) && (ok <==> error == NoError)
      ensures error == NoError ==> (ok <==> old(reserved) + bytes <= possible)
      ensures old(reserved) + bytes > SIZE_MAX ==> error == Invalid
      ensures !ok && (error == NoError || old(Tame())) ==> Denied(old(reserved) + bytes)
      ensures old(Prompt() && hasRead && reserved + bytes <= possible + |stream|) ==>
        old(|data| + |stream| + reserved) + bytes <= maxSize ==> ok || error == NoReturn
      ensures old(Vast(reserved + bytes)) ==> error == NoReturn
      ensures old(Swollen(reserved + bytes)) ==> error == TooBig
      ensures old(OneRead(reserved + bytes)) ==> |data| == old(|data| + FirstRead())
    {
      if reserved + bytes > SIZE_MAX {
        FlagError(Invalid);
        return false;
      }
      reserved := reserved + bytes;
      if reserved <= possible { return true; }
      ok := ReserveFill();
    }

    // -------------------------------------------------------------------------------------------
    // One node

    /** A node is about to be parsed at `size`: its first byte is there. */
    ghost predicate AtNode()
      reads this, arena
    {
      && Limited() && error == NoError
      && size + possible < |data|
      && 0 < |stack| <= stackCapacity
      && arena.Valid() && arena.Tidy() && arena.Thrifty()
    }

    /** The node at `a` has been made from the header `h`: what follows the first byte has been
        reserved, and the children have storage and a level of their own. */
    twostate predicate Made(a: nat, h: Header)
      reads this, arena
    {
      && h.Header?
      && reserved == h.size - 1 + PayloadSize(h.tag) + ChildCount(h.tag)
      && a in mem && mem == old(mem)[a := mem[a]]
      && Matches(mem[a], h.tag, size + h.size, KidsOf(mem[a]))
      && GotChildren(KidsOf(mem[a]), ChildCount(h.tag))
    }

    twostate predicate GotChildren(base: nat, total: nat)
      reads this, arena
    {
      && Slots(Block(base, total)) !! old(arena.handed)
      && arena.handed == old(arena.handed) + Slots(Block(base, total))
      && stack == old(stack) + if total > 0 then [Level(base, total)] else []
    }

    /** Nothing but missing bytes, or a pool that is used up, can have stopped the parser: it has flagged no
        error, or storage is there for the asking and the read function, if there is one, flags none. */
    twostate predicate Starved()
      reads this, arena
    {
      error == NoError || old(Tame())
    }

    /** The pool has no room for `total` more nodes. */
    ghost predicate Crowded(total: nat)
      reads this, arena
    {
      error == TooBig && !arena.paged && total > arena.nodesLeft
    }

    /** The bytes from the start of the message on that a parser that stopped has to go by. */
    twostate function Known(ok: bool): bytes
      reads this
    {
      if ok || (error == NoError && !old(Prompt())) then data else data + stream
    }

    twostate lemma KnownData(ok: bool)
      ensures data <= Known(ok) && (ok ==> Known(ok) == data)
    {
    }

    /** The header of the node at `size` can be had, but what the node takes is more than there is: more than
        two to the 31 bytes with what has been read up to then. All of the header has been, but for the type
        of an ext. */
    ghost predicate Endless()
      reads this
      requires size <= |data|
    {
      var h := ParseTag((data + stream)[size..]);
      && hasRead && h.Header? && h.size <= possible + |stream| + 1
      && var need := h.size - 1 + PayloadSize(h.tag) + ChildCount(h.tag);
         && need > possible + |stream|
         && size + h.size - (if h.tag.Ext? then 1 else 0) + need > 0x8000_0000
         && |data| + |stream| + need <= maxSize
    }

    /** The node at `size` is a short str that fails the size check. */
    ghost predicate Overfull()
      reads this
      requires size < |data|
    {
      0xa0 <= data[size] < 0xc0 && Swollen(data[size] - 0xa0)
    }

    /** What every part of parsing a node keeps, and what holds when it succeeds. */
    twostate predicate Kept(ok: bool)
      reads this, arena
    {
      && Fed() && arena == old(arena)
      && (ok ==> error == NoError && reserved <= possible && AtNode())
      && (!ok && error == NoError ==> hasRead && mem == old(mem) && stack == old(stack) && arena.handed == old(arena.handed))
      && (!ok && error == NoError ==> AtNode())
    }

    /** mpack_tree_push_stack. Empty containers get no level. */
    method PushStack(base: nat, total: nat) returns (ok: bool)
      requires error == NoError && 0 < |stack| <= stackCapacity
      modifies this`stack, this`stackCapacity, this`mallocs, this`error
      ensures (old(AllocOk()) ==> ok && AllocOk()) && error == (if ok then NoError else Memory)
      ensures ok ==> stack == old(stack) + (if total > 0 then [Level(base, total)] else []) && 0 < |stack| <= stackCapacity
      ensures stackCapacity == old(stackCapacity) || stackCapacity == 2 * old(stackCapacity)
    {
      if total == 0 { return true; }
      if |stack| == stackCapacity {
        ok := Malloc();
        if !ok {
          FlagError(Memory);
          return;
        }
        stackCapacity := 2 * stackCapacity;
      }
      stack := stack + [Level(base, total)];
      ok := true;
    }

    /** Storage and a level for `total` children. */
    method AllocateChildren(total: nat) returns (ok: bool, base: nat)
      requires AtNode()
      modifies this`mallocs, this`error, this`stack, this`stackCapacity, arena
      ensures ok <==> error == NoError
      ensures ok ==> AtNode() && GotChildren(base, total)
      ensures Steady()
      ensures !ok && old(Tame()) ==> Crowded(total) && arena.nodesLeft == old(arena.nodesLeft)
      ensures total > old(arena.nodesLeft) && arena.paged && old(mallocs) != [] && !old(mallocs)[0] ==> error == Memory
    {
      hide NodeArena.Valid, NodeArena.Tidy, NodeArena.Thrifty, Slots, PowerOfTwo, Returns;
      var granted := true;
      if total > arena.nodesLeft && arena.paged {
        granted := Malloc();
      }
      var e;
      e, base := arena.Take(total, granted);
      if e != NoError {
        FlagError(e);
        return false, base;
      }
      ok := PushStack(base, total);
    }

    /** mpack_tree_parse_children, for a node with `total` children. */
    method ParseChildren(total: nat) returns (ok: bool, base: nat)
      requires AtNode()
      modifies this, arena
      ensures Kept(ok) && mem == old(mem) && size == old(size)
      ensures ok ==> GotChildren(base, total) && reserved == old(reserved) + total
      ensures !ok && Starved() ==>
        (Denied(old(reserved) + total) || Crowded(total)) && arena.nodesLeft == old(arena.nodesLeft)
      ensures old(Vast(reserved + total)) ==> error == NoReturn
    {
      hide NodeArena.Valid, NodeArena.Tidy, NodeArena.Thrifty, Tame, Prompt, Slots;
      base := 0;
      ok := ReserveBytes(total);
      if ok {
        ok, base := AllocateChildren(total);
      }
    }

    /** The node has been made if the bytes it needs can be had. */
    twostate predicate Outcome(ok: bool, a: nat, h: Header)
      reads this, arena
      requires old(size <= |data|)
    {
      && Kept(ok) && size == old(size)
      && (ok ==> Made(a, h))
      && (!ok && Starved() ==> arena.nodesLeft == old(arena.nodesLeft))
      && (!ok && Starved() ==> !h.Header? || Denied(h.size - 1 + PayloadSize(h.tag) + ChildCount(h.tag))
                                 || Crowded(ChildCount(h.tag)))
      && (old(Prompt() && Endless()) ==> error == NoReturn)
    }

    /** Stores a node without children. */
    method Store(a: nat, node: Node)
      requires AtNode() && !node.Compound?
      modifies this`mem
      ensures mem == old(mem)[a := node] && AtNode()
      ensures GotChildren(0, 0)
    {
      mem := mem[a := node];
    }

    /** All bytes from the node on, those to come included, start with its first byte. */
    lemma FirstOfAll()
      requires AtNode()
      ensures (data + stream)[size..] != [] && (data + stream)[size..][0] == data[size]
    {
    }

    /** A scalar whose value is in the first byte. */
    method ParseFixed(a: nat, tag: Tag)
      requires AtNode() && IsScalar(tag) && reserved == 0 && ParseTag((data + stream)[size..]) == Header(tag, 1)
      modifies this`mem
      ensures Limited() && Outcome(true, a, Header(tag, 1))
    {
      hide NodeArena.Valid, NodeArena.Tidy, NodeArena.Thrifty, ParseTag;
      Store(a, Scalar(tag));
    }

    /** mpack_tree_parse_bytes, and mpack_tree_parse_ext with its extra byte for the type: a payload of
        `len` bytes behind what has been reserved. */
    method ParseBytes(a: nat, kind: BlobKind, len: u32) returns (ok: bool)
      requires AtNode() && reserved <= possible
      modifies this, arena
      ensures Kept(ok) && size == old(size)
      ensures ok ==> reserved == old(reserved) + ExtByte(kind) + len && GotChildren(0, 0)
      ensures ok ==> mem == old(mem)[a := Blob(kind, len, size + old(reserved) + ExtByte(kind) + 1)]
      ensures !ok && Starved() ==> Denied(old(reserved) + ExtByte(kind) + len)
      ensures !ok ==> arena.nodesLeft == old(arena.nodesLeft)
      ensures old(Vast(reserved + ExtByte(kind) + len)) ==> error == NoReturn
      ensures old(Swollen(reserved + ExtByte(kind) + len)) ==> error == TooBig
    {
      hide NodeArena.Valid, NodeArena.Tidy, NodeArena.Thrifty, Tame, Prompt, PowerOfTwo, AllocOk, Returns, Slots,
           Vast, Swollen, OneRead, Cramped;
      if kind == ExtNode { reserved := reserved + 1; }
      var offset := size + reserved + 1;
      ok := ReserveBytes(len);
      if ok {
        Store(a, Blob(kind, len, offset));
      }
    }

    twostate lemma EndlessStays()
      requires Fed() && size == old(size) <= old(|data|)
      ensures old(Endless()) ==> Endless()
    {
      hide ParseTag;
    }

    /** Reserves the `k` bytes behind the first byte of the node and loads them. */
    method ReadField(k: nat) returns (ok: bool, v: u64)
      requires AtNode() && k in {1, 2, 4, 8} && reserved == 0
      modifies this`error, this`data, this`stream, this`events, this`possible, this`capacity, this`mallocs, this`reserved
      ensures Kept(ok)
      ensures ok ==> reserved == k && |data| > size + k && v == Field(data[size..][1..], k)
      ensures !ok && Starved() ==> Denied(k)
      ensures old(Prompt()) && hasRead && k <= old(possible + |stream|) && old(|data| + |stream|) + k <= maxSize ==>
        ok || error == NoReturn
      ensures old(Endless()) ==> Endless()
    {
      hide NodeArena.Valid, NodeArena.Tidy, NodeArena.Thrifty, Tame, Prompt, Endless;
      PromptIsTame();
      v := 0;
      ok := ReserveBytes(k);
      EndlessStays();
      if ok {
        v := Field(data[size..][1..], k);
      }
    }

    /** An endless blob with a length field of `k` bytes. */
    lemma EndlessBlob(kind: BlobKind, k: nat)
      requires AtNode() && k in {1, 2, 4} && LongBlobOpcode(data[size], kind, k)
      ensures Endless() ==> hasRead && k <= possible + |stream| && |data| + |stream| + k <= maxSize
      ensures Endless() && |data| > size + k ==> Vast(k + ExtByte(kind) + Field(data[size..][1..], k))
    {
      FirstOfAll();
      LongBlobHeader((data + stream)[size..], kind, k);
      hide Field, ParseTag;
      if |data| > size + k { FieldBehind(data, data + stream, size, k); }
    }

    /** An endless array or map with a count field of `k` bytes. */
    lemma EndlessContainer(isMap: bool, k: nat)
      requires AtNode() && k in {2, 4}
      requires data[size] as int == (if isMap then 0xde else 0xdc) + (if k == 4 then 1 else 0)
      ensures Endless() ==> hasRead && k <= possible + |stream| && |data| + |stream| + k <= maxSize
      ensures Endless() && |data| > size + k ==> Vast(k + Elements(isMap, Field(data[size..][1..], k)))
    {
      FirstOfAll();
      LongContainerHeader((data + stream)[size..], isMap, k);
      hide Field, ParseTag;
      if |data| > size + k { FieldBehind(data, data + stream, size, k); }
    }

    lemma EndlessNumber(k: nat)
      requires AtNode() && NumberOpcode(data[size], k)
      ensures !Endless()
    {
      FirstOfAll();
      NumberHeader((data + stream)[size..], k);
    }

    /** Numbers with a field of `k` bytes. */
    method ParseNumber(a: nat, k: nat) returns (ok: bool)
      requires AtNode() && k in {1, 2, 4, 8} && reserved == 0
      requires NumberOpcode(data[size], k)
      modifies this, arena
      ensures Limited() && Outcome(ok, a, ParseTag(Known(ok)[size..]))
    {
      hide NodeArena.Valid, NodeArena.Tidy, NodeArena.Thrifty, Slots, Tame, Prompt, Field, ParseTag, Endless, Limited;
      EndlessNumber(k);
      var v;
      ok, v := ReadField(k);
      NumberHeader(Known(ok)[size..], k);
      if ok {
        Store(a, Scalar(NumberTag(data[size], k, v)));
      }
    }

    /** The length field and the payload of a blob. */
    method TakeBlob(a: nat, kind: BlobKind, k: nat) returns (ok: bool, v: u64)
      requires AtNode() && k in {1, 2, 4} && reserved == 0 && LongBlobOpcode(data[size], kind, k)
      modifies this, arena
      ensures Kept(ok) && size == old(size)
      ensures ok ==> |data| > size + k && v == Field(data[size..][1..], k) && v <= 0xFFFF_FFFF
      ensures ok ==> reserved == k + ExtByte(kind) + v && GotChildren(0, 0)
      ensures ok ==> mem == old(mem)[a := Blob(kind, v, size + k + ExtByte(kind) + 1)]
      ensures !ok && Starved() ==> arena.nodesLeft == old(arena.nodesLeft)
      ensures !ok && Starved() && !Denied(k) ==>
        |Known(ok)| > size + k && v == Field(Known(ok)[size..][1..], k) && Denied(k + ExtByte(kind) + v)
      ensures old(Prompt() && Endless()) ==> error == NoReturn
    {
      hide NodeArena.Valid, NodeArena.Tidy, NodeArena.Thrifty, Slots, Known, Tame, Prompt, Field, ParseTag, Endless, Vast,
           PowerOfTwo, AllocOk, Returns, Limited;
      EndlessBlob(kind, k);
      ok, v := ReadField(k);
      KnownData(ok);
      if ok {
        ghost var before := data;
        EndlessBlob(kind, k);
        ok := ParseBytes(a, kind, v);
        KnownData(ok);
        FieldBehind(before, Known(ok), size, k);
      }
    }

    /** Blobs with a length field of `k` bytes. The type byte of an ext may only come in at the end. */
    method ParseLongBlob(a: nat, kind: BlobKind, k: nat) returns (ok: bool)
      requires AtNode() && k in {1, 2, 4} && reserved == 0
      requires LongBlobOpcode(data[size], kind, k)
      modifies this, arena
      ensures Limited() && Outcome(ok, a, ParseTag(Known(ok)[size..]))
    {
      hide NodeArena.Valid, NodeArena.Tidy, NodeArena.Thrifty, Slots, Known, Tame, Prompt, Field, ParseTag, Endless,
           Limited, Steady;
      var v;
      ok, v := TakeBlob(a, kind, k);
      KnownData(ok);
      LongBlobHeader(Known(ok)[size..], kind, k);
    }

    /** fixstr and the fixext family: the length is in the first byte. */
    method ParseShortBlob(a: nat, kind: BlobKind, len: u32) returns (ok: bool)
      requires AtNode() && reserved == 0 && ShortBlobOpcode(data[size], kind, len)
      modifies this, arena
      ensures Limited() && Outcome(ok, a, ParseTag(Known(ok)[size..]))
      ensures kind != ExtNode && old(Swollen(len)) ==> error == TooBig
    {
      hide NodeArena.Valid, NodeArena.Tidy, NodeArena.Thrifty, Slots, Tame, Prompt, ParseTag;
      FirstOfAll();
      ShortBlobHeader((data + stream)[size..], kind, len);
      ok := ParseBytes(a, kind, len);
      ShortBlobHeader(Known(ok)[size..], kind, len);
    }

    /** The children of an array or map of `len` elements or pairs. */
    method ParseElements(a: nat, isMap: bool, len: u32) returns (ok: bool)
      requires AtNode() && reserved <= possible
      modifies this, arena
      ensures Kept(ok) && size == old(size)
      ensures ok ==> reserved == old(reserved) + Elements(isMap, len) && a in mem && mem == old(mem)[a := mem[a]]
      ensures ok ==> mem[a] == Compound(isMap, len, KidsOf(mem[a])) && GotChildren(KidsOf(mem[a]), Elements(isMap, len))
      ensures !ok && Starved() ==>
        (Denied(old(reserved) + Elements(isMap, len)) || Crowded(Elements(isMap, len)))
        && arena.nodesLeft == old(arena.nodesLeft)
      ensures isMap && 2 * len as int > SIZE_MAX ==> error == TooBig
      ensures old(Vast(reserved + Elements(isMap, len))) ==> error == NoReturn
    {
      hide NodeArena.Valid, NodeArena.Tidy, NodeArena.Thrifty;
      if isMap && 2 * len as int > SIZE_MAX {
        FlagError(TooBig);
        return false;
      }
      var base;
      ok, base := ParseChildren(Elements(isMap, len));
      if ok {
        mem := mem[a := Compound(isMap, len, base)];
      }
    }

    /** fixarray and fixmap. */
    method ParseShortContainer(a: nat, isMap: bool, len: u32) returns (ok: bool)
      requires AtNode() && reserved == 0 && len < 16 && data[size] as int == (if isMap then 0x80 else 0x90) + len
      modifies this, arena
      ensures Limited() && Outcome(ok, a, ParseTag(Known(ok)[size..]))
    {
      hide NodeArena.Valid, NodeArena.Tidy, NodeArena.Thrifty, Slots, Tame, Prompt, ParseTag;
      FirstOfAll();
      ShortContainerHeader((data + stream)[size..], isMap, len);
      ok := ParseElements(a, isMap, len);
      ShortContainerHeader(Known(ok)[size..], isMap, len);
    }

    /** The count field and the children of an array or map. */
    method TakeElements(a: nat, isMap: bool, k: nat) returns (ok: bool, v: u64)
      requires AtNode() && reserved == 0 && k in {2, 4}
      requires data[size] as int == (if isMap then 0xde else 0xdc) + (if k == 4 then 1 else 0)
      modifies this, arena
      ensures Kept(ok) && size == old(size)
      ensures ok ==> |data| > size + k && v == Field(data[size..][1..], k) && v <= 0xFFFF_FFFF
      ensures ok ==> reserved == k + Elements(isMap, v) && a in mem && mem == old(mem)[a := mem[a]]
      ensures ok ==> mem[a] == Compound(isMap, v, KidsOf(mem[a])) && GotChildren(KidsOf(mem[a]), Elements(isMap, v))
      ensures !ok && Starved() ==> arena.nodesLeft == old(arena.nodesLeft)
      ensures !ok && Starved() && !Denied(k) ==>
        && |Known(ok)| > size + k && v == Field(Known(ok)[size..][1..], k) && v <= 0xFFFF_FFFF
        && (Denied(k + Elements(isMap, v)) || Crowded(Elements(isMap, v)))
      ensures old(Prompt() && Endless()) ==> error == NoReturn
    {
      hide NodeArena.Valid, NodeArena.Tidy, NodeArena.Thrifty, Slots, Known, Tame, Prompt, Field, ParseTag, Endless, Vast,
           PowerOfTwo, AllocOk, Returns, Limited;
      EndlessContainer(isMap, k);
      ok, v := ReadField(k);
      KnownData(ok);
      if ok {
        ghost var before := data;
        EndlessContainer(isMap, k);
        ok := ParseElements(a, isMap, v);
        KnownData(ok);
        FieldBehind(before, Known(ok), size, k);
      }
    }

    /** Arrays and maps with a count field of `k` bytes. */
    method ParseLongContainer(a: nat, isMap: bool, k: nat) returns (ok: bool)
      requires AtNode() && reserved == 0 && k in {2, 4}
      requires data[size] as int == (if isMap then 0xde else 0xdc) + (if k == 4 then 1 else 0)
      modifies this, arena
      ensures Limited() && Outcome(ok, a, ParseTag(Known(ok)[size..]))
    {
      hide NodeArena.Valid, NodeArena.Tidy, NodeArena.Thrifty, Slots, Known, Tame, Prompt, Field, ParseTag, Endless,
           Limited, Steady;
      var v;
      ok, v := TakeElements(a, isMap, k);
      KnownData(ok);
      LongContainerHeader(Known(ok)[size..], isMap, k);
    }

    /** mpack_tree_parse_node_contents, first bytes 0xc0 to 0xd3. */
    method ParseLow(a: nat) returns (ok: bool)
      requires AtNode() && reserved == 0 && 0xc0 <= data[size] < 0xd4
      modifies this, arena
      ensures Limited() && Outcome(ok, a, ParseTag(Known(ok)[size..]))
    {
      hide NodeArena.Valid, NodeArena.Tidy, NodeArena.Thrifty, Outcome, ParseTag;
      var t := data[size];
      FirstOfAll();
      FixedHeader(data[size..]);
      FixedHeader((data + stream)[size..]);
      if t == 0xc0 { ParseFixed(a, Nil); ok := true; }
      else if t == 0xc2 { ParseFixed(a, Bool(false)); ok := true; }
      else if t == 0xc3 { ParseFixed(a, Bool(true)); ok := true; }
      else if t == 0xc4 { ok := ParseLongBlob(a, BinNode, 1); }
      else if t == 0xc5 { ok := ParseLongBlob(a, BinNode, 2); }
      else if t == 0xc6 { ok := ParseLongBlob(a, BinNode, 4); }
      else if t == 0xc7 { ok := ParseLongBlob(a, ExtNode, 1); }
      else if t == 0xc8 { ok := ParseLongBlob(a, ExtNode, 2); }
      else if t == 0xc9 { ok := ParseLongBlob(a, ExtNode, 4); }
      else if t == 0xca { ok := ParseNumber(a, 4); }
      else if t == 0xcb { ok := ParseNumber(a, 8); }
      else if t == 0xcc { ok := ParseNumber(a, 1); }
      else if t == 0xcd { ok := ParseNumber(a, 2); }
      else if t == 0xce { ok := ParseNumber(a, 4); }
      else if t == 0xcf { ok := ParseNumber(a, 8); }
      else if t == 0xd0 { ok := ParseNumber(a, 1); }
      else if t == 0xd1 { ok := ParseNumber(a, 2); }
      else if t == 0xd2 { ok := ParseNumber(a, 4); }
      else if t == 0xd3 { ok := ParseNumber(a, 8); }
      else { ok := ParseReserved(a); }
    }

    /** The byte that no header starts with. */
    method ParseReserved(a: nat) returns (ok: bool)
      requires AtNode() && data[size] == 0xc1
      modifies this`error
      ensures Limited() && !ok && error == Invalid && Outcome(ok, a, ParseTag(Known(ok)[size..]))
    {
      FirstOfAll();
      FlagError(Invalid);
      ok := false;
    }

    /** mpack_tree_parse_node_contents, first bytes 0xd4 to 0xdf. */
    method ParseHigh(a: nat) returns (ok: bool)
      requires AtNode() && reserved == 0 && 0xd4 <= data[size] < 0xe0
      modifies this, arena
      ensures Limited() && Outcome(ok, a, ParseTag(Known(ok)[size..]))
    {
      hide NodeArena.Valid, NodeArena.Tidy, NodeArena.Thrifty, Outcome, ParseTag;
      var t := data[size];
      if t == 0xd4 { ok := ParseShortBlob(a, ExtNode, 1); }
      else if t == 0xd5 { ok := ParseShortBlob(a, ExtNode, 2); }
      else if t == 0xd6 { ok := ParseShortBlob(a, ExtNode, 4); }
      else if t == 0xd7 { ok := ParseShortBlob(a, ExtNode, 8); }
      else if t == 0xd8 { ok := ParseShortBlob(a, ExtNode, 16); }
      else if t == 0xd9 { ok := ParseLongBlob(a, StrNode, 1); }
      else if t == 0xda { ok := ParseLongBlob(a, StrNode, 2); }
      else if t == 0xdb { ok := ParseLongBlob(a, StrNode, 4); }
      else if t == 0xdc { ok := ParseLongContainer(a, false, 2); }
      else if t == 0xdd { ok := ParseLongContainer(a, false, 4); }
      else if t == 0xde { ok := ParseLongContainer(a, true, 2); }
      else { ok := ParseLongContainer(a, true, 4); }
    }

    /** mpack_tree_parse_node_contents: the node at `a` is made from the header at `size`, or the
        parser stops because of an error or, on a stream, because the bytes are not there yet. */
    method ParseNodeContents(a: nat) returns (ok: bool)
      requires AtNode()
      modifies this, arena
      ensures Limited() && Outcome(ok, a, ParseTag(Known(ok)[size..]))
      ensures old(Overfull()) ==> error == TooBig
    {
      hide NodeArena.Valid, NodeArena.Tidy, NodeArena.Thrifty, Slots, ParseTag, Tame, Prompt, PowerOfTwo, AllocOk, Returns,
           Matches;
      reserved := 0;
      ok := ParseByOpcode(a);
    }

    method ParseByOpcode(a: nat) returns (ok: bool)
      requires AtNode() && reserved == 0
      modifies this, arena
      ensures Limited() && Outcome(ok, a, ParseTag(Known(ok)[size..]))
      ensures old(Overfull()) ==> error == TooBig
    {
      hide NodeArena.Valid, NodeArena.Tidy, NodeArena.Thrifty, Outcome, ParseTag;
      var t := data[size];
      FirstOfAll();
      FixedHeader(data[size..]);
      FixedHeader((data + stream)[size..]);
      if t < 0x80 { ParseFixed(a, Uint(t)); ok := true; }
      else if t < 0x90 { ok := ParseShortContainer(a, true, t - 0x80); }
      else if t < 0xa0 { ok := ParseShortContainer(a, false, t - 0x90); }
      else if t < 0xc0 { ok := ParseShortBlob(a, StrNode, t - 0xa0); }
      else if t < 0xd4 { ok := ParseLow(a); }
      else if t < 0xe0 { ok := ParseHigh(a); }
      else { ParseFixed(a, Int(I8OfU8(t))); ok := true; }
    }

    // -------------------------------------------------------------------------------------------
    // The loop

    /** The parser is between two nodes. Byte conservation: the data is the parsed part, one byte for
        each pending node, and the possible nodes left. */
    ghost predicate Parsing()
      reads this, arena
    {
      && Limited() && arena.Valid() && arena.Tidy() && arena.Thrifty()
      && 0 < |stack| <= stackCapacity
      && |data| == size + |Pending(stack)| + possible
      && Linked(done, Pending(stack), arena.handed)
      && (!arena.paged ==> |arena.handed| + arena.nodesLeft == arena.size)
      && done <= mem.Keys && |done| <= size
      && Completes(mem, data, size, done, Pending(stack), root)
    }

    /** The top level has a node to parse. */
    ghost predicate Ready()
      reads this, arena
    {
      Parsing() && error == NoError && stack[|stack| - 1].left > 0
    }

    /** Memory, stack, storage and position after the item `it` has become the node at `a`. */
    twostate predicate Consumed(a: nat, it: Item)
      reads this, arena
    {
      && it.Item? && |it.payload| <= it.used && size == old(size) + it.used
      && |data| - possible == old(|data| - possible) + it.used - 1 + ChildCount(it.tag)
      && a in mem && mem == old(mem)[a := mem[a]]
      && Matches(mem[a], it.tag, size - |it.payload|, KidsOf(mem[a]))
      && GotChildren(KidsOf(mem[a]), ChildCount(it.tag))
    }

    /** The next item of `bytes`, if it is there, takes more bytes or more nodes than there are, or may exceed
        the size limit. */
    ghost predicate Stuck(bytes: bytes)
      reads this, arena
      requires size <= |bytes|
    {
      var it := FirstItem(bytes[size..]);
      it.Item? ==>
        || it.used + ChildCount(it.tag) - 1 > |bytes| - (|data| - possible)
        || (!arena.paged && ChildCount(it.tag) > arena.nodesLeft)
        || Cramped(it.used - 1 + ChildCount(it.tag))
    }

    /** A message of `length` bytes gets through, however the bytes come in. */
    predicate Room(length: nat) {
      length <= Roof() && 2 * length - 2 <= Roof()
    }

    /** There is no whole message in `bytes`, or its nodes do not fit into the pool, or it may exceed the size
        limit. */
    ghost predicate Hopeless(bytes: bytes)
      reads this, arena
    {
      var d := Decode(bytes, 1);
      d.Decoded? ==> (!arena.paged && NodeCount(d.values[0]) > arena.size) || (hasRead && !Room(d.size))
    }

    lemma HopelessPrefix(s: bytes, t: bytes)
      requires s <= t && Hopeless(t)
      ensures Hopeless(s)
    {
      hide Decode, NodeCount;
      if Decode(s, 1).Decoded? { DecodePrefix(s, t, 1); }
    }

    lemma StuckIsHopeless(mem0: Memory, data0: bytes, known: bytes, pending: seq<nat>, handed: set<nat>)
      requires size <= |data0| && data0 <= data <= known && Completes(mem0, data0, size, done, pending, root) && done <= mem0.Keys
      requires pending != [] && Linked(done, pending, handed)
      requires |data| - possible == size + |pending| <= |known| && Stuck(known)
      requires arena.paged || |handed| + arena.nodesLeft == arena.size
      ensures Hopeless(known)
    {
      hide Decode, FirstItem, Completes, NodeCount, Linked;
      var it := FirstItem(known[size..]);
      if it.Item? && Cramped(it.used - 1 + ChildCount(it.tag)) {
        ReservedIsTaken(mem0, data0, data, known, size, done, pending, root);
      } else {
        StuckIsUnparsable(mem0, data0, known, size, done, pending, root, handed, arena.paged, arena.nodesLeft);
      }
    }

    lemma MatchingCount(n: Node, t: Tag, offset: nat, kids: nat)
      requires Matches(n, t, offset, kids)
      ensures ChildCount(t) == if n.Compound? then Elements(n.isMap, n.len) else 0
    {
    }

    /** A parser that has stopped for more bytes has no whole message. */
    lemma PausedIsIncomplete(mem0: Memory, data0: bytes, known: bytes, pending: seq<nat>)
      requires size <= |data0| && data0 <= data <= known && Completes(mem0, data0, size, done, pending, root)
      requires done <= mem0.Keys && pending != [] && |data| - possible == size + |pending| && arena.paged && Stuck(known)
      ensures Decode(data, 1).Malformed?
    {
      hide Decode, FirstItem, Completes;
      if FirstItem(data[size..]).Item? { FirstItemPrefix(data[size..], known[size..]); }
      StarvedIsIncomplete(mem0, data0, data, size, done, pending, root, possible);
    }

    /** mpack_tree_parse_node */
    method ParseNode(a: nat) returns (ok: bool)
      requires AtNode()
      modifies this, arena
      ensures Limited() && arena == old(arena) && data + stream == old(data + stream) && old(data) <= data
      ensures done == old(done) && root == old(root) && state == old(state) && (!hasRead ==> data == old(data))
      ensures Steady()
      ensures error == NoError ==> arena.Valid() && arena.Tidy() && arena.Thrifty()
      ensures old(size) <= |data|
      ensures ok ==> error == NoError && 0 < |stack| <= stackCapacity && Consumed(a, FirstItem(data[old(size)..]))
      ensures !ok && error == NoError ==>
        hasRead && AtNode() && mem == old(mem) && stack == old(stack) && arena.handed == old(arena.handed)
        && size == old(size) && |data| - possible == old(|data| - possible)
      ensures !ok && Starved() ==>
        size == old(size) && |data| - possible == old(|data| - possible) && arena.nodesLeft == old(arena.nodesLeft)
      ensures !ok && Starved() ==> Stuck(Known(ok))
      ensures old(Prompt() && Endless()) ==> error == NoReturn
      ensures old(Overfull()) ==> error == TooBig
    {
      hide NodeArena.Valid, NodeArena.Tidy, NodeArena.Thrifty, Slots, ParseTag, Tame, Prompt, Endless, PowerOfTwo, AllocOk,
           Returns, Matches, FirstItem;
      ok := ParseNodeContents(a);
      FirstItemOfHeader(Known(ok)[size..]);
      if !ok { return; }
      MatchingCount(mem[a], ParseTag(data[size..]).tag, size + ParseTag(data[size..]).size, KidsOf(mem[a]));
      possible := possible - reserved;
      var nodeSize := reserved + 1;
      if mem[a].Compound? {
        nodeSize := nodeSize - Elements(mem[a].isMap, mem[a].len);
      }
      size := size + nodeSize;
    }

    /** A parser that has stopped for more bytes, `before` having been the data of the round before, is
        ready to go on. */
    lemma StoppedIsReady(before: bytes)
      requires AtNode() && before <= data && size <= |before| && stack[|stack| - 1].left > 0
      requires Linked(done, Pending(stack), arena.handed) && done <= mem.Keys && |done| <= size
      requires !arena.paged ==> |arena.handed| + arena.nodesLeft == arena.size
      requires |data| == size + |Pending(stack)| + possible && Completes(mem, before, size, done, Pending(stack), root)
      ensures Ready()
    {
      hide Completes, Linked, Pending;
      CompletesMore(mem, before, data, size, done, Pending(stack), root);
    }

    /** One round of the loop of mpack_tree_continue_parsing, before exhausted levels are popped. */
    method ParseNext() returns (ok: bool)
      requires Ready()
      modifies this, arena
      ensures Limited() && arena == old(arena) && data + stream == old(data + stream) && state == old(state)
      ensures Steady()
      ensures ok ==> Parsing() && error == NoError && size > old(size)
      ensures !ok && error == NoError ==> hasRead && Ready() && size == old(size)
      ensures !ok && error == NoError && arena.paged ==> Decode(data, 1).Malformed?
      ensures !ok && Starved() ==> Hopeless(Known(ok))
      ensures old(Prompt() && Endless()) ==> error == NoReturn
      ensures old(size < |data| && Overfull()) ==> error == TooBig
    {
      hide Tame, Prompt, Known, Stuck, Hopeless, Endless, Overfull, AllocOk, Returns, PowerOfTwo;
      hide NodeArena.Valid, NodeArena.Tidy, NodeArena.Thrifty, FirstItem, Decode, Completes, Linked, Pending, Slots, Matches;
      var level := |stack| - 1;
      var a := stack[level].child;
      ghost var pending, mem0, data0, handed0 := Pending(stack), mem, data, arena.handed;
      PendingStep(stack, 0, 0);
      ok := ParseNode(a);
      if !ok {
        KnownData(ok);
        if error == NoError {
          StoppedIsReady(data0);
          if arena.paged { PausedIsIncomplete(mem0, data0, Known(ok), pending); }
        }
        if Starved() {
          StuckIsHopeless(mem0, data0, Known(ok), pending, handed0);
        }
        return;
      }
      NodeDone(level, a, old(size), mem0, data0, handed0, old(stack));
    }

    /** The node at `a` has been parsed: it is done, and its level has one fewer. */
    method NodeDone(level: nat, a: nat, ghost size0: nat, ghost mem0: Memory, ghost data0: bytes, ghost handed0: set<nat>,
                    ghost before: seq<Level>)
      requires Limited() && error == NoError && arena.Valid() && arena.Tidy() && arena.Thrifty()
      requires 0 < |stack| <= stackCapacity
      requires |before| == level + 1 && before[level].left > 0 && before[level].child == a
      requires size0 <= |data0| && data0 <= data && Completes(mem0, data0, size0, done, Pending(before), root)
      requires Linked(done, Pending(before), handed0) && done <= mem0.Keys && |done| <= size0
      requires FirstItem(data[size0..]).Item?
      requires var it := FirstItem(data[size0..]); var k := ChildCount(it.tag);
        && size == size0 + it.used && |data| - possible == size0 + |Pending(before)| + it.used - 1 + k
        && a in mem && mem == mem0[a := mem[a]] && Matches(mem[a], it.tag, size - |it.payload|, KidsOf(mem[a]))
        && Slots(Block(KidsOf(mem[a]), k)) !! handed0 && arena.handed == handed0 + Slots(Block(KidsOf(mem[a]), k))
        && stack == before + if k > 0 then [Level(KidsOf(mem[a]), k)] else []
      modifies this`stack, this`done
      ensures Parsing() && |stack| == |old(stack)|
    {
      hide NodeArena.Valid, NodeArena.Tidy, FirstItem, Decode, Completes, Linked, Pending, Slots, Matches;
      ghost var pending, it, kids := Pending(before), FirstItem(data[size0..]), KidsOf(mem[a]);
      PendingStep(before, 0, 0);
      ParserStep(mem0, data0, data, size0, done, pending, handed0, root, mem[a], it, kids);
      CountDown(level, before, kids, ChildCount(it.tag));
      done := done + {a};
    }

    /** One node fewer on `level`, above which the children of that node may have been put. */
    method CountDown(level: nat, ghost before: seq<Level>, ghost kids: nat, ghost k: nat)
      requires |before| == level + 1 && before[level].left > 0
      requires stack == before + if k > 0 then [Level(kids, k)] else []
      modifies this`stack
      ensures |stack| == |old(stack)| && Pending(stack) == Range(kids, k) + Pending(before)[1..]
    {
      hide Pending;
      PendingStep(before, kids, k);
      ghost var next := Level(before[level].child + 1, before[level].left - 1);
      assert stack[level := next] == before[level := next] + stack[level + 1..];
      assert Range(kids, 0) + Pending(before)[1..] == Pending(before)[1..];
      assert before[level := next] + [] == before[level := next];
      stack := stack[level := Level(stack[level].child + 1, stack[level].left - 1)];
    }

    /** Pops exhausted levels. True when the bottom level is exhausted too. */
    method PopLevels() returns (finished: bool)
      requires Parsing() && error == NoError
      modifies this`stack
      ensures Parsing() && Pending(stack) == old(Pending(stack))
      ensures if finished then Pending(stack) == [] else Ready()
    {
      hide NodeArena.Valid, NodeArena.Tidy, NodeArena.Thrifty, Completes, Linked;
      while stack[|stack| - 1].left == 0
        invariant Parsing() && error == NoError && Pending(stack) == old(Pending(stack))
        decreases |stack|
      {
        PendingPop(stack);
        if |stack| == 1 { return true; }
        stack := stack[..|stack| - 1];
      }
      return false;
    }

    /** mpack_tree_continue_parsing. The loop ends: every round uses up input. */
    method ContinueParsing() returns (ok: bool)
      requires Ready()
      modifies this, arena
      ensures Limited() && arena == old(arena) && data + stream == old(data + stream) && state == old(state)
      ensures ok ==> Parsing() && error == NoError && Pending(stack) == []
      ensures !ok && error == NoError ==> hasRead && Ready() && (arena.paged ==> Decode(data, 1).Malformed?)
      ensures Steady()
      ensures !ok && Starved() ==> Hopeless(Known(ok))
      ensures old(Prompt() && Endless()) ==> error == NoReturn
      ensures old(size < |data| && Overfull()) ==> error == TooBig
    {
      hide NodeArena.Valid, NodeArena.Tidy, NodeArena.Thrifty, Completes, Linked, Decode, Endless;
      ghost var first := size;
      ghost var input, pages, was, tame, prompt, bounded := data + stream, arena, state, Tame(), Prompt(), Returns();
      while true
        invariant Ready() && data + stream == input && arena == pages && state == was
        invariant old(Prompt() && Endless()) ==> Prompt() && Endless() && size == first
        invariant old(size < |data| && Overfull()) ==> size == first && size < |data| && Overfull()
        invariant (tame ==> Tame()) && (prompt ==> Prompt()) && (bounded ==> Returns())
        decreases |input| - size
      {
        ok := ParseNext();
        if !ok {
          if Hopeless(data + stream) { HopelessPrefix(data, data + stream); }
          return;
        }
        var finished := PopLevels();
        if finished { return; }
      }
    }

    // -------------------------------------------------------------------------------------------
    // Parsing messages

    ghost predicate Valid()
      reads this, arena
    {
      && Limited()
      && (state == NotStarted ==> size == 0)
      && (error == NoError && state == InProgress ==> Ready() && FitsPool())
    }

    /** Nodes come from the pool of the caller, if there is one. */
    ghost predicate FitsPool()
      reads this
    {
      (arena.paged <==> poolCount == 0) && (!arena.paged ==> arena.size == poolCount)
    }

    /** All bytes from the start of the next message, or of the message in progress. */
    ghost function Input(): bytes
      reads this
      requires size <= |data|
    {
      (if state == Parsed then data[size..] else data) + stream
    }

    /** Nothing but the input can make parsing fail: there is storage for the asking, and the read function,
        if there is one, delivers all there is. */
    ghost predicate Unhindered()
      reads this
    {
      error == NoError && Tame() && (hasRead ==> Prompt())
    }

    /** The bytes begin with a message whose nodes fit into the pool, if there is one. */
    ghost predicate Parsable(bytes: bytes)
    {
      var d := Decode(bytes, 1);
      d.Decoded? && (poolCount > 0 ==> NodeCount(d.values[0]) <= poolCount)
    }

    /** The message at the front, if there is one, gets through however the bytes come in. Without a read
        function there is no size limit. */
    ghost predicate Roomy(bytes: bytes)
    {
      hasRead && Decode(bytes, 1).Decoded? ==> Room(Decode(bytes, 1).size)
    }

    /** Drops the message before. */
    method DropMessage()
      requires Limited() && state != InProgress && (state == NotStarted ==> size == 0)
      modifies this`data, this`size, this`state, this`reserved, this`possible
      ensures reserved == 0 && possible == |data|
      ensures Limited() && state == InProgress && size == 0 && data + stream == old(Input())
      ensures Steady()
    {
      state := InProgress;
      data := data[size..];
      size := 0;
      reserved, possible := 0, |data|;
    }

    /** The root and the bottom level. */
    method StartLevels(paged: bool, count: nat)
      requires Limited() && error == NoError && size == 0 && possible + 1 == |data|
      requires count > 0 && (paged ==> count == NODES_PER_PAGE)
      modifies this`stack, this`stackCapacity, this`arena, this`root, this`mem, this`done
      ensures Ready() && fresh(arena) && arena.paged == paged && arena.size == count && Pending(stack) == [root]
    {
      hide NodeArena.Valid, NodeArena.Tidy, NodeArena.Thrifty, Completes, Linked, Pending, PowerOfTwo, AllocOk, Returns;
      arena := new NodeArena(paged, count);
      root, mem, done := 0, map[], {};
      stack, stackCapacity := [Level(root, 1)], INITIAL_DEPTH;
      PendingAtStart(root);
      LinkedAtStart(root);
      CompletesAtStart(mem, data, root);
    }

    /** The first call on a stream, with its first read. */
    ghost predicate Starting()
      reads this
    {
      && state == NotStarted && error == NoError && data == [] && capacity == 0 && hasRead && Prompt()
      && 1 <= FirstRead() <= (if maxSize < BUFFER_SIZE then maxSize else BUFFER_SIZE)
    }

    /** It reads into a buffer of the usual size, or of the maximum. */
    lemma StartReads()
      requires hasRead && Prompt() && data == [] && capacity == 0 && possible == 0
      requires 1 <= FirstRead() <= (if maxSize < BUFFER_SIZE then maxSize else BUFFER_SIZE)
      ensures OneRead(1)
    {
      hide FirstRead;
    }

    /** Makes sure that the first byte of the message is there. */
    method FirstByte() returns (ok: bool)
      requires Limited() && state != InProgress && error == NoError && (state == NotStarted ==> size == 0)
      modifies this`data, this`size, this`state, this`error, this`stream, this`events, this`possible, this`capacity,
               this`mallocs, this`reserved
      ensures Limited() && size == 0 && data + stream == old(Input())
      ensures Steady()
      ensures if ok then error == NoError && state == InProgress && possible + 1 == |data| else state == NotStarted
      ensures !ok && error == NoError ==> data == []
      ensures !ok && (old(Prompt()) || (error != NoError && old(Tame()))) ==>
        data + stream == [] || (hasRead && maxSize == 0)
      ensures !hasRead ==> mallocs == old(mallocs) && (ok <==> old(Input()) != []) && (ok <==> error == NoError)
      ensures old(Starting()) ==> ok && |data| == old(FirstRead())
    {
      hide Tame, Prompt, AllocOk, Returns, PowerOfTwo, FirstRead;
      PromptIsTame();
      hide Vast, Swollen, OneRead, NewCapacity;
      ghost var starting := Starting();
      DropMessage();
      if starting { StartReads(); }
      ok := ReserveBytes(1);
      if ok {
        possible := possible - 1;
      } else {
        state := NotStarted;
      }
    }

    /** mpack_tree_parse_start */
    method ParseStart() returns (ok: bool)
      requires Valid() && state != InProgress && error == NoError
      modifies this
      ensures Valid() && (arena == old(arena) || fresh(arena)) && data + stream == old(Input()) && size == 0
      ensures ok ==> error == NoError && state == InProgress && Ready() && Pending(stack) == [root]
      ensures !ok && error == NoError ==> state == NotStarted && hasRead && data == []
      ensures Steady()
      ensures ok ==> FitsPool() && size == 0 && possible + 1 == |data|
      ensures !ok && (old(Prompt()) || (error != NoError && old(Tame()))) ==>
        old(Input()) == [] || (hasRead && maxSize == 0)
      ensures !hasRead && poolCount == 0 && old(Input()) != [] && old(mallocs) != [] && !old(mallocs)[0] ==> error == Memory
      ensures old(Starting()) ==> ok && |data| == old(FirstRead())
    {
      hide NodeArena.Valid, NodeArena.Tidy, NodeArena.Thrifty, Completes, Linked, Pending, Parsing,
           Tame, Prompt, AllocOk, Returns, PowerOfTwo;
      PromptIsTame();
      ok := FirstByte();
      if !ok { return; }
      if poolCount == 0 {
        ok := Malloc();
        if !ok {
          FlagError(Memory);
          return;
        }
        StartLevels(true, NODES_PER_PAGE);
      } else {
        StartLevels(false, poolCount);
      }
    }

    /** A message has been parsed: `before` starts with one value, `size` is its length, the root stands
        for it, and the possible nodes left are the bytes behind it. */
    ghost predicate Holds(before: bytes)
      reads this, arena
    {
      && size <= |data| && data + stream == before
      && Decode(before, 1).Decoded? && size == Decode(before, 1).size
      && Denotes(mem, data, root, Decode(before, 1).values[0])
      && possible == |data| - size && |arena.handed| == NodeCount(Decode(before, 1).values[0]) <= |data|
    }

    lemma FinishedHolds()
      requires Parsing() && Pending(stack) == []
      ensures Holds(data + stream)
    {
      hide Decode, Denotes, NodeCount;
      CompletesAtEnd(mem, data, size, done, root);
      assert data <= data + stream;
      DecodePrefix(data, data + stream, 1);
    }

    /** mpack_tree_try_parse: parses on from where the data ran out the last time. True says that the
        message is complete, however it came in; false without an error, that the bytes received so
        far do not hold a whole message. */
    method TryParse() returns (ok: bool)
      requires Valid()
      modifies this, arena
      ensures Valid() && (arena == old(arena) || fresh(arena))
      ensures old(error) != NoError ==> !ok && error == old(error) && data == old(data) && state == old(state)
      ensures ok ==> error == NoError && state == Parsed && Holds(old(Input())) && Input() == old(Input())[size..]
      ensures !ok && error == NoError ==> hasRead && state != Parsed && Input() == old(Input())
      ensures !ok && error == NoError ==> Decode(data, 1).Malformed?
      ensures Steady()
      ensures old(error) == NoError && old(Tame()) && Parsable(old(Input())) && Roomy(old(Input())) ==> error == NoError
      ensures old(Unhindered()) && Roomy(old(Input())) ==> (ok <==> Parsable(old(Input())))
      ensures old(error == NoError && hasRead && Prompt() && state != InProgress && NeverEnds(Input(), maxSize)) ==>
        error == NoReturn
      ensures old(Starting() && Swells(stream, FirstRead(), maxSize)) ==> error == TooBig
    {
      hide Tame, Prompt, Parsable, Endless, NeverEnds, Swells, Swollen, FirstRead, AllocOk, Returns, PowerOfTwo, Roomy, Room,
           Overfull, NodeCount;
      hide NodeArena.Valid, NodeArena.Tidy, NodeArena.Thrifty, Decode, Completes, Linked, Pending, Denotes, Parsing;
      if error != NoError { return false; }
      ghost var input := Input();
      assert [] + stream == stream;
      if state != InProgress {
        if NeverEnds(input, maxSize) { SomethingEnds(input, maxSize); }
        ok := ParseStart();
        if !ok {
          if input == [] || (hasRead && maxSize == 0) { NothingToParse(input); }
          return;
        }
        if hasRead { EndlessAtStart(); }
        OverfullAtStart();
      }
      ok := ParseOn();
    }

    lemma EndlessAtStart()
      requires Limited() && hasRead && size == 0 && possible + 1 == |data|
      ensures Endless() <==> NeverEnds(data + stream, maxSize)
    {
      hide ParseTag;
      assert (data + stream)[0..] == data + stream;
    }

    lemma OverfullAtStart()
      requires Limited() && size == 0 && possible + 1 == |data|
      ensures Swells(data + stream, |data|, maxSize) ==> Overfull()
    {
    }

    /** The message in progress. */
    method ParseOn() returns (ok: bool)
      requires Ready() && FitsPool() && state == InProgress
      modifies this, arena
      ensures Limited() && arena == old(arena) && Steady()
      ensures ok ==> error == NoError && state == Parsed && Holds(old(data + stream)) && Parsable(old(data + stream))
      ensures !ok ==> state == InProgress && data + stream == old(data + stream)
      ensures !ok && error == NoError ==> hasRead && Ready() && FitsPool() && Decode(data, 1).Malformed?
      ensures !ok && (old(Prompt()) || (error != NoError && old(Tame()))) ==>
        !Parsable(old(data + stream)) || !Roomy(old(data + stream))
      ensures old(Prompt() && Endless()) ==> error == NoReturn
      ensures old(size < |data| && Overfull()) ==> error == TooBig
    {
      hide Tame, Prompt, Endless;
      hide NodeArena.Valid, NodeArena.Tidy, NodeArena.Thrifty, Decode, Completes, Linked, Pending, Denotes, NodeCount;
      PromptIsTame();
      ok := ContinueParsing();
      if ok {
        FinishedHolds();
        state := Parsed;
      } else if Hopeless(data + stream) {
        HopelessPrefix(data, data + stream);
      }
    }

    lemma PromptIsTame()
      ensures Prompt() ==> Tame()
    {
    }

    /** Input without a first byte, or without room for it. */
    lemma NothingToParse(input: bytes)
      requires input == [] || (hasRead && maxSize == 0)
      ensures !Parsable(input) || !Roomy(input)
      ensures input == [] ==> Decode(input, 1).Malformed?
    {
      hide Decode, NodeCount;
      EmptyIsMalformed();
    }

    /** mpack_tree_parse: a message that cannot be completed now is an error. */
    method Parse()
      requires Valid()
      modifies this, arena
      ensures Valid() && (arena == old(arena) || fresh(arena))
      ensures old(error) != NoError ==> error == old(error)
      ensures old(Returns()) ==> Returns() && (error == NoReturn ==> old(error) == NoReturn)
      ensures error == NoError ==> state == Parsed && Holds(old(Input())) && Input() == old(Input())[size..]
      ensures old(Unhindered()) && Roomy(old(Input())) ==> (error == NoError <==> Parsable(old(Input())))
      ensures old(error == NoError && hasRead && Prompt() && state != InProgress && NeverEnds(Input(), maxSize)) ==>
        error == NoReturn
    {
      hide Decode, Ready, Denotes, NeverEnds;
      var ok := TryParse();
      if !ok && error == NoError {
        FlagError(if hasRead then Io else Invalid);
      }
    }
  }

  function Successes(results: seq<bool>): nat {
    if results == [] then 0
    else Successes(results[..|results| - 1]) + if results[|results| - 1] then 1 else 0
  }

  /** Successive parses: what the calls return, and the values of those that succeed. These are the
      successive messages of the input, however the bytes come in; and where nothing but the input can
      make a call fail, the call succeeds exactly when the input holds so many messages, each with no more
      nodes than the pool, if there is one. */
  method ParseMessages(t: Tree, calls: nat) returns (results: seq<bool>, ghost values: seq<Value>)
    requires t.Valid()
    modifies t, t.arena
    ensures t.Valid() && |results| == calls && |values| == Successes(results)
    ensures Decode(old(t.Input()), |values|).Decoded? && Decode(old(t.Input()), |values|).values == values
    ensures t.error == NoError ==> t.Input() == old(t.Input())[Decode(old(t.Input()), |values|).size..]
    ensures old(t.Unhindered()) && EachRoomy(t, old(t.Input()), calls) ==> Tells(results, old(t.Input()), t.poolCount)
  {
    ghost var input, unhindered := t.Input(), t.Unhindered() && EachRoomy(t, t.Input(), calls);
    hide Decode, Yielded, Tells, Successes, EachRoomy, Tree.Ready, Tree.Tame, Tree.Prompt, Tree.Unhindered;
    results, values := [], [];
    NothingTold(input, t.poolCount);
    YieldedAtStart(t, unhindered);
    while |results| < calls
      invariant t.Valid() && (t.arena == old(t.arena) || fresh(t.arena)) && |results| <= calls
      invariant |results| >= |values| == Successes(results) && (unhindered ==> EachRoomy(t, input, calls))
      invariant Yielded(t, input, |results|, values, unhindered)
      invariant unhindered ==> Tells(results, input, t.poolCount)
      decreases calls - |results|
    {
      ghost var more;
      var ok;
      if unhindered { RoomyNext(t, input, calls, |values|); }
      ok, more := NextMessage(t, input, |results|, values, unhindered);
      TellsMore(results, ok, input, t.poolCount);
      results, values := results + [ok], more;
    }
    YieldedValues(t, input, calls, values, unhindered);
  }

  /** `bytes` begin with `n` messages, and none has more nodes than the pool, if there is one. */
  ghost predicate Messages(bytes: bytes, n: nat, pool: nat) {
    var d := Decode(bytes, n);
    d.Decoded? && forall v | v in d.values :: pool > 0 ==> NodeCount(v) <= pool
  }

  /** Message number `n` of the input, if there is one, gets through however the bytes come in. */
  ghost predicate NextRoomy(t: Tree, input: bytes, n: nat) {
    var before, d := Decode(input, n), Decode(input, n + 1);
    t.hasRead && before.Decoded? && d.Decoded? ==> d.size >= before.size && t.Room(d.size - before.size)
  }

  ghost predicate EachRoomy(t: Tree, input: bytes, n: nat) {
    forall i | 0 <= i < n :: NextRoomy(t, input, i)
  }

  lemma RoomyNext(t: Tree, input: bytes, n: nat, i: nat)
    requires EachRoomy(t, input, n) && i < n
    ensures NextRoomy(t, input, i)
  {
  }

  /** The results tell whether the input holds one message, two messages, and so on. */
  ghost predicate Tells(results: seq<bool>, input: bytes, pool: nat) {
    forall i | 0 <= i < |results| :: results[i] <==> Messages(input, i + 1, pool)
  }

  lemma NothingTold(input: bytes, pool: nat)
    ensures Tells([], input, pool) && Successes([]) == 0
  {
  }

  lemma TellsMore(results: seq<bool>, ok: bool, input: bytes, pool: nat)
    ensures Successes(results + [ok]) == Successes(results) + if ok then 1 else 0
    ensures Tells(results, input, pool) && (ok <==> Messages(input, |results| + 1, pool)) ==>
      Tells(results + [ok], input, pool)
  {
    hide Decode, Messages;
    assert (results + [ok])[..|results|] == results;
  }

  /** `values` are what `n` calls have found in `input`. */
  ghost predicate Yielded(t: Tree, input: bytes, n: nat, values: seq<Value>, unhindered: bool)
    reads t, t.arena
  {
    && t.Valid() && |values| <= n
    && Decode(input, |values|).Decoded? && Decode(input, |values|).values == values
    && (t.error == NoError ==> t.Input() == input[Decode(input, |values|).size..])
    && (unhindered ==> Messages(input, |values|, t.poolCount)) && (unhindered && t.error == NoError ==> t.Unhindered())
    && (unhindered && (|values| < n || t.error != NoError) ==> !Messages(input, |values| + 1, t.poolCount))
  }

  lemma YieldedAtStart(t: Tree, unhindered: bool)
    requires t.Valid() && (unhindered ==> t.Unhindered())
    ensures Yielded(t, t.Input(), 0, [], unhindered)
  {
    hide Decode, Tree.Ready, Tree.Tame, Tree.Prompt;
    DecodeUnfold(t.Input(), 0);
    assert t.Input()[0..] == t.Input();
  }

  lemma YieldedValues(t: Tree, input: bytes, n: nat, values: seq<Value>, unhindered: bool)
    requires Yielded(t, input, n, values, unhindered)
    ensures Decode(input, |values|).Decoded? && Decode(input, |values|).values == values
    ensures t.error == NoError ==> t.Input() == input[Decode(input, |values|).size..]
  {
  }

  method NextMessage(t: Tree, ghost input: bytes, ghost n: nat, ghost values: seq<Value>, ghost unhindered: bool)
    returns (ok: bool, ghost more: seq<Value>)
    requires Yielded(t, input, n, values, unhindered) && (unhindered ==> NextRoomy(t, input, |values|))
    modifies t, t.arena
    ensures t.Valid() && (t.arena == old(t.arena) || fresh(t.arena))
    ensures Yielded(t, input, n + 1, more, unhindered) && |more| == |values| + if ok then 1 else 0
    ensures unhindered ==> (ok <==> Messages(input, n + 1, t.poolCount))
  {
    hide Decode, Denotes, Messages, Tree.Ready, Tree.Tame, Tree.Prompt, Tree.Parsable, Tree.Roomy, NextRoomy;
    ghost var before := t.Input();
    MessageAppend(input, values, before);
    MessagesAppend(t, input, |values|, before, n);
    more := values;
    ok := t.TryParse();
    if ok {
      more := values + Decode(before, 1).values;
    }
  }

  /** The message behind `values`. */
  lemma MessageAppend(input: bytes, values: seq<Value>, before: bytes)
    requires Decode(input, |values|).Decoded? && Decode(input, |values|).values == values
    ensures before == input[Decode(input, |values|).size..] && Decode(before, 1).Decoded? ==>
      var d := Decode(input, |values| + 1);
      && d.Decoded? && d.values == values + Decode(before, 1).values
      && input[d.size..] == before[Decode(before, 1).size..]
  {
    hide Decode;
    DecodeAppend(input, |values|, 1);
    if before == input[Decode(input, |values|).size..] && Decode(before, 1).Decoded? {
      DropDrop(input, Decode(input, |values|).size, Decode(before, 1).size);
    }
  }

  /** Whether one more message is there, and what follows for `n` messages when it is not. */
  lemma MessagesAppend(t: Tree, input: bytes, k: nat, before: bytes, n: nat)
    requires Decode(input, k).Decoded?
    ensures before == input[Decode(input, k).size..] ==>
      (Messages(input, k + 1, t.poolCount) <==> Messages(input, k, t.poolCount) && t.Parsable(before))
    ensures n >= k && !Messages(input, k + 1, t.poolCount) ==> !Messages(input, n + 1, t.poolCount)
    ensures before == input[Decode(input, k).size..] && NextRoomy(t, input, k) ==> t.Roomy(before)
  {
    hide Decode, NodeCount;
    DecodeAppend(input, k, 1);
    if n >= k { DecodeAppend(input, k + 1, n - k); }
  }

  /** The first node takes more bytes than there are: more than two to the 31 with those read up to then,
      and the size limit lets it. All of the header has been read, but for the type of an ext. */
  predicate NeverEnds(bytes: bytes, maxSize: nat) {
    var h := ParseTag(bytes);
    && h.Header?
    && var need := h.size - 1 + PayloadSize(h.tag) + ChildCount(h.tag);
       && need >= |bytes| && h.size - (if h.tag.Ext? then 1 else 0) + need > 0x8000_0000 && |bytes| + need <= maxSize
  }

  lemma SomethingEnds(bytes: bytes, maxSize: nat)
    requires NeverEnds(bytes, maxSize)
    ensures bytes != [] && maxSize > 0
  {
  }

  /** A bin of which only the header is there. */
  const HUGE_BIN: bytes := [0xc6, 0x7f, 0xff, 0xff, 0xf8]

  /** Such input exists exactly for size limits beyond two to the 31. */
  lemma BeyondTwoToThe31(maxSize: u32)
    ensures (exists input: bytes :: NeverEnds(input, maxSize)) <==> maxSize > 0x8000_0000
    ensures NeverEnds(HUGE_BIN, maxSize) <==> maxSize > 0x8000_0000
  {
    assert HUGE_BIN[1..] == [0x7f, 0xff, 0xff, 0xf8];
    assert ParseTag(HUGE_BIN) == Header(Bin(0x7fff_fff8), 5);
    if maxSize > 0x8000_0000 {
      assert NeverEnds(HUGE_BIN, maxSize);
    }
  }

  /** A stream that delivers this header at once, with memory for the asking. */
  method HugeBinStream(maxSize: u32) returns (t: Tree)
    requires maxSize > 0x8000_0000
    ensures fresh(t) && fresh(t.arena) && t.Valid() && t.error == NoError && t.hasRead && t.state != InProgress
    ensures t.Prompt() && t.Input() == HUGE_BIN && NeverEnds(t.Input(), t.maxSize)
  {
    BeyondTwoToThe31(maxSize);
    hide NeverEnds, Tree.Ready;
    t := new Tree.FromStream(HUGE_BIN, [], maxSize, []);
    assert t.Input() == HUGE_BIN;
  }

  /** On it the call never returns, whatever size limit beyond two to the 31 the tree has. */
  method ParseHugeBin(maxSize: u32) returns (t: Tree)
    requires maxSize > 0x8000_0000
    ensures fresh(t) && t.error == NoReturn
  {
    hide *;
    t := HugeBinStream(maxSize);
    var ok := t.TryParse();
  }

  /** A short str of which `n` bytes have been read: with the bytes it takes, of which these are a part, they
      exceed the size limit. */
  predicate Swells(bytes: bytes, n: nat, maxSize: nat) {
    && 1 <= n <= |bytes| && 0xa0 <= bytes[0] < 0xc0
    && bytes[0] - 0xa0 >= n && maxSize < n + bytes[0] as int - 0xa0 <= SIZE_MAX
  }

  /** A stream that delivers a short str but for its last byte, and then that byte. The str is within the size
      limit. */
  method SplitStream(body: bytes, maxSize: u32) returns (t: Tree)
    requires 2 <= |body| <= 31 && |body| + 1 <= maxSize
    ensures fresh(t) && fresh(t.arena) && t.Valid() && t.error == NoError && t.hasRead && t.Starting()
    ensures t.Input() == t.stream == [0xa0 + |body|] + body && t.maxSize == maxSize
    ensures Swells(t.stream, t.FirstRead(), maxSize) <==> maxSize < 2 * |body|
    ensures t.Parsable(t.Input()) && Decode(t.Input(), 1).size == |body| + 1
    ensures 2 * |body| <= maxSize ==> t.Roomy(t.Input())
  {
    hide Decode, Tree.Ready;
    ghost var s := [(0xa0 + |body|) as byte] + body;
    t := new Tree.FromStream([0xa0 + |body|] + body, [Deliver(|body|), Deliver(1)], maxSize, []);
    assert t.Input() == s == t.stream && t.FirstRead() == |body|;
    assert forall e | e in t.events :: e == Deliver(|body|) || e == Deliver(1);
    ShortStr(body);
  }

  lemma ShortStr(body: bytes)
    requires |body| <= 31
    ensures Decode([(0xa0 + |body|) as byte] + body, 1) == Decoded([Value(Str(|body|), body, [])], |body| + 1)
  {
    var v := Value(Str(|body|), body, []);
    EncodedShortStr(body);
    hide *;
    EncodedOne(v);
  }

  lemma EncodedShortStr(body: bytes)
    requires |body| <= 31
    ensures var v := Value(Str(|body|), body, []);
      WellFormed(v) && CanonValue(v) == v && Encode(v) == [(0xa0 + |body|) as byte] + body
  {
  }

  /** Whether the str is parsed or found too big depends on how its bytes come in: cut like this, it is found
      too big unless twice its payload is within the limit. */
  method ParseSplit(body: bytes, maxSize: u32) returns (t: Tree)
    requires 2 <= |body| <= 31 && |body| + 1 <= maxSize
    ensures fresh(t) && t.error == if 2 * |body| <= maxSize then NoError else TooBig
  {
    t := SplitStream(body, maxSize);
    hide Swells, Decode, Tree.Ready, Tree.Tame, Tree.Prompt, Tree.Parsable, Tree.Roomy;
    assert t.Tame() by { t.PromptIsTame(); }
    var ok := t.TryParse();
  }

  /** A sum of two sizes. */
  function Sum32(a: nat, b: nat): u32 {
    (a + b) % 0x1_0000_0000
  }

  lemma SmallSum(a: nat, b: nat)
    ensures a + b <= SIZE_MAX ==> Sum32(a, b) as int == a + b
  {
  }

  /** Every call of the read function between the two has delivered bytes, or none yet. */
  predicate Delivered(before: seq<ReadEvent>, after: seq<ReadEvent>) {
    && |after| <= |before| && after == before[|before| - |after|..]
    && forall i | 0 <= i < |before| - |after| :: before[i].Deliver?
  }

  lemma EmptyIsMalformed()
    ensures Decode([], 1).Malformed?
  {
  }

  /** Headers of one byte without children. */
  lemma FixedHeader(s: bytes)
    requires s != []
    ensures s[0] < 0x80 ==> ParseTag(s) == Header(Uint(s[0]), 1)
    ensures s[0] >= 0xe0 ==> ParseTag(s) == Header(Int(I8OfU8(s[0])), 1)
    ensures s[0] == 0xc0 ==> ParseTag(s) == Header(Nil, 1)
    ensures s[0] == 0xc2 ==> ParseTag(s) == Header(Bool(false), 1)
    ensures s[0] == 0xc3 ==> ParseTag(s) == Header(Bool(true), 1)
  {
  }

  /** The nodes below an array or map. */
  function Elements(isMap: bool, len: u32): nat { if isMap then 2 * len else len }

  predicate ShortBlobOpcode(op: byte, kind: BlobKind, len: u32) {
    || (kind == StrNode && 0xa0 <= op < 0xc0 && len == op - 0xa0)
    || (kind == ExtNode && (op, len) in {(0xd4, 1), (0xd5, 2), (0xd6, 4), (0xd7, 8), (0xd8, 16)})
  }

  lemma ShortBlobHeader(s: bytes, kind: BlobKind, len: u32)
    requires s != [] && ShortBlobOpcode(s[0], kind, len)
    ensures ParseTag(s).Header? <==> |s| > ExtByte(kind)
    ensures ParseTag(s).Header? ==>
      ParseTag(s).size == 1 + ExtByte(kind) && Matches(Blob(kind, len, 0), ParseTag(s).tag, 0, 0)
  {
  }

  lemma ShortContainerHeader(s: bytes, isMap: bool, len: u32)
    requires s != [] && len < 16 && s[0] as int == (if isMap then 0x80 else 0x90) + len
    ensures ParseTag(s) == Header(if isMap then Map(len) else Array(len), 1)
  {
  }

  lemma LongContainerHeader(s: bytes, isMap: bool, k: nat)
    requires s != [] && k in {2, 4} && s[0] as int == (if isMap then 0xde else 0xdc) + (if k == 4 then 1 else 0)
    ensures ParseTag(s).Header? <==> |s| > k
    ensures |s| > k ==> var n := Field(s[1..], k); ParseTag(s) == Header(if isMap then Map(n) else Array(n), k + 1)
  {
  }

  function Field(s: bytes, k: nat): (v: u64)
    requires k in {1, 2, 4, 8} && |s| >= k
    ensures (k == 1 ==> v <= 0xFF) && (k == 2 ==> v <= 0xFFFF) && (k == 4 ==> v <= 0xFFFF_FFFF)
  {
    if k == 1 then s[0] else if k == 2 then LoadU16(s) else if k == 4 then LoadU32(s) else LoadU64(s)
  }

  lemma FieldPrefix(s: bytes, t: bytes, k: nat)
    requires k in {1, 2, 4, 8} && k <= |s| && s <= t
    ensures Field(s, k) == Field(t, k)
  {
  }

  lemma FieldBehind(s: bytes, t: bytes, i: nat, k: nat)
    requires k in {1, 2, 4, 8} && i + k < |s| && s <= t
    ensures Field(s[i..][1..], k) == Field(t[i..][1..], k)
  {
    hide Field;
    assert s[i..][1..] <= t[i..][1..];
    FieldPrefix(s[i..][1..], t[i..][1..], k);
  }

  /** The type byte of an ext. */
  function ExtByte(kind: BlobKind): nat { if kind == ExtNode then 1 else 0 }

  predicate LongBlobOpcode(op: byte, kind: BlobKind, k: nat) {
    match kind
    case StrNode => (k == 1 && op == 0xd9) || (k == 2 && op == 0xda) || (k == 4 && op == 0xdb)
    case BinNode => (k == 1 && op == 0xc4) || (k == 2 && op == 0xc5) || (k == 4 && op == 0xc6)
    case ExtNode => (k == 1 && op == 0xc7) || (k == 2 && op == 0xc8) || (k == 4 && op == 0xc9)
  }

  lemma LongBlobHeader(s: bytes, kind: BlobKind, k: nat)
    requires s != [] && k in {1, 2, 4} && LongBlobOpcode(s[0], kind, k)
    ensures ParseTag(s).Header? <==> |s| > k + ExtByte(kind)
    ensures ParseTag(s).Header? ==>
      && ParseTag(s).size == k + 1 + ExtByte(kind)
      && Matches(Blob(kind, Field(s[1..], k), 0), ParseTag(s).tag, 0, 0)
  {
  }

  predicate NumberOpcode(op: byte, k: nat) {
    || (k == 1 && op in {0xcc, 0xd0})
    || (k == 2 && op in {0xcd, 0xd1})
    || (k == 4 && op in {0xca, 0xce, 0xd2})
    || (k == 8 && op in {0xcb, 0xcf, 0xd3})
  }

  /** The number a field of `k` bytes holds under the first byte `op`. */
  function NumberTag(op: byte, k: nat, v: u64): Tag
    requires NumberOpcode(op, k) && (k == 1 ==> v <= 0xFF) && (k == 2 ==> v <= 0xFFFF) && (k == 4 ==> v <= 0xFFFF_FFFF)
  {
    if op == 0xca then Float(v)
    else if op == 0xcb then Double(v)
    else if op <= 0xcf then Uint(v)
    else if op == 0xd0 then Int(I8OfU8(v))
    else if op == 0xd1 then Int(I16OfU16(v))
    else if op == 0xd2 then Int(I32OfU32(v))
    else Int(I64OfU64(v))
  }

  lemma NumberHeader(s: bytes, k: nat)
    requires s != [] && NumberOpcode(s[0], k)
    ensures ParseTag(s).Header? <==> |s| > k
    ensures |s| > k ==> ParseTag(s) == Header(NumberTag(s[0], k, Field(s[1..], k)), k + 1) && IsScalar(ParseTag(s).tag)
  {
  }
}
