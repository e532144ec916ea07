/** The buffered writer of mpack-writer.c with write tracking on. */
module Writers {
  import opened Bytes
  import opened Doubling
  import opened Errors
  import opened Memory
  import opened Tags
  import opened Track
  import opened Timestamps
  import opened TrackedRuns
  import Utf8

  /** What happens when the buffer is full: nothing, the intrusive growing flush, or a flush that
      passes the bytes on to a stream. */
  datatype FlushFn = NoFlush | Growable | ToStream

  const BUFFER_SIZE := 4096
  const MINIMUM_BUFFER_SIZE := 32
  const TRACKING_INITIAL_CAPACITY := 8

  /** The largest buffer that doubling can reach in 32 bits. */
  const LARGEST := 0x8000_0000

  class Writer {
    var flush: FlushFn
    var buffer: array<byte>
    var current: nat
    var error: Error
    var track: Stack
    var trackCapacity: nat
    var sink: bytes
    /** Results of the calls still to come into the allocator or the stream; true is success. */
    var outcomes: seq<bool>
    /** Bytes moved by growing the buffer, over the life of the writer. */
    ghost var copied: nat

    ghost predicate Valid()
      reads this
    {
      && current <= buffer.Length
      && (flush != NoFlush ==> buffer.Length >= MINIMUM_BUFFER_SIZE)
      && (flush == Growable ==> sink == [] && PowerOfTwo(buffer.Length) && buffer.Length <= LARGEST)
      && |track| <= trackCapacity && trackCapacity > 0
    }

    /** Everything written so far. */
    ghost function Output(): bytes
      reads this, buffer
      requires Valid()
    {
      sink + buffer[..current]
    }

    /** The growable writer as long as nothing has failed and no allocation is going to. */
    ghost predicate Healthy()
      reads this
    {
      error == NoError && flush == Growable && forall b | b in outcomes :: b
    }

    /** The amortised bounds of the growable writer. */
    ghost predicate Frugal()
      reads this
    {
      && flush == Growable
      && (buffer.Length == BUFFER_SIZE || buffer.Length < 2 * current)
      && copied + BUFFER_SIZE <= buffer.Length
    }

    /** mpack_writer_init, with the flush function of mpack_writer_set_flush. The first outcome is that of
        the allocation of the track stack. */
    constructor (block: array<byte>, flush: FlushFn, outcomes: seq<bool>)
      requires flush != NoFlush ==> block.Length >= MINIMUM_BUFFER_SIZE
      requires flush == Growable ==> PowerOfTwo(block.Length) && block.Length <= LARGEST
      ensures Valid() && buffer == block && current == 0 && track == [] && trackCapacity == 8 && sink == []
      ensures error == if outcomes != [] && !outcomes[0] then Error.Memory else NoError
      ensures this.flush == flush && this.outcomes == (if outcomes == [] then [] else outcomes[1..]) && copied == 0
    {
      this.flush := flush;
      buffer, current := block, 0;
      error := if outcomes != [] && !outcomes[0] then Error.Memory else NoError;
      track, trackCapacity, sink := [], TRACKING_INITIAL_CAPACITY, [];
      this.outcomes, copied := if outcomes == [] then [] else outcomes[1..], 0;
    }

    /** mpack_writer_init_error */
    constructor Failed(e: Error, outcomes: seq<bool>)
      requires e != NoError
      ensures Valid() && fresh(buffer) && current == 0 && error == e && track == [] && sink == [] && flush == NoFlush
      ensures this.outcomes == outcomes && copied == 0
    {
      flush := NoFlush;
      buffer, current, error := new byte[0], 0, e;
      track, trackCapacity, sink := [], TRACKING_INITIAL_CAPACITY, [];
      this.outcomes, copied := outcomes, 0;
    }

    // -------------------------------------------------------------------------------------------
    // Errors and tracking

    method FlagError(e: Error)
      requires Valid()
      modifies this`error
      ensures Valid() && error == if old(error) == NoError then e else old(error)
    {
      if error == NoError { error := e; }
    }

    /** One call into the allocator or the stream. */
    method NextOutcome() returns (ok: bool)
      requires Valid()
      modifies this`outcomes
      ensures Valid() && outcomes == (if old(outcomes) == [] then [] else old(outcomes)[1..])
      ensures ok == (old(outcomes) == [] || old(outcomes)[0])
      ensures (forall b | b in outcomes :: b in old(outcomes)) && (!ok ==> false in old(outcomes))
    {
      if outcomes == [] { return true; }
      ok := outcomes[0];
      outcomes := outcomes[1..];
    }

    method TrackElement()
      requires Valid()
      modifies this`error, this`track
      ensures Valid()
      ensures old(error) != NoError ==> error == old(error) && track == old(track)
      ensures old(error) == NoError ==> (error == NoError <==> Element(old(track)).Tracked?)
      ensures error == NoError ==> track == Element(old(track)).stack
    {
      if error == NoError {
        if CanElement(track) {
          track := Element(track).stack;
        } else {
          FlagError(Bug);
        }
      }
    }

    method TrackBytes(n: nat)
      requires Valid()
      modifies this`error, this`track
      ensures Valid()
      ensures old(error) != NoError ==> error == old(error) && track == old(track)
      ensures old(error) == NoError ==> (error == NoError <==> TakeBytes(old(track), n).Tracked?)
      ensures error == NoError ==> track == TakeBytes(old(track), n).stack
    {
      if error == NoError {
        var r := TakeBytes(track, n);
        if r.Tracked? {
          track := r.stack;
        } else {
          FlagError(Bug);
        }
      }
    }

    /** mpack_writer_track_pop, the whole of every mpack_finish call. */
    method TrackPop(kind: Kind)
      requires Valid()
      modifies this`error, this`track
      ensures Valid()
      ensures old(error) != NoError ==> error == old(error) && track == old(track)
      ensures old(error) == NoError ==> (error == NoError <==> Pop(old(track), kind).Tracked?)
      ensures error == NoError ==> track == Pop(old(track), kind).stack
    {
      if error == NoError {
        var r := Pop(track, kind);
        if r.Tracked? {
          track := r.stack;
        } else {
          FlagError(Bug);
        }
      }
    }

    method TrackPush(kind: Kind, count: nat)
      requires Valid()
      modifies this`error, this`track, this`trackCapacity, this`outcomes
      ensures Valid()
      ensures old(error) != NoError ==> error == old(error)
      ensures error == NoError ==> track == Push(old(track), kind, count)
      ensures trackCapacity == old(trackCapacity) || trackCapacity == 2 * old(trackCapacity)
      ensures old(Healthy()) ==> Healthy()
    {
      if error != NoError { return; }
      if |track| >= trackCapacity {
        var ok := NextOutcome();
        if !ok {
          FlagError(Error.Memory);
          return;
        }
        trackCapacity := 2 * trackCapacity;
      }
      track := Push(track, kind, count);
    }

    // -------------------------------------------------------------------------------------------
    // Flushing

    /** The reallocation in mpack_growable_writer_flush: the buffer at least doubles, so that
        `count` bytes fit behind the first `used`. Where two to the 31 is not enough, the loop of the
        code comes to zero and stays there. The bytes to write and the buffer lie in one address space,
        which is why the sum of the two counts does not wrap. */
    method Grow(used: nat, count: nat)
      requires Valid() && error == NoError && flush == Growable && used <= buffer.Length && used + count > 0
      modifies this`error, this`buffer, this`current, this`outcomes, this`copied
      ensures Valid() && (old(Healthy()) ==> Healthy() || error == NoReturn)
      ensures error == NoReturn <==> old(buffer.Length) == LARGEST || used + count > LARGEST
      ensures error != NoError ==> buffer == old(buffer) && current == old(current)
      ensures error == NoError ==> fresh(buffer) && current == used && buffer[..used] == old(buffer[..used])
      ensures error == NoError ==> used + count <= buffer.Length && copied == old(copied) + used
      ensures error == NoError ==> buffer.Length == Grown(2 * old(buffer.Length), used + count)
    {
      DoublePower(buffer.Length);
      var size := Double32(buffer.Length);
      if size > 0 { size := DoubleUntil(size, used + count); }
      if size == 0 {
        FlagError(NoReturn);
        return;
      }
      var ok := NextOutcome();
      if !ok {
        FlagError(Error.Memory);
        return;
      }
      var bigger := new byte[size](_ => 0);
      Memcpy(bigger, 0, buffer[..used]);
      buffer, current, copied := bigger, used, copied + used;
    }

    /** mpack_growable_writer_flush called on the buffer. A call that finds the bytes still in use
        is taken for the flush of a teardown and does nothing. */
    method GrowableFlushBuffer(count: nat)
      requires Valid() && flush == Growable && error == NoError
      requires count <= buffer.Length && current in {0, count}
      modifies this`error, this`buffer, this`current, this`outcomes, this`copied
      ensures Valid() && (old(Healthy()) ==> Healthy() || error == NoReturn)
      ensures error == NoReturn <==> old(current) != count && old(buffer.Length) == LARGEST
      ensures current == count && (error == NoError ==> buffer[..count] == old(buffer[..count]))
      ensures old(current) == count ==> error == NoError && buffer == old(buffer) && copied == old(copied)
      ensures buffer == old(buffer) || fresh(buffer)
      ensures error == NoError && old(current) != count ==>
        fresh(buffer) && buffer.Length == 2 * old(buffer.Length) && copied == old(copied) + count
    {
      if current == count { return; }
      current := count;
      Grow(count, 0);
    }

    /** mpack_growable_writer_flush called on data that is not in the buffer and does not fit. */
    method GrowableFlushExtra(data: bytes)
      requires Valid() && flush == Growable && error == NoError
      requires current + |data| > buffer.Length
      modifies this`error, this`buffer, this`current, this`outcomes, this`copied
      ensures Valid() && (old(Healthy()) ==> Healthy() || error == NoReturn)
      ensures error == NoReturn <==> old(current) + |data| > LARGEST
      ensures buffer == old(buffer) || fresh(buffer)
      ensures error == NoError ==> fresh(buffer) && buffer[..current] == old(buffer[..current]) + data
      ensures error == NoError ==> 2 * old(buffer.Length) <= buffer.Length < 2 * current
      ensures error == NoError ==> copied == old(copied) + old(current)
    {
      var used := current;
      DoublePower(buffer.Length);
      Grow(used, |data|);
      if error != NoError { return; }
      Memcpy(buffer, used, data);
      current := used + |data|;
    }

    /** A flush function that passes bytes on. */
    method StreamFlush(data: bytes)
      requires Valid() && flush == ToStream && error == NoError
      modifies this`error, this`sink, this`outcomes
      ensures Valid() && (error == NoError ==> sink == old(sink) + data) && error != NoReturn
      ensures error == NoError <==> old(outcomes) == [] || old(outcomes)[0]
    {
      var ok := NextOutcome();
      if ok {
        sink := sink + data;
      } else {
        FlagError(Io);
      }
    }

    /** mpack_writer_flush_unchecked. The used count is reset before the flush function runs. */
    method FlushUnchecked()
      requires Valid() && flush != NoFlush && error == NoError
      modifies this`error, this`buffer, this`current, this`outcomes, this`copied, this`sink
      ensures Valid() && (old(Healthy()) ==> Healthy() || error == NoReturn) && (buffer == old(buffer) || fresh(buffer))
      ensures error == NoReturn <==> flush == Growable && old(current) > 0 && old(buffer.Length) == LARGEST
      ensures flush == ToStream ==> (error == NoError <==> old(outcomes) == [] || old(outcomes)[0])
      ensures error == NoError ==> Output() == old(Output())
      ensures error == NoError && flush == ToStream ==> current == 0 && buffer == old(buffer)
      ensures error == NoError && flush == Growable ==>
        && current == old(current) && sink == old(sink)
        && (if current == 0 then buffer == old(buffer) && copied == old(copied)
            else buffer.Length == 2 * old(buffer.Length) && copied == old(copied) + current)
    {
      var used := current;
      current := 0;
      if flush == Growable {
        GrowableFlushBuffer(used);
      } else {
        StreamFlush(buffer[..used]);
      }
    }

    /** mpack_writer_ensure */
    method Ensure(count: nat) returns (ok: bool)
      requires Valid() && 0 < count <= MINIMUM_BUFFER_SIZE && current + count > buffer.Length
      modifies this`error, this`buffer, this`current, this`outcomes, this`copied, this`sink
      ensures Valid() && (buffer == old(buffer) || fresh(buffer))
      ensures old(Healthy()) ==> if old(current) + count <= LARGEST then Healthy() else error == NoReturn
      ensures old(error) != NoError ==> error == old(error)
      ensures ok <==> error == NoError
      ensures old(error) == NoError && flush == NoFlush ==> error == TooBig
      ensures ok ==> current + count <= buffer.Length && Output() == old(Output())
      ensures ok && old(Frugal()) ==>
        && current == old(current) && sink == []
        && buffer.Length == 2 * old(buffer.Length) && copied == old(copied) + current
    {
      if error != NoError { return false; }
      if flush == NoFlush {
        FlagError(TooBig);
        return false;
      }
      FlushUnchecked();
      if error != NoError { return false; }
      if current + count <= buffer.Length { return true; }
      FlagError(Io);
      return false;
    }

    // -------------------------------------------------------------------------------------------
    // Writing

    /** What a write does: unless an error is flagged, `data` has been appended to the output and
        the track stack has gone to `t`. A healthy growable writer flags an error only when the
        tracker objects or the output exceeds two to the 31 bytes, and its amortised bounds survive. */
    twostate predicate Wrote(t: Tracked, data: bytes)
      reads this, buffer
    {
      && Valid() && (buffer == old(buffer) || fresh(buffer)) && flush == old(flush)
      && (old(error) != NoError ==> error == old(error))
      && (old(Valid()) && error == NoError ==> t == Tracked(track) && Output() == old(Output()) + data)
      && (old(Valid() && Healthy()) && t.Tracked? ==>
            if |old(Output())| + |data| <= LARGEST then Healthy() else error == NoReturn)
      && (error == NoError && old(Frugal()) ==> Frugal())
    }

    /** Bytes that are known to fit. */
    method Append(p: bytes)
      requires Valid() && current + |p| <= buffer.Length
      modifies this`current, buffer
      ensures Wrote(Tracked(track), p)
    {
      hide Overwritten;
      OverwrittenPrefix(buffer[..], current, p);
      Memcpy(buffer, current, p);
      current := current + |p|;
    }

    /** The macro MPACK_WRITE_ENCODED. With room in the buffer it does not look at the error. */
    method WriteEncoded(enc: bytes)
      requires Valid() && 0 < |enc| <= MINIMUM_BUFFER_SIZE
      modifies this`error, this`buffer, this`current, this`outcomes, this`copied, this`sink, buffer
      ensures Wrote(Tracked(track), enc)
    {
      if current + |enc| > buffer.Length {
        var ok := Ensure(|enc|);
        if !ok { return; }
      }
      Append(enc);
    }

    /** mpack_write_native_straddle */
    method WriteNativeStraddle(p: bytes)
      requires Valid() && current + |p| > buffer.Length
      modifies this`error, this`buffer, this`current, this`outcomes, this`copied, this`sink, buffer
      ensures Wrote(Tracked(track), p)
      ensures old(error) == NoError && flush == NoFlush ==> error == TooBig
    {
      if error != NoError { return; }
      if flush == NoFlush {
        FlagError(TooBig);
        return;
      }
      FlushUnchecked();
      if error != NoError { return; }
      if current + |p| > buffer.Length {
        if flush == Growable {
          GrowableFlushExtra(p);
        } else {
          StreamFlush(p);
        }
      } else {
        Append(p);
      }
    }

    /** mpack_write_native */
    method WriteNative(p: bytes)
      requires Valid()
      modifies this`error, this`buffer, this`current, this`outcomes, this`copied, this`sink, buffer
      ensures Wrote(Tracked(track), p)
    {
      if current + |p| > buffer.Length {
        WriteNativeStraddle(p);
      } else {
        Append(p);
      }
    }

    // -------------------------------------------------------------------------------------------
    // The write functions

    /** A header under its own track_element: the scalar writers. */
    method WriteScalar(t: Tag)
      requires Valid() && t != Tag.Missing && !IsCompound(t)
      modifies this, buffer
      ensures Wrote(Element(old(track)), EncodeTag(t))
    {
      TrackElement();
      EncodedTagSize(t);
      hide EncodeTag;
      WriteEncoded(EncodeTag(t));
    }

    /** mpack_start_array, mpack_start_map, mpack_start_str, mpack_start_bin and mpack_start_ext. */
    method Start(t: Tag)
      requires Valid() && IsCompound(t)
      modifies this, buffer
      ensures Wrote(OpenElement(old(track), t), EncodeTag(t))
    {
      EncodedTagSize(t);
      hide EncodeTag, KindOf, CountOf, Element, CanElement;
      TrackElement();
      WriteEncoded(EncodeTag(t));
      TrackPush(KindOf(t), CountOf(t));
    }

    /** mpack_write_bytes */
    method WriteBytes(data: bytes)
      requires Valid()
      modifies this, buffer
      ensures Wrote(TakeBytes(old(track), |data|), data)
    {
      TrackBytes(|data|);
      WriteNative(data);
    }

    /** Every mpack_finish function. */
    method Finish(kind: Kind)
      requires Valid()
      modifies this
      ensures Wrote(Pop(old(track), kind), [])
    {
      TrackPop(kind);
      assert Output() + [] == Output();
    }

    /** mpack_write_tag. There is no way to write the missing tag. */
    method WriteTag(t: Tag)
      requires Valid()
      modifies this, buffer
      ensures t == Tag.Missing ==> Valid() && error != NoError
      ensures t != Tag.Missing ==>
        Wrote(if IsCompound(t) then OpenElement(old(track), t) else Element(old(track)), EncodeTag(t))
    {
      if t == Tag.Missing {
        FlagError(Bug);
      } else if IsCompound(t) {
        Start(t);
      } else {
        WriteScalar(t);
      }
    }

    /** A str header and the data behind it, in two pieces. */
    method WriteStrParts(count: u32, data: bytes)
      requires Valid() && |data| == count
      modifies this`error, this`buffer, this`current, this`outcomes, this`copied, this`sink, buffer
      ensures Wrote(Tracked(track), EncodeTag(Str(count)) + data)
    {
      EncodedTagSize(Str(count));
      hide EncodeTag;
      ghost var before := Output();
      WriteEncoded(EncodeTag(Str(count)));
      WriteNative(data);
      assert (before + EncodeTag(Str(count))) + data == before + (EncodeTag(Str(count)) + data);
    }

    /** mpack_write_str: headers that fit together with the data are written in one piece. */
    method WriteStr(data: bytes)
      requires Valid() && |data| <= SIZE_MAX
      modifies this, buffer
      ensures Wrote(Element(old(track)), EncodeTag(Str(|data|)) + data)
    {
      hide Element, CanElement;
      TrackElement();
      var count: u32 := |data|;
      if count <= 31 {
        WriteEncoded(EncodeFixstr(count) + data);
      } else if count <= 0xFF && count + 2 <= buffer.Length - current {
        Append(EncodeStr8(count) + data);
      } else {
        WriteStrParts(count, data);
      }
    }

    /** mpack_write_bin and mpack_write_ext: open, write the bytes, close. */
    method WriteBlob(t: Tag, data: bytes)
      requires Valid() && (t.Bin? || t.Ext?) && t.l == |data|
      modifies this, buffer
      ensures Wrote(Element(old(track)), EncodeTag(t) + data)
    {
      hide EncodeTag, OpenElement, TakeBytes, Pop, Element, KindOf;
      BlobTrack(track, t);
      ghost var before := Output();
      Start(t);
      WriteBytes(data);
      Finish(KindOf(t));
      assert (before + EncodeTag(t)) + data + [] == before + (EncodeTag(t) + data);
    }

    /** mpack_write_utf8: text that is not well formed is refused. */
    method WriteUtf8(data: bytes)
      requires Valid() && |data| <= SIZE_MAX
      modifies this, buffer
      ensures Utf8.Valid(data, true) ==> Wrote(Element(old(track)), EncodeTag(Str(|data|)) + data)
      ensures !Utf8.Valid(data, true) ==> Valid() && error != NoError && Output() == old(Output())
      ensures !Utf8.Valid(data, true) && old(error) == NoError ==> error == Invalid
    {
      var ok := Utf8.Check(data, true);
      if !ok {
        FlagError(Invalid);
        return;
      }
      WriteStr(data);
    }

    /** mpack_write_timestamp */
    method WriteTimestamp(seconds: i64, nanoseconds: u32)
      requires Valid()
      modifies this, buffer
      ensures nanoseconds <= NANOSECONDS_MAX ==> Wrote(Element(old(track)), EncodeTimestamp(seconds, nanoseconds))
      ensures nanoseconds > NANOSECONDS_MAX ==> Valid() && error != NoError && Output() == old(Output())
    {
      if nanoseconds > NANOSECONDS_MAX {
        FlagError(Bug);
        return;
      }
      TrackElement();
      WriteEncoded(EncodeTimestamp(seconds, nanoseconds));
    }

    /** mpack_writer_flush_message: nothing is lost, but the buffer may grow without need. */
    method FlushMessage()
      requires Valid()
      modifies this
      ensures Valid() && (buffer == old(buffer) || fresh(buffer))
      ensures error == NoError ==> Output() == old(Output()) && track == old(track) == []
      ensures error == NoError && flush == ToStream ==> sink == Output()
      ensures old(error) == NoError && (track != [] || flush == NoFlush) ==> error == Bug
      ensures old(error) == NoError && track == [] && flush == ToStream ==>
        (error == NoError <==> old(current) == 0 || old(outcomes) == [] || old(outcomes)[0])
      ensures old(Healthy()) && track == [] ==>
        if old(current) == 0 || old(buffer.Length) < LARGEST then Healthy() else error == NoReturn
    {
      if error != NoError { return; }
      if track != [] {
        FlagError(Bug);
        return;
      }
      if flush == NoFlush {
        FlagError(Bug);
        return;
      }
      if current > 0 {
        FlushUnchecked();
      }
    }

    /** The functions that write a header and its payload. */
    method WriteWhole(t: Tag, p: bytes)
      requires Valid() && Legal(Whole(t, p))
      modifies this, buffer
      ensures Wrote(Element(old(track)), EncodeTag(t) + p)
    {
      hide EncodeTag, Element;
      if t.Str? {
        WriteStr(p);
      } else if t.Bin? || t.Ext? {
        WriteBlob(t, p);
      } else {
        WriteScalar(t);
        assert EncodeTag(t) + p == EncodeTag(t);
      }
    }

    /** One client call. */
    method Perform(c: Call)
      requires Valid() && Legal(c)
      modifies this, buffer
      ensures Wrote(TrackCall(old(track), c), Emit(c))
    {
      match c
      case Whole(t, p) => WriteWhole(t, p);
      case Start(t) => Start(t);
      case Data(d) => WriteBytes(d);
      case Finish(k) => Finish(k);
    }

    /** Any run of client calls. */
    method Run(calls: seq<Call>)
      requires Valid() && AllLegal(calls)
      modifies this, buffer
      ensures Wrote(RunStack(old(track), calls), RunBytes(calls))
      decreases calls
    {
      hide TrackCall, Emit, Legal, AllLegal, RunStack, RunBytes, Frugal;
      RunUnfold(track, calls);
      ghost var before := Output();
      if calls == [] {
        assert Output() + [] == Output();
        return;
      }
      Perform(calls[0]);
      Run(calls[1..]);
      assert (before + Emit(calls[0])) + RunBytes(calls[1..]) == before + RunBytes(calls);
    }

    /** mpack_growable_writer_teardown: the buffer goes to the caller, shrunk when less than half of
        it is used. The block handed over is never empty. */
    method Teardown() returns (target: array?<byte>, size: nat)
      requires Valid() && flush == Growable
      modifies this`error, this`outcomes
      ensures old(error) != NoError ==> error == old(error)
      ensures error == NoError ==>
        target != null && size == current <= target.Length && target.Length > 0 && target[..size] == Output()
      ensures error == NoError ==>
        target.Length == if size >= buffer.Length / 2 then buffer.Length else if size == 0 then 1 else size
      ensures error != NoError ==> target == null && size == 0
      ensures old(Healthy()) ==> Healthy()
    {
      target, size := null, 0;
      if error != NoError { return; }
      if current < buffer.Length / 2 {
        var ok := NextOutcome();
        if !ok {
          FlagError(Error.Memory);
          return;
        }
        var shrunk := new byte[if current != 0 then current else 1](_ => 0);
        Memcpy(shrunk, 0, buffer[..current]);
        return shrunk, current;
      }
      return buffer, current;
    }

    /** mpack_writer_destroy. The result of the final track check is dropped: only the error field
        decides. `target` and `size` are what the growable teardown leaves in the caller's
        variables. */
    method Destroy() returns (result: Error, target: array?<byte>, size: nat)
      requires Valid()
      modifies this
      ensures result == error && flush == old(flush) && (old(error) != NoError ==> result == old(error))
      ensures flush == Growable && result == NoError ==>
        target != null && size <= target.Length && target[..size] == old(Output())
      ensures flush == ToStream && result == NoError ==> sink == old(Output())
      ensures result != NoError ==> target == null && size == 0
      ensures old(Healthy()) ==> Healthy()
    {
      target, size := null, 0;
      if error == NoError && current != 0 {
        if flush == Growable {
          GrowableFlushBuffer(current);
        } else if flush == ToStream {
          StreamFlush(buffer[..current]);
        }
      }
      if flush == Growable {
        target, size := Teardown();
      }
      result := error;
    }
  }

  /** mpack_writer_init_growable. Without memory for the first buffer the writer starts out in the
      memory error and has no flush function; without memory for the track stack it has one. */
  method InitGrowable(outcomes: seq<bool>) returns (w: Writer)
    ensures fresh(w) && fresh(w.buffer) && w.Valid() && w.track == [] && w.Output() == []
    ensures w.error == if false in outcomes[..if |outcomes| < 2 then |outcomes| else 2] then Error.Memory else NoError
    ensures w.flush == if outcomes != [] && !outcomes[0] then NoFlush else Growable
    ensures w.error == NoError ==> w.Frugal()
    ensures (forall b | b in outcomes :: b) ==> w.Healthy()
  {
    var rest := if outcomes == [] then [] else outcomes[1..];
    assert forall b | b in rest :: b in outcomes;
    assert rest != [] ==> rest[0] in rest;
    assert forall b | rest != [] && b in rest[1..] :: b in rest;
    if outcomes != [] && !outcomes[0] {
      assert outcomes[0] in outcomes && outcomes[..if |outcomes| < 2 then |outcomes| else 2][0] == false;
      w := new Writer.Failed(Error.Memory, rest);
      return;
    }
    assert |outcomes| >= 2 ==> outcomes[..2] == [outcomes[0], rest[0]];
    StartsAtPower();
    var block := new byte[BUFFER_SIZE](_ => 0);
    w := new Writer(block, Growable, rest);
  }

  /** A whole session with a growable writer: what the caller gets is the bytes of the calls, and
      these are complete MessagePack values exactly when no open element lacks anything. */
  method Session(calls: seq<Call>, outcomes: seq<bool>) returns (error: Error, target: array?<byte>, size: nat)
    requires AllLegal(calls)
    ensures error == NoError ==>
      && RunStack([], calls).Tracked?
      && target != null && size <= target.Length && target[..size] == RunBytes(calls)
      && ((exists n :: Complete(target[..size], n)) <==> NothingLacking(RunStack([], calls).stack))
    ensures error != NoError ==> target == null && size == 0
    ensures RunStack([], calls).Tracked? && (forall b | b in outcomes :: b) ==>
      error == if |RunBytes(calls)| <= LARGEST then NoError else NoReturn
  {
    var w := InitGrowable(outcomes);
    w.Run(calls);
    assert [] + RunBytes(calls) == RunBytes(calls);
    error, target, size := w.Destroy();
    if error == NoError {
      TrackingIsExact(calls);
    }
  }
}
