/** The buffered reader of mpack-reader.c. */
module Readers {
  import opened Bytes
  import opened Errors
  import opened Memory
  import opened Tags
  import opened Track
  import opened TrackedRuns

  /** What one call of the fill function does: deliver up to so many bytes of the source, flag an
      error of its own, or return the value -1. */
  datatype FillEvent = Deliver(n: nat) | Raise(e: Error) | MinusOne

  const MINIMUM_BUFFER_SIZE := 32
  const SMALL_FRACTION_DENOMINATOR := 32
  const TRACKING_INITIAL_CAPACITY := 8

  class Reader {
    /** The memory `data` and `end` point into: the writable buffer of `size` bytes, or constant
        data when `size` is zero. */
    const mem: array<byte>
    const size: nat
    const hasFill: bool
    const hasSkip: bool
    const hasHandler: bool
    const tracking: bool
    var data: nat
    var end: nat
    var error: Error
    var track: Stack
    var trackCapacity: nat
    /** Results of the calls to malloc for the track stack to come. */
    var grants: seq<bool>
    /** Calls of the error handler, and whether an allocating read has taken it out for now. */
    var handled: nat
    var masked: bool
    /** Bytes of the source that the fill function has not delivered yet. */
    var source: bytes
    /** The fill calls to come; when they run out, a fill delivers as much as it can. */
    var fills: seq<FillEvent>

    ghost predicate Valid()
      reads this
    {
      && data <= end <= mem.Length
      && (size == 0 || size == mem.Length)
      && (hasFill ==> size >= MINIMUM_BUFFER_SIZE)
      && handled == (if hasHandler && error != NoError && !masked then 1 else 0)
      && |track| <= trackCapacity && trackCapacity > 0
    }

    /** In an error state there is nothing left to read. */
    ghost predicate Settled()
      reads this
    {
      error != NoError ==> data == end
    }

    /** What the client has not read yet: the buffered bytes and then the source. */
    ghost function Rest(): bytes
      reads this, mem
      requires Valid()
    {
      mem[data..end] + if hasFill then source else []
    }

    /** The fill function keeps its promise to deliver at least one byte. */
    ghost predicate Reliable()
      reads this`fills
    {
      forall e | e in fills :: e.Deliver? && e.n > 0
    }

    /** There is memory for the track stack. */
    ghost predicate Granted()
      reads this`grants
    {
      forall b | b in grants :: b
    }

    /** Only the bytes themselves can make a read fail. */
    ghost predicate Dependable()
      reads this`fills, this`grants
    {
      (hasFill ==> Reliable()) && (tracking ==> Granted())
    }

    /** What every operation keeps: an error, once flagged, stays, and with it the position; the
        handler has been called once for it; nothing is ever put back. */
    twostate predicate Kept()
      reads this, mem
    {
      && Valid()
      && (old(error) != NoError ==> error == old(error))
      && (old(error) != NoError && old(Settled()) ==> data == old(data) && end == old(end))
      && (old(Valid()) && error == NoError ==> |Rest()| <= |old(Rest())|)
      && (old(Reliable()) ==> Reliable()) && (old(Granted()) ==> Granted())
      && (!tracking ==> track == old(track))
      && masked == old(masked)
    }

    /** `n` bytes have gone to the client. */
    twostate predicate Advanced(n: nat)
      reads this, mem
    {
      old(Valid()) && Valid() && n <= |old(Rest())| && Rest() == old(Rest())[n..]
    }

    /** mpack_reader_init_data, or mpack_reader_init with mpack_reader_set_fill and
        mpack_reader_set_skip. The handler is put in afterwards, too late for a failure of
        mpack_track_init. */
    constructor (mem: array<byte>, size: nat, count: nat, hasFill: bool, hasSkip: bool, hasHandler: bool, tracking: bool,
                 source: bytes, fills: seq<FillEvent>, grants: seq<bool>)
      requires count <= mem.Length && (size == 0 || size == mem.Length)
      requires hasFill ==> size >= MINIMUM_BUFFER_SIZE
      ensures Valid() && Settled() && track == [] && trackCapacity == 8
      ensures error == if tracking && grants != [] && !grants[0] then Memory else NoError
      ensures this.grants == if tracking && grants != [] then grants[1..] else grants
      ensures this.mem == mem && this.size == size && this.hasFill == hasFill && this.hasSkip == hasSkip
      ensures this.hasHandler == (hasHandler && error == NoError) && this.tracking == tracking
      ensures !masked && data == 0 && this.source == source && this.fills == fills
      ensures end == if error == NoError then count else 0
    {
      var failed := tracking && grants != [] && !grants[0];
      this.mem, this.size, this.hasFill, this.hasSkip := mem, size, hasFill, hasSkip;
      this.hasHandler, this.tracking := hasHandler && !failed, tracking;
      data, end, error := 0, if failed then 0 else count, if failed then Memory else NoError;
      track, trackCapacity, handled, masked := [], TRACKING_INITIAL_CAPACITY, 0, false;
      this.grants := if tracking && grants != [] then grants[1..] else grants;
      this.source, this.fills := source, fills;
    }

    /** mpack_reader_flag_error */
    method FlagError(e: Error)
      requires Valid() && e != NoError
      modifies this`error, this`end, this`handled
      ensures Valid() && Kept() && error != NoError
      ensures old(error) == NoError ==> error == e && end == data
      ensures old(error) != NoError ==> end == old(end)
      ensures old(Settled()) ==> Settled()
    {
      if error == NoError {
        error := e;
        end := data;
        if hasHandler && !masked { handled := handled + 1; }
      }
    }

    // -------------------------------------------------------------------------------------------
    // Filling

    /** One call of the fill function. */
    method Fill(dst: array<byte>, at: nat, count: nat) returns (read: int)
      requires Valid() && error == NoError && at + count <= dst.Length
      modifies this`error, this`end, this`handled, this`source, this`fills, dst
      ensures Valid() && -1 <= read <= count && |source| <= |old(source)|
      ensures fills == if old(fills) == [] then [] else old(fills)[1..]
      ensures if error != NoError then end == data else end == old(end)
      ensures error == NoError && read >= 0 ==> read <= |old(source)| && source == old(source)[read..]
      ensures error == NoError && read >= 0 ==> dst[..] == Overwritten(old(dst[..]), at, old(source)[..read])
      ensures old(Reliable()) ==> Reliable() && error == NoError && (old(source) != [] && count > 0 ==> read > 0)
    {
      var event := if fills == [] then Deliver(count) else fills[0];
      if fills != [] {
        assert event in fills;
        assert forall e | e in fills[1..] :: e in fills;
        fills := fills[1..];
      }
      match event
      case Raise(e) =>
        if e != NoError { FlagError(e); }
        read := -1;
      case MinusOne => read := -1;
      case Deliver(n) =>
        read := if n > count then count else n;
        read := if read > |source| then |source| else read;
        Memcpy(dst, at, source[..read]);
        source := source[read..];
    }

    /** mpack_fill_range: calls the fill function until there are at least `min` bytes. */
    method FillRange(dst: array<byte>, at: nat, min: nat, max: nat) returns (count: nat)
      requires Valid() && error == NoError && 0 < min <= max && at + max <= dst.Length
      modifies this`error, this`end, this`handled, this`source, this`fills, dst
      ensures Valid() && |source| <= |old(source)|
      ensures if error != NoError then end == data && count == 0 else end == old(end) && min <= count <= max
      ensures error == NoError ==> count <= |old(source)| && source == old(source)[count..]
      ensures error == NoError ==> dst[..] == Overwritten(old(dst[..]), at, old(source)[..count])
      ensures old(Reliable()) ==> Reliable() && (min <= |old(source)| ==> error == NoError)
    {
      hide Overwritten;
      count := 0;
      OverwrittenNothing(dst[..], at);
      while count < min
        invariant Valid() && error == NoError && end == old(end)
        invariant 0 <= count <= max && count <= |old(source)| && source == old(source)[count..]
        invariant dst[..] == Overwritten(old(dst[..]), at, old(source)[..count])
        invariant old(Reliable()) ==> Reliable()
      {
        ghost var chunk := source;
        var read := Fill(dst, at + count, max - count);
        if error != NoError { return 0; }
        if read == 0 || read == -1 {
          FlagError(Io);
          return 0;
        }
        OverwrittenTwice(old(dst[..]), at, old(source)[..count], chunk[..read]);
        assert old(source)[..count] + chunk[..read] == old(source)[..count + read];
        count := count + read;
      }
    }

    /** Moves what is left in the buffer to its start. */
    method Compact()
      requires Valid() && error == NoError
      modifies this`data, this`end, mem
      ensures Valid() && data == 0 && end == old(end - data) && mem[..end] == old(mem[data..end])
    {
      var left := end - data;
      Memmove(mem, 0, data, left);
      data, end := 0, left;
    }

    /** Puts more of the source behind what is in the buffer. */
    method Refill(count: nat)
      requires Valid() && error == NoError && hasFill && data == 0 && end < count <= size
      modifies this`error, this`end, this`handled, this`source, this`fills, mem
      ensures Valid() && Settled() && |source| <= |old(source)|
      ensures error == NoError ==> Rest() == old(Rest()) && end >= count
      ensures old(Reliable()) ==> Reliable() && (count <= |old(Rest())| ==> error == NoError)
    {
      ghost var before := mem[..];
      var left := end;
      var read := FillRange(mem, left, count - left, size - left);
      if error != NoError { return; }
      end := left + read;
      assert mem[..end] == before[..left] + old(source)[..read];
      assert old(source)[..read] + old(source)[read..] == old(source);
    }

    /** mpack_reader_ensure_straddle */
    method EnsureStraddle(count: nat) returns (ok: bool)
      requires Valid() && error == NoError && count > end - data
      modifies this, mem
      ensures Kept() && track == old(track) && (ok <==> error == NoError) && Settled()
      ensures ok ==> Rest() == old(Rest()) && end - data >= count
      ensures old(Reliable()) && hasFill && count <= size && count <= |old(Rest())| ==> ok
      ensures !hasFill ==> error == Invalid
      ensures hasFill && count > size ==> error == TooBig
    {
      if !hasFill {
        FlagError(Invalid);
        return false;
      }
      if count > size {
        FlagError(TooBig);
        return false;
      }
      Compact();
      Refill(count);
      ok := error == NoError;
    }

    /** mpack_reader_ensure */
    method Ensure(count: nat) returns (ok: bool)
      requires Valid() && error == NoError
      modifies this, mem
      ensures Kept() && track == old(track) && (ok <==> error == NoError) && Settled()
      ensures ok ==> Rest() == old(Rest()) && end - data >= count
      ensures !hasFill ==> (ok <==> count <= |old(Rest())|)
      ensures old(Reliable()) && hasFill && count <= size && count <= |old(Rest())| ==> ok
      ensures !hasFill && !ok ==> error == Invalid
      ensures count <= old(end - data) ==> data == old(data) && end == old(end)
    {
      if count <= end - data { return true; }
      ok := EnsureStraddle(count);
    }

    // -------------------------------------------------------------------------------------------
    // Tracking

    /** The track stack after a step that succeeded; without tracking there is nothing to change. */
    ghost predicate Follows(t: Tracked, before: Stack)
      reads this
    {
      if tracking then t == Tracked(track) else track == before
    }

    /** The tracker has no objection. */
    ghost predicate Permits(t: Tracked)
    {
      tracking ==> t.Tracked?
    }

    /** mpack_reader_track_element, _bytes, _str_bytes_all and mpack_done_type: takes a track step
        unless there is an error, and flags a misuse. */
    method TrackStep(t: Tracked)
      requires Valid() && (t.Tracked? ==> |t.stack| <= |track|)
      modifies this`error, this`end, this`handled, this`track
      ensures Kept() && (old(Settled()) ==> Settled())
      ensures old(error) == NoError ==> (error == NoError <==> Permits(t))
      ensures error == NoError ==> Follows(t, old(track)) && end == old(end)
      ensures old(error) == NoError && error != NoError ==> end == data
    {
      if tracking && error == NoError {
        if t.Tracked? {
          track := t.stack;
        } else {
          FlagError(Bug);
        }
      }
    }

    /** mpack_track_push, and the error it returns flagged. */
    method TrackPush(kind: Kind, count: nat)
      requires Valid() && tracking
      modifies this`error, this`end, this`handled, this`track, this`trackCapacity, this`grants
      ensures Kept() && (old(Settled()) ==> Settled())
      ensures error == NoError ==> track == Push(old(track), kind, count) && end == old(end)
      ensures old(error) == NoError && error != NoError ==> error == Memory && end == data
      ensures old(error) == NoError && old(Granted()) ==> error == NoError
      ensures grants == if old(|track| >= trackCapacity && grants != []) then old(grants)[1..] else old(grants)
      ensures trackCapacity == old(trackCapacity) || trackCapacity == 2 * old(trackCapacity)
    {
      hide Push, Reliable;
      if |track| >= trackCapacity {
        var granted := grants == [] || grants[0];
        if grants != [] {
          assert grants[0] in grants && forall b | b in grants[1..] :: b in grants;
          grants := grants[1..];
        }
        if !granted {
          FlagError(Memory);
          return;
        }
        trackCapacity := 2 * trackCapacity;
      }
      PushedSize(track, kind, count);
      track := Push(track, kind, count);
    }

    lemma PushedSize(st: Stack, kind: Kind, count: nat)
      ensures |Push(st, kind, count)| == |st| + 1
    {
    }

    /** Opens the element of a header that has been read. */
    method TrackOpen(t: Tag)
      requires Valid() && error == NoError && tracking && IsCompound(t)
      modifies this`error, this`end, this`handled, this`track, this`trackCapacity, this`grants
      ensures Kept() && (old(Settled()) ==> Settled()) && (old(Granted()) ==> error == NoError)
      ensures error == NoError ==>
        track == Push(old(track), KindOf(t), CountOf(t)) && end == old(end) && Rest() == old(Rest())
    {
      hide Push, KindOf, CountOf, Reliable, Granted;
      TrackPush(KindOf(t), CountOf(t));
    }

    // -------------------------------------------------------------------------------------------
    // Copying reads

    lemma FrontOfRest(n: nat)
      requires Valid() && n <= end - data
      ensures n <= |Rest()| && Rest()[..n] == mem[data..data + n]
    {
      TakeAcrossInside(mem[data..end], if hasFill then source else [], n);
      SliceOfSlice(mem[..], data, end, n);
      var all := mem[..];
      assert all[data..end] == mem[data..end] && all[data..data + n] == mem[data..data + n];
      assert Rest()[..n] == all[data..data + n];
    }

    /** Takes `count` bytes that are in the buffer and says where they are. */
    method Take(count: nat) returns (at: nat)
      requires Valid() && count <= end - data
      modifies this`data
      ensures Valid() && Advanced(count) && data == at + count
      ensures at + count <= mem.Length && mem[at..at + count] == old(Rest())[..count]
    {
      at := data;
      FrontOfRest(count);
      TakeAcrossInside(mem[data..end], if hasFill then source else [], count);
      assert mem[data..end][count..] == mem[data + count..end];
      data := data + count;
    }

    /** mpack_memset(p, 0, count) */
    static method Clear(p: array<byte>, count: nat)
      requires count <= p.Length
      modifies p
      ensures forall i | 0 <= i < count :: p[i] == 0
    {
      Memcpy(p, 0, seq(count, _ => 0));
      assert forall i | 0 <= i < count :: p[i] == p[..][i];
    }

    /** The tail of mpack_read_native_straddle: the buffer has been used up and `count` more bytes
        go to `p`, through the buffer if that is worth while. */
    method ReadFromSource(p: array<byte>, at: nat, count: nat)
      requires Valid() && error == NoError && hasFill && data == end && p != mem && at + count <= p.Length && count > 0
      modifies this`error, this`data, this`end, this`handled, this`source, this`fills, mem, p
      ensures Valid() && Settled()
      ensures error == NoError ==> count <= |old(source)| && Rest() == old(source)[count..]
      ensures error == NoError ==> p[..] == Overwritten(old(p[..]), at, old(source)[..count])
      ensures error == NoError ==> data == if count <= size / SMALL_FRACTION_DENOMINATOR then count else old(data)
      ensures old(Reliable()) ==> Reliable() && (count <= |old(source)| ==> error == NoError)
    {
      hide Overwritten;
      if count <= size / SMALL_FRACTION_DENOMINATOR {
        ReadThroughBuffer(p, at, count);
      } else {
        var read := FillRange(p, at, count, count);
      }
    }

    /** Fills the buffer as far as possible and copies the wanted bytes out of it. */
    method ReadThroughBuffer(p: array<byte>, at: nat, count: nat)
      requires Valid() && error == NoError && hasFill && data == end && p != mem && at + count <= p.Length
      requires 0 < count <= size
      modifies this`error, this`data, this`end, this`handled, this`source, this`fills, mem, p
      ensures Valid() && Settled()
      ensures error == NoError ==> count <= |old(source)| && Rest() == old(source)[count..]
      ensures error == NoError ==> p[..] == Overwritten(old(p[..]), at, old(source)[..count]) && data == count
      ensures old(Reliable()) ==> Reliable() && (count <= |old(source)| ==> error == NoError)
    {
      hide Overwritten;
      FillBuffer(count);
      if error != NoError { return; }
      Memcpy(p, at, mem[..count]);
      FrontOfRest(count);
      var taken := Take(count);
    }

    /** One refill of the empty buffer. */
    method FillBuffer(count: nat)
      requires Valid() && error == NoError && hasFill && data == end && 0 < count <= size
      modifies this`error, this`data, this`end, this`handled, this`source, this`fills, mem
      ensures Valid() && Settled()
      ensures if error == NoError then data == 0 && count <= end && Rest() == old(source) else data == old(data)
      ensures old(Reliable()) ==> Reliable() && (count <= |old(source)| ==> error == NoError)
    {
      var read := FillRange(mem, 0, count, size);
      if error != NoError { return; }
      data, end := 0, read;
      assert mem[..read] == old(source)[..read];
    }

    /** mpack_read_native_straddle */
    method ReadNativeStraddle(p: array<byte>, count: nat)
      requires Valid() && p != mem && count <= p.Length && count > end - data
      modifies this, mem, p
      ensures Kept() && (old(Settled()) ==> Settled()) && track == old(track)
      ensures error == NoError ==> Advanced(count) && p[..count] == old(Rest())[..count]
      ensures old(error) != NoError || !hasFill ==> forall i | 0 <= i < count :: p[i] == 0
      ensures old(error) == NoError && !hasFill ==> error == Invalid
      ensures old(error) == NoError && old(Dependable()) && count <= |old(Rest())| ==> error == NoError
    {
      hide Granted;
      if error != NoError {
        Clear(p, count);
        return;
      }
      var left := end - data;
      if !hasFill {
        FlagError(Invalid);
        Clear(p, count);
        return;
      }
      hide Overwritten;
      ghost var head, src := mem[data..end], source;
      OverwrittenPrefix(p[..], 0, head);
      Memcpy(p, 0, mem[data..end]);
      data := end;
      ghost var was := p[..];
      assert p[..left] == was[..left] == head;
      ReadFromSource(p, left, count - left);
      if error == NoError {
        OverwrittenPrefix(was, left, src[..count - left]);
        assert p[..count] == p[..][..count];
        TakeAcross(head, src, count);
      }
    }

    /** Copies bytes of the buffer to the front of `p`. */
    method CopyOut(p: array<byte>, at: nat, count: nat)
      requires p != mem && count <= p.Length && at + count <= mem.Length
      modifies p
      ensures p[..count] == mem[at..at + count]
    {
      hide Overwritten;
      OverwrittenPrefix(p[..], 0, mem[at..at + count]);
      Memcpy(p, 0, mem[at..at + count]);
      assert p[..count] == p[..][..count];
    }

    /** mpack_read_native */
    method ReadNative(p: array<byte>, count: nat)
      requires Valid() && p != mem && count <= p.Length
      modifies this, mem, p
      ensures Kept() && (old(Settled()) ==> Settled()) && track == old(track)
      ensures error == NoError ==> Advanced(count) && p[..count] == old(Rest())[..count]
      ensures old(error) != NoError && old(Settled()) ==> forall i | 0 <= i < count :: p[i] == 0
      ensures old(error) == NoError && old(Dependable()) && count <= |old(Rest())| ==> error == NoError
      ensures !hasFill && count > |old(Rest())| ==> error != NoError
    {
      hide Reliable, Granted;
      if count > end - data {
        ReadNativeStraddle(p, count);
      } else {
        CopyOut(p, data, count);
        var at := Take(count);
      }
    }

    /** mpack_read_bytes */
    method ReadBytes(p: array<byte>, count: nat)
      requires Valid() && p != mem && count <= p.Length
      modifies this, mem, p
      ensures Kept() && (old(Settled()) ==> Settled())
      ensures error == NoError ==> Advanced(count) && p[..count] == old(Rest())[..count]
      ensures error == NoError ==> Follows(TakeBytes(old(track), count), old(track))
      ensures old(error) != NoError && old(Settled()) ==> forall i | 0 <= i < count :: p[i] == 0
      ensures old(error) == NoError && old(Dependable()) && count <= |old(Rest())| ==>
        (error == NoError <==> Permits(TakeBytes(old(track), count)))
      ensures !hasFill && count > |old(Rest())| ==> error != NoError
    {
      hide Reliable, Granted;
      hide TakeBytes;
      TrackStep(TakeBytes(track, count));
      ReadNative(p, count);
    }

    /** mpack_read_bytes_inplace_notrack: the bytes stay in the buffer, at the index returned. */
    method ReadInplaceNotrack(count: nat) returns (at: nat)
      requires Valid()
      modifies this, mem
      ensures Kept() && (old(Settled()) ==> Settled()) && track == old(track)
      ensures error == NoError ==> Advanced(count) && at + count <= mem.Length && mem[at..at + count] == old(Rest())[..count]
      ensures old(error) == NoError && !hasFill ==> (error == NoError <==> count <= |old(Rest())|)
      ensures old(error) == NoError && old(Reliable()) && count <= size && count <= |old(Rest())| ==> error == NoError
    {
      hide Reliable, Granted;
      at := 0;
      if error != NoError { return; }
      if end - data < count {
        var ok := Ensure(count);
        if !ok { return; }
      }
      at := Take(count);
    }

    // -------------------------------------------------------------------------------------------
    // Skipping

    /** The skip function: discards bytes of the source, or flags an error when it cannot. */
    method Skip(count: nat)
      requires Valid()
      modifies this`error, this`end, this`handled, this`source
      ensures Kept() && (old(Settled()) ==> Settled()) && |source| <= |old(source)|
      ensures old(error) == NoError ==> (error == NoError <==> count <= |old(source)|)
      ensures error == NoError ==> source == old(source)[count..] && end == old(end)
    {
      if count <= |source| {
        source := source[count..];
      } else {
        FlagError(Io);
      }
    }

    /** mpack_reader_skip_using_fill */
    method SkipUsingFill(count: nat)
      requires Valid() && error == NoError && hasFill && data == end && count > 0
      modifies this`error, this`data, this`end, this`handled, this`source, this`fills, mem
      ensures Valid() && Settled()
      ensures error == NoError ==> count <= |old(source)| && Rest() == old(source)[count..]
      ensures old(Reliable()) ==> Reliable() && (count <= |old(source)| ==> error == NoError)
    {
      var left := count;
      while left > size
        invariant Valid() && error == NoError && data == end && data == old(data)
        invariant 0 < left <= count && count - left <= |old(source)| && source == old(source)[count - left..]
        invariant old(Reliable()) ==> Reliable()
      {
        var read := FillRange(mem, 0, size, size);
        if error != NoError { return; }
        left := left - size;
      }
      data, end := 0, 0;
      SkipFromBuffer(left);
    }

    /** The last fill of a skip: as much as the buffer holds, and the rest of the skip out of it. */
    method SkipFromBuffer(count: nat)
      requires Valid() && error == NoError && hasFill && data == end == 0 && 0 < count <= size
      modifies this`error, this`data, this`end, this`handled, this`source, this`fills, mem
      ensures Valid() && Settled()
      ensures error == NoError ==> count <= |old(source)| && Rest() == old(source)[count..]
      ensures old(Reliable()) ==> Reliable() && (count <= |old(source)| ==> error == NoError)
    {
      FillBuffer(count);
      if error != NoError { return; }
      var at := Take(count);
    }

    /** mpack_reader_skip_using_fill entered with an error: the fill function is called once, what
        it returns is dropped, and a short skip has moved `data` by then. */
    method SkipUsingFillAfterError(count: nat)
      requires Valid() && error != NoError && hasFill && data == end && count > 0
      modifies this`data, this`source, this`fills
      ensures Valid() && (old(Reliable()) ==> Reliable())
      ensures data == if count > size then old(data) else 0
      ensures fills == (if old(fills) == [] then [] else old(fills)[1..]) && |source| <= |old(source)|
    {
      assert forall e | fills != [] && e in fills[1..] :: e in fills;
      var n := if fills == [] then size else if fills[0].Deliver? then fills[0].n else 0;
      source := if n < |source| then source[n..] else [];
      fills := if fills == [] then [] else fills[1..];
      if count <= size { data := 0; }
    }

    /** mpack_skip_bytes_straddle */
    method SkipStraddle(count: nat)
      requires Valid() && Settled() && count > end - data
      modifies this`error, this`data, this`end, this`handled, this`source, this`fills, mem
      ensures Valid() && (old(error) != NoError ==> error == old(error) && end == old(end))
      ensures error == NoError ==> Advanced(count)
      ensures old(error) == NoError && !hasFill ==> error == Invalid
      ensures old(Reliable()) ==> Reliable()
      ensures old(Dependable()) && old(error) == NoError && count <= |old(Rest())| ==> error == NoError
      ensures Settled() <==> !(old(error) != NoError && StepsBack(count, old(data)))
      ensures old(error) != NoError && Settled() ==> data == old(data)
    {
      if !hasFill {
        FlagError(Invalid);
        return;
      }
      ghost var head, src := mem[data..end], source;
      var left := end - data;
      data := end;
      if hasSkip && count - left > size / 16 {
        Skip(count - left);
      } else if error == NoError {
        SkipUsingFill(count - left);
      } else {
        SkipUsingFillAfterError(count - left);
      }
      if error == NoError {
        TakeAcross(head, src, count);
      }
    }

    /** A skip of `count` bytes that reaches the last fill of mpack_reader_skip_using_fill with an
        error flagged at position `at` leaves `data` before `end`. */
    predicate StepsBack(count: nat, at: nat) {
      hasFill && 0 < count <= size && !(hasSkip && count > size / 16) && at > 0
    }

    /** The skip itself, from the buffer or beyond it. */
    method PassBytes(count: nat)
      requires Valid() && Settled()
      modifies this`error, this`data, this`end, this`handled, this`source, this`fills, mem
      ensures Valid() && (old(error) != NoError ==> error == old(error) && end == old(end))
      ensures error == NoError ==> Advanced(count)
      ensures old(Reliable()) ==> Reliable()
      ensures old(Dependable()) && old(error) == NoError && count <= |old(Rest())| ==> error == NoError
      ensures !hasFill && count > |old(Rest())| ==> error != NoError
      ensures Settled() <==> !(old(error) != NoError && StepsBack(count, old(data)))
      ensures old(error) != NoError && Settled() ==> data == old(data)
    {
      hide Reliable, Granted;
      if end - data >= count {
        assert count == 0 || error == NoError;
        var at := Take(count);
      } else {
        SkipStraddle(count);
      }
    }

    /** mpack_skip_bytes. A tracking misuse is flagged but does not stop the skip: then a short skip
        with a fill function moves the position after the error, and in no other case. */
    method SkipBytes(count: nat)
      requires Valid()
      modifies this, mem
      ensures Kept()
      ensures error == NoError ==> Advanced(count) && Follows(TakeBytes(old(track), count), old(track))
      ensures old(error) == NoError && old(Dependable()) && count <= |old(Rest())| ==>
        (error == NoError <==> Permits(TakeBytes(old(track), count)))
      ensures !hasFill && count > |old(Rest())| ==> error != NoError
      ensures old(Settled()) ==> (Settled() <==>
        !(old(error) == NoError && !Permits(TakeBytes(old(track), count)) && StepsBack(count, old(data))))
    {
      if error != NoError { return; }
      hide TakeBytes, StepsBack, Reliable, Granted, Rest;
      TrackStep(TakeBytes(track, count));
      PassBytes(count);
    }

    // -------------------------------------------------------------------------------------------
    // Tags

    /** mpack_parse_tag: the header at the front of what is left, which stays there. */
    method ParseHeader() returns (h: Header)
      requires Valid() && error == NoError
      modifies this, mem
      ensures Kept() && Settled() && track == old(track)
      ensures error == NoError <==> h.Header?
      ensures error == NoError ==> Rest() == old(Rest()) && h == ParseTag(Rest()) && h.size <= end - data
      ensures !hasFill ==> (error == NoError <==> ParseTag(old(Rest())).Header?)
      ensures old(Dependable()) && ParseTag(old(Rest())).Header? ==> error == NoError
      ensures !hasFill && error != NoError ==> error == Invalid
      ensures error == NoError && old(end - data) >= 9 ==> data == old(data) && end == old(end)
    {
      hide ParseTag, TagOf, HeaderSize;
      ParseTagCases(Rest());
      h := Truncated;
      var ok := Ensure(1);
      if !ok { return; }
      var t := mem[data];
      FrontOfRest(1);
      assert Rest()[..1][0] == t;
      if t == 0xc1 {
        FlagError(Invalid);
        return Reserved;
      }
      ok := Ensure(HeaderSize(t));
      if !ok { return; }
      var n := HeaderSize(t);
      FrontOfRest(n);
      h := Header(TagOf(mem[data..data + n]), n);
    }

    /** mpack_read_tag. After an error the tag is nil. */
    method ReadTag() returns (tag: Tag)
      requires Valid()
      modifies this, mem
      ensures Kept() && (old(Settled()) ==> Settled())
      ensures error == NoError ==> ParseTag(old(Rest())).Header? && tag == ParseTag(old(Rest())).tag
      ensures error == NoError ==> Advanced(ParseTag(old(Rest())).size) && Follows(TagTrack(old(track), tag), old(track))
      ensures error != NoError ==> tag == Nil
      ensures error == NoError && old(end - data) >= 9 ==> data == old(data) + ParseTag(old(Rest())).size && end == old(end)
      ensures old(error) == NoError && ParseTag(old(Rest())).Header? && old(Dependable()) ==>
        (error == NoError <==> Permits(Element(old(track))))
    {
      hide Reliable, Granted, Push, KindOf, CountOf, IsCompound;
      hide Element, ParseTag;
      tag := Nil;
      if error != NoError { return; }
      TrackStep(Element(track));
      if error != NoError { return; }
      var h := ParseHeader();
      if error != NoError { return; }
      ConsumeHeader(h);
      if error == NoError {
        tag := h.tag;
      }
    }

    /** A header that has been parsed is opened on the track stack, if it opens an element, and taken. */
    method ConsumeHeader(h: Header)
      requires Valid() && error == NoError && h.Header? && h.size <= end - data
      modifies this`error, this`end, this`handled, this`track, this`trackCapacity, this`grants, this`data
      ensures Kept() && (old(Settled()) ==> Settled()) && (old(Dependable()) ==> error == NoError)
      ensures error == NoError ==> Advanced(h.size) && data == old(data) + h.size && end == old(end)
      ensures error == NoError ==>
        track == if tracking && IsCompound(h.tag) then Push(old(track), KindOf(h.tag), CountOf(h.tag)) else old(track)
    {
      hide Push, KindOf, CountOf, Reliable, Granted;
      if tracking && IsCompound(h.tag) {
        TrackOpen(h.tag);
        if error != NoError { return; }
      }
      var at := Take(h.size);
    }

    /** mpack_peek_tag: the tag a read would return, without moving. */
    method PeekTag() returns (tag: Tag)
      requires Valid()
      modifies this, mem
      ensures Kept() && (old(Settled()) ==> Settled()) && track == old(track)
      ensures error == NoError ==>
        Rest() == old(Rest()) && ParseTag(Rest()).Header? && tag == ParseTag(Rest()).tag && Permits(Element(track))
      ensures error != NoError ==> tag == Nil
      ensures old(error) == NoError && old(Dependable()) && ParseTag(old(Rest())).Header? ==>
        (error == NoError <==> Permits(Element(track)))
    {
      hide Element, ParseTag;
      tag := Nil;
      if error != NoError { return; }
      ghost var before := track;
      if tracking && Element(track).Misuse? {
        FlagError(Bug);
        return;
      }
      var h := ParseHeader();
      if error == NoError {
        tag := h.tag;
      }
    }

    /** mpack_done_array and the other closing calls. */
    method Done(kind: Kind)
      requires Valid()
      modifies this`error, this`end, this`handled, this`track
      ensures Kept() && (old(Settled()) ==> Settled())
      ensures old(error) == NoError ==> (error == NoError <==> Permits(Pop(old(track), kind)))
      ensures error == NoError ==> Follows(Pop(old(track), kind), old(track)) && Rest() == old(Rest())
    {
      hide Pop;
      TrackStep(Pop(track, kind));
    }
  }

  lemma SliceOfSlice(s: bytes, i: nat, j: nat, n: nat)
    requires i + n <= j <= |s|
    ensures s[i..j][..n] == s[i..i + n]
  {
  }

  lemma TakeAcrossInside(head: bytes, tail: bytes, n: nat)
    requires n <= |head|
    ensures (head + tail)[..n] == head[..n] && (head + tail)[n..] == head[n..] + tail
  {
  }

  lemma TakeAcross(head: bytes, tail: bytes, n: nat)
    requires |head| <= n <= |head| + |tail|
    ensures (head + tail)[..n] == head + tail[..n - |head|] && (head + tail)[n..] == tail[n - |head|..]
  {
  }
}
