/** The reads built on the reader: text, allocated copies and timestamps. */
module Reads {
  import opened Bytes
  import opened Errors
  import opened Tags
  import opened Track
  import opened TrackedRuns
  import opened Timestamps
  import opened Readers
  import Utf8

  /** mpack_read_bytes_inplace */
  method ReadBytesInplace(r: Reader, count: nat) returns (at: nat)
    requires r.Valid()
    modifies r, r.mem
    ensures r.Kept() && (old(r.Settled()) ==> r.Settled())
    ensures r.error == NoError ==> r.Advanced(count) && r.Follows(TakeBytes(old(r.track), count), old(r.track))
    ensures r.error == NoError ==> at + count <= r.mem.Length && r.mem[at..at + count] == old(r.Rest())[..count]
    ensures old(r.error) == NoError && !r.hasFill ==>
      (r.error == NoError <==> count <= |old(r.Rest())| && r.Permits(TakeBytes(old(r.track), count)))
    ensures old(r.error) == NoError && old(r.Reliable()) && count <= r.size && count <= |old(r.Rest())| ==>
      (r.error == NoError <==> r.Permits(TakeBytes(old(r.track), count)))
  {
    hide TakeBytes;
    r.TrackStep(TakeBytes(r.track, count));
    at := r.ReadInplaceNotrack(count);
  }

  /** mpack_read_utf8_inplace. Text that is not well formed is an error. */
  method ReadUtf8Inplace(r: Reader, count: nat) returns (at: nat)
    requires r.Valid()
    modifies r, r.mem
    ensures r.Kept() && (old(r.Settled()) ==> r.Settled())
    ensures r.error == NoError ==> r.Advanced(count) && r.Follows(TakeAllBytes(old(r.track), count), old(r.track))
    ensures r.error == NoError ==> at + count <= r.mem.Length && r.mem[at..at + count] == old(r.Rest())[..count]
    ensures r.error == NoError ==> Utf8.Valid(old(r.Rest())[..count], true)
    ensures old(r.error) == NoError && !r.hasFill ==>
      (r.error == NoError <==> count <= |old(r.Rest())| && Utf8.Valid(old(r.Rest())[..count], true)
                               && r.Permits(TakeAllBytes(old(r.track), count)))
    ensures old(r.error) == NoError && old(r.Reliable()) && count <= r.size && count <= |old(r.Rest())| ==>
      (r.error == NoError <==> Utf8.Valid(old(r.Rest())[..count], true) && r.Permits(TakeAllBytes(old(r.track), count)))
  {
    hide TakeAllBytes, Utf8.Valid, Reader.Reliable, Reader.Granted;
    r.TrackStep(TakeAllBytes(r.track, count));
    at := r.ReadInplaceNotrack(count);
    if r.error == NoError {
      var ok := Utf8.Check(r.mem[at..at + count], true);
      assert r.mem[at..at + count] == old(r.Rest())[..count];
      if !ok {
        r.FlagError(Type);
        at := 0;
      }
    }
  }

  /** A read with the handler taken out, which is called afterwards if the read has failed. */
  method ReadMasked(r: Reader, p: array<byte>, count: nat)
    requires r.Valid() && !r.masked && r.error == NoError && p != r.mem && count <= p.Length
    modifies r, r.mem, p
    ensures r.Kept() && (old(r.Settled()) ==> r.Settled()) && r.track == old(r.track)
    ensures r.error == NoError ==> r.Advanced(count) && p[..count] == old(r.Rest())[..count]
    ensures old(r.Dependable()) && count <= |old(r.Rest())| ==> r.error == NoError
  {
    r.masked := true;
    r.ReadNative(p, count);
    r.masked := false;
    if r.error != NoError && r.hasHandler { r.handled := r.handled + 1; }
  }

  /** mpack_read_bytes_alloc_impl. The handler is taken out while the block is filled, and called
      afterwards: once, like for any other read. */
  method ReadBytesAlloc(r: Reader, count: nat, nullTerminated: bool, mallocOk: bool) returns (block: array?<byte>)
    requires r.Valid() && !r.masked
    modifies r, r.mem
    ensures r.Kept() && (old(r.Settled()) ==> r.Settled()) && (block == null || fresh(block))
    ensures r.error == NoError ==> r.Advanced(count) && (block == null <==> count == 0 && !nullTerminated)
    ensures block != null ==>
      block.Length == count + (if nullTerminated then 1 else 0) && (nullTerminated ==> block[count] == 0)
    ensures block != null ==> r.error == NoError && block[..count] == old(r.Rest())[..count]
    ensures r.error == NoError ==> r.Follows(TakeBytes(old(r.track), count), old(r.track))
    ensures old(r.error) == NoError && old(r.Dependable()) && count <= |old(r.Rest())| && mallocOk ==>
      (r.error == NoError <==> r.Permits(TakeBytes(old(r.track), count)))
    ensures r.handled == if r.hasHandler && r.error != NoError then 1 else 0
  {
    hide TakeBytes;
    block := null;
    r.TrackStep(TakeBytes(r.track, count));
    if r.error != NoError { return; }
    if count == 0 && !nullTerminated { return; }
    if !mallocOk {
      r.FlagError(Memory);
      return;
    }
    var p := new byte[count + (if nullTerminated then 1 else 0)](_ => 0);
    ReadMasked(r, p, count);
    if r.error != NoError { return; }
    if nullTerminated { p[count] := 0; }
    block := p;
  }

  /** The fields of a timestamp payload. */
  method UnpackTimestamp(p: bytes) returns (seconds: i64, nanoseconds: u32)
    requires |p| in {4, 8, 12}
    ensures TimestampOf(p) == Checked(seconds, nanoseconds)
  {
    seconds, nanoseconds := 0, 0;
    match |p|
    case 4 => seconds := LoadU32(p);
    case 8 =>
      var packed := LoadU64(p);
      seconds, nanoseconds := packed % 0x4_0000_0000, packed / 0x4_0000_0000;
    case _ => nanoseconds, seconds := LoadU32(p), I64OfU64(LoadU64(p[4..]));
  }

  /** Takes all `n` bytes of the open ext and closes it. */
  function TakeAndClose(st: Stack, n: nat): Tracked {
    var r := TakeBytes(st, n);
    if r.Misuse? then Misuse else Pop(r.stack, ExtKind)
  }

  /** mpack_read_timestamp, in an ext of `size` bytes that has been opened. */
  method ReadTimestamp(r: Reader, size: nat) returns (seconds: i64, nanoseconds: u32)
    requires r.Valid()
    modifies r, r.mem
    ensures r.Kept() && (old(r.Settled()) ==> r.Settled())
    ensures r.error == NoError ==>
      r.Advanced(size) && TimestampOf(old(r.Rest())[..size]) == Timestamp(seconds, nanoseconds)
    ensures r.error == NoError ==> r.Follows(TakeAndClose(old(r.track), size), old(r.track))
    ensures r.error != NoError ==> seconds == 0 && nanoseconds == 0
    ensures old(r.error) == NoError && old(r.Dependable()) && size <= |old(r.Rest())| ==>
      (r.error == NoError <==>
        TimestampOf(old(r.Rest())[..size]).Timestamp? && r.Permits(TakeAndClose(old(r.track), size)))
    ensures old(r.error) == NoError && old(r.Dependable()) && r.Permits(TakeAndClose(old(r.track), size)) ==>
      (size <= |old(r.Rest())| ==> r.error in {NoError, Invalid})
  {
    hide TakeBytes, Pop;
    seconds, nanoseconds := 0, 0;
    if size != 4 && size != 8 && size != 12 {
      r.FlagError(Invalid);
      return;
    }
    var buf := new byte[12](_ => 0);
    r.ReadBytes(buf, size);
    r.Done(ExtKind);
    if r.error != NoError { return; }
    seconds, nanoseconds := UnpackTimestamp(buf[..size]);
    if nanoseconds > NANOSECONDS_MAX {
      r.FlagError(Invalid);
      seconds, nanoseconds := 0, 0;
    }
  }

  /** Two tags, and then a tracked skip with nothing open: the misuse is flagged, and the position
      moves all the same. This is the case `SkipBytes` singles out. */
  method SkipMovesAfterError() returns (r: Reader)
    ensures r.error != NoError && r.data < r.end
  {
    var buffer := new byte[32](_ => 0xc0);
    r := new Reader(buffer, 32, 32, true, false, false, true, [], [], []);
    ReadNil(r);
    ReadNil(r);
    r.SkipBytes(31);
  }

  /** Reads a nil that lies in the buffer, with nothing open. */
  method ReadNil(r: Reader)
    requires r.Valid() && r.error == NoError && r.Dependable() && r.track == [] && r.end - r.data >= 9
    requires r.Rest() != [] && r.Rest()[0] == 0xc0
    modifies r, r.mem
    ensures r.Valid() && r.error == NoError && r.Dependable() && r.track == []
    ensures r.data == old(r.data) + 1 && r.end == old(r.end) && r.Rest() == old(r.Rest())[1..]
  {
    hide ParseTag;
    NilHeader(r.Rest());
    var tag := r.ReadTag();
  }

  lemma NilHeader(s: bytes)
    ensures s != [] && s[0] == 0xc0 ==> ParseTag(s) == Header(Nil, 1)
  {
  }
}
