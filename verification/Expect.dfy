/** The expect functions of mpack-expect.c: typed reads that agree with the tag reader. */
module Expect {
  import opened Bytes
  import opened Errors
  import opened Tags
  import opened Track
  import opened TrackedRuns
  import opened Values
  import opened Readers
  import opened Discards
  import opened Memory
  import Reads

  predicate HoldsInteger(h: Header, lo: int, hi: int) {
    h.Header? && (h.tag.Int? || h.tag.Uint?) && lo <= IntegerOf(h.tag) <= hi
  }

  /** mpack_expect_u8 to mpack_expect_i64, which differ in the range of their result only. */
  method ExpectInteger(r: Reader, lo: i64, hi: u64) returns (v: int)
    requires r.Valid() && lo <= 0
    modifies r, r.mem
    ensures r.Kept() && (old(r.Settled()) ==> r.Settled())
    ensures r.error == NoError ==>
      var h := ParseTag(old(r.Rest()));
      HoldsInteger(h, lo, hi) && v == IntegerOf(h.tag) && r.Advanced(h.size)
      && r.Follows(Element(old(r.track)), old(r.track))
    ensures r.error != NoError ==> v == 0
    ensures old(r.error) == NoError && old(r.Dependable()) ==>
      (r.error == NoError <==> HoldsInteger(ParseTag(old(r.Rest())), lo, hi) && r.Permits(Element(old(r.track))))
    ensures old(r.error) == NoError && old(r.Dependable()) && r.Permits(Element(old(r.track))) ==>
      (ParseTag(old(r.Rest())).Header? ==> r.error in {NoError, Type})
  {
    hide ParseTag, Element;
    var tag := r.ReadTag();
    if tag.Uint? {
      if tag.u <= hi { return tag.u; }
    } else if tag.Int? {
      if lo <= tag.i <= hi { return tag.i; }
    }
    r.FlagError(Type);
    return 0;
  }

  /** mpack_expect_native_u8, _u16 and _u32: the big-endian number in the next `n` bytes. */
  method ExpectNative(r: Reader, n: nat) returns (v: u32)
    requires r.Valid() && n in {1, 2, 4}
    modifies r, r.mem
    ensures r.Kept() && (old(r.Settled()) ==> r.Settled()) && r.track == old(r.track)
    ensures r.error == NoError ==> r.Advanced(n) && v == Native(old(r.Rest()), n)
    ensures r.error != NoError ==> v == 0
    ensures old(r.error) == NoError && old(r.Dependable()) && n <= |old(r.Rest())| ==> r.error == NoError
  {
    v := 0;
    if r.error != NoError { return; }
    var ok := r.Ensure(n);
    if !ok { return; }
    var at := r.Take(n);
    NativePrefix(r.mem[at..at + n], old(r.Rest()), n);
    v := Native(r.mem[at..at + n], n);
  }

  function Native(p: bytes, n: nat): u32
    requires n in {1, 2, 4} && n <= |p|
  {
    if n == 1 then p[0] else if n == 2 then LoadU16(p) else LoadU32(p)
  }

  lemma NativePrefix(p: bytes, s: bytes, n: nat)
    requires n in {1, 2, 4} && n <= |s| && p == s[..n]
    ensures Native(p, n) == Native(s, n)
  {
  }

  /** The length field behind the first byte of a str header. */
  function StrField(lead: byte): nat {
    if lead == 0xd9 then 1 else if lead == 0xda then 2 else if lead == 0xdb then 4 else 0
  }

  /** The header of a str, by its first byte. */
  lemma StrHeader(s: bytes)
    ensures var h := ParseTag(s);
      h.Header? && h.tag.Str? <==>
        s != [] && (0xa0 <= s[0] < 0xc0 || (StrField(s[0]) > 0 && |s| >= 1 + StrField(s[0])))
    ensures ParseTag(s).Header? && ParseTag(s).tag.Str? ==>
      var n := StrField(s[0]);
      ParseTag(s).size == 1 + n && ParseTag(s).tag.l == if n == 0 then s[0] - 0xa0 else Native(s[1..], n)
  {
  }

  /** `lead` opens a str whose length field, if it has one, is in `field`. */
  predicate OpensStr(lead: byte, field: bytes) {
    0xa0 <= lead < 0xc0 || (StrField(lead) > 0 && |field| >= StrField(lead))
  }

  function StrLength(lead: byte, field: bytes): u32
    requires OpensStr(lead, field)
  {
    if StrField(lead) == 0 then lead - 0xa0 else Native(field, StrField(lead))
  }

  /** The branches on the first byte. */
  method ExpectStrLength(r: Reader, lead: byte) returns (isStr: bool, count: u32)
    requires r.Valid()
    modifies r, r.mem
    ensures r.Kept() && (old(r.Settled()) ==> r.Settled()) && r.track == old(r.track)
    ensures isStr <==> 0xa0 <= lead < 0xc0 || StrField(lead) > 0
    ensures !isStr ==> r.error != NoError && count == 0
    ensures r.error == NoError ==>
      OpensStr(lead, old(r.Rest())) && count == StrLength(lead, old(r.Rest())) && r.Advanced(StrField(lead))
    ensures old(r.error) == NoError && old(r.Dependable()) && OpensStr(lead, old(r.Rest())) ==> r.error == NoError
  {
    hide Native;
    isStr := true;
    if 0xa0 <= lead < 0xc0 {
      count := lead - 0xa0;
    } else if lead == 0xd9 {
      count := ExpectNative(r, 1);
    } else if lead == 0xda {
      count := ExpectNative(r, 2);
    } else if lead == 0xdb {
      count := ExpectNative(r, 4);
    } else {
      r.FlagError(Type);
      isStr, count := false, 0;
    }
  }

  lemma StrHeaderParts(s: bytes)
    ensures var h := ParseTag(s);
      h.Header? && h.tag.Str? <==> s != [] && OpensStr(Native(s, 1), s[1..])
    ensures ParseTag(s).Header? && ParseTag(s).tag.Str? ==>
      ParseTag(s).tag.l == StrLength(s[0], s[1..]) && ParseTag(s).size == 1 + StrField(s[0])
      && s[ParseTag(s).size..] == s[1..][StrField(s[0])..]
  {
    StrHeader(s);
  }

  /** The first byte and the length of a str. */
  method ExpectStrHeader(r: Reader) returns (isStr: bool, count: u32)
    requires r.Valid()
    modifies r, r.mem
    ensures r.Kept() && (old(r.Settled()) ==> r.Settled()) && (!isStr ==> r.error != NoError)
    ensures r.error == NoError ==>
      var h := ParseTag(old(r.Rest()));
      h.Header? && h.tag == Str(count) && r.Advanced(h.size) && r.Follows(Element(old(r.track)), old(r.track))
    ensures old(r.error) == NoError && old(r.Dependable()) ==>
      (r.error == NoError <==>
        ParseTag(old(r.Rest())).Header? && ParseTag(old(r.Rest())).tag.Str? && r.Permits(Element(old(r.track))))
  {
    hide ParseTag, Element, OpensStr, StrLength, StrField;
    StrHeaderParts(r.Rest());
    r.TrackStep(Element(r.track));
    var lead := ExpectNative(r, 1);
    isStr, count := ExpectStrLength(r, lead);
  }

  /** mpack_expect_str. It reads the header piece by piece and succeeds on exactly the inputs where
      mpack_read_tag returns a str tag, with the same length and position. */
  method ExpectStr(r: Reader) returns (count: u32)
    requires r.Valid()
    modifies r, r.mem
    ensures r.Kept() && (old(r.Settled()) ==> r.Settled())
    ensures r.error == NoError ==>
      var h := ParseTag(old(r.Rest()));
      h.Header? && h.tag == Str(count) && r.Advanced(h.size)
      && r.Follows(OpenElement(old(r.track), Str(count)), old(r.track))
    ensures old(r.error) == NoError && old(r.Dependable()) ==>
      (r.error == NoError <==>
        ParseTag(old(r.Rest())).Header? && ParseTag(old(r.Rest())).tag.Str? && r.Permits(Element(old(r.track))))
  {
    hide ParseTag, Element, Push, Reader.Reliable, Reader.Granted;
    var isStr;
    isStr, count := ExpectStrHeader(r);
    if !isStr { return 0; }
    if r.tracking {
      r.TrackPush(StrKind, count);
    }
  }

  /** The header is that of a key that has been marked. */
  predicate Marked(h: Header, found: seq<bool>) {
    h.Header? && h.tag.Uint? && h.tag.u < |found| && found[h.tag.u]
  }

  /** mpack_expect_key_uint: a key among 0 to `found.Length` - 1 that has not been seen, or
      `found.Length` for an unknown key, which is skipped. */
  method ExpectKeyUint(r: Reader, found: array<bool>) returns (key: nat)
    requires r.Valid()
    modifies r, r.mem, found
    ensures r.Kept() && (old(r.Settled()) ==> r.Settled()) && key <= found.Length
    ensures key < found.Length ==>
      var h := ParseTag(old(r.Rest()));
      r.error == NoError && h.Header? && h.tag.Uint? && h.tag.u == key && r.Advanced(h.size)
    ensures key < found.Length ==> !old(found[key]) && found[..] == old(found[..])[key := true]
    ensures key == found.Length ==> found[..] == old(found[..])
    ensures r.error == NoError && key == found.Length ==> Passed(r, old(r.Rest()), 1)
    ensures r.error == NoError && key == found.Length ==>
      ParseTag(old(r.Rest())).Header? && (ParseTag(old(r.Rest())).tag.Uint? ==> ParseTag(old(r.Rest())).tag.u >= key)
    ensures r.error == NoError ==> r.Follows(Element(old(r.track)), old(r.track))
    ensures old(r.error) == NoError && found.Length == 0 ==> r.error == Bug
    ensures old(r.error) == NoError && old(r.Dependable()) && found.Length > 0 ==>
      (r.error == NoError <==>
        && r.Permits(Element(old(r.track))) && Decode(old(r.Rest()), 1).Decoded?
        && !Marked(ParseTag(old(r.Rest())), old(found[..])))
    ensures old(r.error) == NoError && old(r.Dependable()) && found.Length > 0 && r.Permits(Element(old(r.track))) ==>
      (Marked(ParseTag(old(r.Rest())), old(found[..])) ==> r.error == Invalid)
  {
    hide ParseTag, Element, Decode;
    key := found.Length;
    if r.error != NoError { return; }
    if found.Length == 0 {
      r.FlagError(Bug);
      return;
    }
    BodyOfValue(r.Rest());
    var tag := r.PeekTag();
    if !tag.Uint? {
      Discard(r, |r.Rest()|);
      return;
    }
    var value := ExpectInteger(r, 0, 0xFFFF_FFFF_FFFF_FFFF);
    if r.error != NoError { return; }
    NoValues(r.Rest());
    if value >= found.Length { return; }
    if found[value] {
      r.FlagError(Invalid);
      return;
    }
    found[value] := true;
    key := value;
  }

  // ---------------------------------------------------------------------------------------------
  // Strings among a list

  /** The value at the front of `s` is a str with the bytes `key`. */
  ghost predicate HoldsStr(s: bytes, key: bytes) {
    Decode(s, 1).Decoded? && Decode(s, 1).values[0].tag.Str? && Decode(s, 1).values[0].payload == key
  }

  /** The value at the front of `s` is a str. */
  ghost predicate IsStr(s: bytes) {
    Decode(s, 1).Decoded? && Decode(s, 1).values[0].tag.Str?
  }

  /** A str at the front of `s` fits into a buffer of `size` bytes. */
  ghost predicate StrFits(s: bytes, size: nat) {
    IsStr(s) ==> |Decode(s, 1).values[0].payload| <= size
  }

  lemma StrValue(s: bytes)
    ensures var h := ParseTag(s); IsStr(s) <==> h.Header? && h.tag.Str? && |s| >= h.size + h.tag.l
    ensures IsStr(s) ==>
      var h := ParseTag(s);
      HoldsStr(s, s[h.size..][..h.tag.l]) && s[h.size..][h.tag.l..] == s[Decode(s, 1).size..]
  {
    hide ParseTag, FirstItem, Decode;
    FirstItemOfHeader(s);
    DecodeOne(s);
    var h, it := ParseTag(s), FirstItem(s);
    if it.Item? {
      NoValues(s[it.used..]);
      if h.tag.Str? { DropDrop(s, h.size, h.tag.l); }
    }
  }

  /** mpack_expect_str, mpack_read_bytes_inplace and mpack_done_str: a whole str. */
  method ReadKey(r: Reader) returns (key: bytes)
    requires r.Valid()
    modifies r, r.mem
    ensures r.Kept() && (old(r.Settled()) ==> r.Settled())
    ensures r.error == NoError ==>
      HoldsStr(old(r.Rest()), key) && Passed(r, old(r.Rest()), 1) && r.Follows(Element(old(r.track)), old(r.track))
    ensures old(r.error) == NoError && old(r.Dependable()) && (r.hasFill ==> StrFits(old(r.Rest()), r.size)) ==>
      (r.error == NoError <==> IsStr(old(r.Rest())) && r.Permits(Element(old(r.track))))
  {
    hide ParseTag, Element, Decode, TakeBytes, Pop, OpenElement;
    ghost var before := r.Rest();
    StrValue(before);
    var count := ExpectStr(r);
    BlobTrack(old(r.track), Str(count));
    var at := Reads.ReadBytesInplace(r, count);
    key := if r.error == NoError then r.mem[at..at + count] else [];
    r.Done(StrKind);
  }

  /** The first place of `key` in the list. */
  method Find(key: bytes, strings: seq<bytes>) returns (i: nat)
    ensures i <= |strings| && key !in strings[..i] && (i < |strings| ==> strings[i] == key)
  {
    i := 0;
    while i < |strings|
      invariant i <= |strings| && key !in strings[..i]
    {
      var other := strings[i];
      if |key| == |other| {
        var c := Memcmp(key, other, |key|);
        assert key[..|key|] == key && other[..|key|] == other;
        CompareEqual(key, other);
        if c == 0 { return; }
      }
      i := i + 1;
    }
  }

  /** mpack_expect_enum_optional: the place of the str among `strings`, or their number for any other
      value, which is skipped. */
  method ExpectEnumOptional(r: Reader, strings: seq<bytes>) returns (i: nat)
    requires r.Valid() && strings != []
    modifies r, r.mem
    ensures r.Kept() && (old(r.Settled()) ==> r.Settled()) && i <= |strings| && (r.error != NoError ==> i == |strings|)
    ensures r.error == NoError ==> Passed(r, old(r.Rest()), 1) && r.Follows(Element(old(r.track)), old(r.track))
    ensures i < |strings| ==> HoldsStr(old(r.Rest()), strings[i]) && strings[i] !in strings[..i]
    ensures r.error == NoError && i == |strings| ==> forall key | key in strings :: !HoldsStr(old(r.Rest()), key)
    ensures old(r.error) == NoError && old(r.Dependable()) && (r.hasFill ==> StrFits(old(r.Rest()), r.size)) ==>
      (r.error == NoError <==> Decode(old(r.Rest()), 1).Decoded? && r.Permits(Element(old(r.track))))
  {
    hide ParseTag, Decode;
    i := |strings|;
    if r.error != NoError { return; }
    ghost var before := r.Rest();
    BodyOfValue(before);
    StrValue(before);
    var tag := r.PeekTag();
    if !tag.Str? {
      Discard(r, |r.Rest()|);
      if r.error == NoError { OnlyStrHoldsStr(before); }
      return;
    }
    var key := ReadKey(r);
    if r.error != NoError { return; }
    i := Find(key, strings);
  }

  lemma OnlyStrHoldsStr(s: bytes)
    requires ParseTag(s).Header? && !ParseTag(s).tag.Str?
    ensures forall key :: !HoldsStr(s, key)
  {
    hide ParseTag, FirstItem, Decode;
    FirstItemOfHeader(s);
    DecodeOne(s);
  }

  /** mpack_expect_enum: a str that is not in the list is an error. */
  method ExpectEnum(r: Reader, strings: seq<bytes>) returns (i: nat)
    requires r.Valid()
    modifies r, r.mem
    ensures r.Kept() && (old(r.Settled()) ==> r.Settled()) && i <= |strings| && (r.error == NoError <==> i < |strings|)
    ensures i < |strings| ==>
      HoldsStr(old(r.Rest()), strings[i]) && strings[i] !in strings[..i] && Passed(r, old(r.Rest()), 1)
    ensures i < |strings| ==> r.Follows(Element(old(r.track)), old(r.track))
    ensures old(r.error) == NoError && old(r.Dependable()) && (r.hasFill ==> StrFits(old(r.Rest()), r.size)) ==>
      (r.error == NoError <==>
        (exists key :: key in strings && HoldsStr(old(r.Rest()), key)) && r.Permits(Element(old(r.track))))
  {
    hide Decode;
    var key := ReadKey(r);
    if r.error != NoError { return |strings|; }
    i := Find(key, strings);
    if i == |strings| {
      r.FlagError(Type);
    }
  }

  /** mpack_expect_key_cstr: like mpack_expect_key_uint, with the keys in a list. */
  method ExpectKeyCstr(r: Reader, keys: seq<bytes>, found: array<bool>) returns (i: nat)
    requires r.Valid() && keys != [] && found.Length == |keys|
    modifies r, r.mem, found
    ensures r.Kept() && (old(r.Settled()) ==> r.Settled()) && i <= |keys| && (r.error != NoError ==> i == |keys|)
    ensures r.error == NoError ==> Passed(r, old(r.Rest()), 1) && r.Follows(Element(old(r.track)), old(r.track))
    ensures i < |keys| ==> HoldsStr(old(r.Rest()), keys[i]) && keys[i] !in keys[..i]
    ensures i < |keys| ==> !old(found[i]) && found[..] == old(found[..])[i := true]
    ensures i == |keys| ==> found[..] == old(found[..])
    ensures r.error == NoError && i == |keys| ==> forall key | key in keys :: !HoldsStr(old(r.Rest()), key)
    ensures old(r.error) == NoError && old(r.Dependable()) && (r.hasFill ==> StrFits(old(r.Rest()), r.size)) ==>
      (r.error == NoError <==>
        && Decode(old(r.Rest()), 1).Decoded? && r.Permits(Element(old(r.track)))
        && forall j | 0 <= j < |keys| && old(found[j]) && keys[j] !in keys[..j] :: !HoldsStr(old(r.Rest()), keys[j]))
  {
    hide Decode;
    i := ExpectEnumOptional(r, keys);
    if i == |keys| { return; }
    if found[i] {
      r.FlagError(Invalid);
      return |keys|;
    }
    found[i] := true;
  }
}
