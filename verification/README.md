# OpenPython MessagePack, verified model

A Dafny model of the MessagePack codec bundled with OpenPython (`src/lib/mpack`) and of the object
mapper on top of it (`src/msgpack.c`), with proofs. `dafny verify dfyconfig.toml` checks all of it.

Everything is measured against one recursive definition of a MessagePack value and its encodings
(`Values.dfy`), which follows the MessagePack specification, section "Formats". `Formats.dfy` holds the
table of this section once more, on plain numbers, and shows that the printer and the parser follow it.
The C code is kept in its own form: classes with the fields of the C structures, methods with its
branches and loops, and byte arrays where it writes in place. Each method is proved against a function
or predicate on the plain bytes, and what the code promises is proved about those.

| files | part of the repository |
|---|---|
| `Bytes`, `Memory`, `Errors`, `Doubling` | fixed-width integers, big-endian loads and stores, `mpack-platform.c`, doubling in 32 bits |
| `Tags`, `Formats`, `TagOrder`, `Timestamps`, `Values` | headers, their printer and parser, the formats of the specification, the tag order, timestamps, values |
| `Utf8` | the UTF-8 checker, against RFC 3629 sections 3 and 4 |
| `Track`, `TrackedRuns`, `Brackets` | the track stack, what an accepted run of calls has written, and which runs are accepted |
| `Writer` | the buffered writer with its growing flush |
| `Reader`, `Reads`, `ReaderRuns`, `Discard`, `Expect` | the buffered reader and what is built on it |
| `NodePages`, `Nodes`, `Tree`, `Lookup` | the tree parser, its page allocator, lookups in a parsed tree |
| `Objects`, `DumpForms`, `Loads`, `Dicts`, `Meanings`, `RoundTrips`, `Acceptance` | `msgpack.c`: Python objects out and in |

## How the model reads

- `size_t` is 32 bits wide, as on the Cortex-M0 target. Tags, lengths and integers carry their
  widths in their types; conversions between widths and signs are written out.
- A call that depends on the outside, an allocation, a fill, a read, a flush, takes its result from a
  list of results that is a parameter. Nothing is assumed about the list unless a contract says so:
  `Healthy`, `Tame`, `Prompt` and `Dependable` name the runs in which allocation succeeds and a fill or
  read function keeps its promises.
- A call that never returns is modelled as an error of its own, `NoReturn`, or as the outcome `Hangs`.
- `Wrote`, `Kept`, `Advanced`, `Fed` and `Holds` are the words the contracts share. `Wrote(t, data)`:
  without an error `data` has been appended and the track stack has gone to `t`. `Kept`: an error,
  once flagged, stays, with the position, and the handler has been called once. `Advanced(n)`: what is
  left to read is what was left without its first `n` bytes.
- Floats are bit patterns.

## Findings

- `mpack_skip_bytes` flags a tracking misuse and goes on skipping. With a fill function and a short
  skip this puts bytes back into the emptied buffer, so that the position moves after the error.
  `Readers.Reader.SkipBytes` says exactly when; `Reads.SkipMovesAfterError` is a proved instance.
- `msgpack_loads` asks for leftover bytes but not for the error of the reader, and
  `mpack_reader_remaining` returns zero after an error. A block cut off inside a list therefore loads,
  with None for what is missing (`Acceptance.TruncatedIsAccepted`), and so does a UValue around such a
  block, which leaves the outer reader in order (`Acceptance.NestedTruncatedIsAccepted`).
  `Acceptance.LoadsAccepts` says by the bytes of a block whether it loads, and that no object is made
  up exactly when the block is whole: one value from end to end, and so every block nested in it.
- A string that is not well-formed UTF-8, such as the encoding of a surrogate, can be dumped but not
  loaded: the loader goes on with the NULL that `mpack_read_utf8_inplace` returned
  (`RoundTrips.IllFormedTextIsLost`). The round trip holds exactly without such strings
  (`RoundTrips.LoadsOfDumps`).
- An int beyond 32 bits is dumped as its low 32 bits, without an error. It loads as itself exactly when it
  has 32 bits (`RoundTrips.IntegersAreCut`). Two keys of a dict that are cut to the same number load as one
  entry, with the value of the second (`Dicts.LoadedDict`).
- The loops that double a buffer multiply in 32 bits. For more than two to the 31 bytes they come to
  zero and never end (`Doubling.LoopEnds`). A tree on a stream returns if its size limit is at most two
  to the 31 (`Trees.Tree.TryParse`); for every limit beyond there are five bytes on which it does not
  (`Trees.BeyondTwoToThe31`, `Trees.ParseHugeBin`). A growable writer returns exactly for up to two to
  the 31 bytes of output (`Writers.Session`).
- A tree on a stream can find a message too big that is within its size limit: the size check adds the
  bytes a node takes to those in the buffer, which may be some of them. Whether it does depends on how
  the bytes come in (`Trees.ParseSplit`). A message of which twice the length but two is within the limit
  is never found too big (`Trees.Tree.TryParse`), and for the str of `ParseSplit` no less will do.
- `mpack_growable_writer_flush` takes a call that finds the used count unchanged for a teardown. A
  flush of an empty buffer is such a call: it does not grow, and the flush of the extra data that
  follows grows by itself. Nothing is lost (`Writers.Writer.FlushUnchecked`, `WriteNativeStraddle`).
- `mpack_writer_destroy` drops the result of the last track check. Output is then complete exactly when
  no open element lacks anything (`TrackedRuns.TrackingIsExact`, `Writers.Session`);
  `TrackedRuns.OpenArrayIsIncomplete` is a run that ends without an error and without it.

## Model

| member | source | states |
|---|---|---|
| Bytes.LoadStoreU16 | src/lib/mpack/mpack-common.h:710-765 | a 16-bit load undoes the store, whatever bytes follow |
| Bytes.LoadStoreU32 | src/lib/mpack/mpack-common.h:721-778 | a 32-bit load undoes the store, whatever bytes follow |
| Bytes.LoadStoreU64 | src/lib/mpack/mpack-common.h:734-795 | a 64-bit load undoes the store, whatever bytes follow |
| Formats.LoadsAreBigEndian | src/lib/mpack/mpack-common.h:710-750 | the loads give the number that the first two, four or eight bytes stand for, the most significant first |
| Formats.StoresAreBigEndian | src/lib/mpack/mpack-common.h:755-795 | the stores give the bytes that stand for the number |
| Formats.SignedLoads | src/lib/mpack/mpack-common.h:797-800 | read as signed, the loads give the same bytes in two's complement |
| Memory.Memcpy | src/lib/mpack/mpack-platform.c:162-168 | the destination holds the data at the given place and is unchanged elsewhere |
| Memory.Memmove | src/lib/mpack/mpack-platform.c:172-184 | for regions that overlap in either direction, the bytes that end up at the target are the old bytes of the source region, and nothing else changes |
| Memory.Memcmp | src/lib/mpack/mpack-platform.c:148-158 | the result is the sign of the first difference, zero for equal blocks |
| Memory.CompareByIndex | src/lib/mpack/mpack-platform.c:148-158 | at the first place where the blocks differ, the block with the smaller byte is the smaller one |
| Tags.TagRoundTrip | src/lib/mpack/mpack-writer.c:520-709 | for every tag but missing, parsing the printed header followed by any bytes consumes exactly the header and returns an equal tag; every assertion of an encoder holds where it is called, because each is the precondition of a function |
| Formats.ParserFollowsFormats | src/lib/mpack/mpack-reader.c:578-902 | a header of k bytes is parsed as a tag exactly when the specification lists these bytes as a header of that tag, for every first byte and every field behind it |
| Formats.PrinterFollowsFormats | src/lib/mpack/mpack-writer.c:520-709 | the printed bytes are a header of the tag in the table of the specification |
| Formats.PrinterIsShortest | src/lib/mpack/mpack-writer.c:746-1051 | of all the headers that the specification has for the tag, every other one is longer |
| Tags.PrinterIsMinimal | src/lib/mpack/mpack-writer.c:746-1051 | no header that parses to an equal tag is shorter than the printed one |
| Tags.WidthsAgree | src/lib/mpack/mpack-writer.c:746-904 | the 8-, 16- and 32-bit integer writers emit the bytes of the 64-bit ones, signed or unsigned |
| Tags.ParseTagPrefix | src/lib/mpack/mpack-reader.c:578-902 | the parsed tag depends on the header bytes only |
| Tags.ParseTagCases | src/lib/mpack/mpack-reader.c:578-902 | a header is complete exactly when its first byte is not the reserved one and as many bytes are there as that first byte asks for; the tag is read from those bytes |
| TagOrder.EqualTags | src/lib/mpack/mpack-common.c:79-151 | tags compare equal exactly when they are the same tag, a non-negative int counting as a uint; floats by their bits |
| TagOrder.Antisymmetric | src/lib/mpack/mpack-common.c:79-151 | swapping the operands negates the result |
| TagOrder.Transitive | src/lib/mpack/mpack-common.c:79-151 | the order is transitive across all twelve types |
| TagOrder.IntegersByValue | src/lib/mpack/mpack-common.c:79-151 | integers are ordered by their mathematical value, whichever tag type holds them |
| TagOrder.NumbersByType | src/lib/mpack/mpack-common.c:132-144 | integers come before all floats, and floats before all doubles |
| TagOrder.TypesInOrder | src/lib/mpack/mpack-common.h:177-190 | the order of the twelve types, from missing to map |
| TagOrder.WithinType | src/lib/mpack/mpack-common.c:99-130 | false before true, lengths and counts by size, exts by their type and then their length |
| TagOrder.FloatsByMemory | src/lib/mpack/mpack-common.c:132-144 | floats and doubles are compared as they lie in memory, the least significant byte first |
| TagOrder.ParsedTagIsEqual | src/lib/mpack/mpack-reader.c:578-902 | the tag parsed from a printed header is equal to the printed tag in the sense of the comparison function |
| Values.DecodeFlat | src/lib/mpack/mpack-node.h:175-197 | the recursive decoder agrees with one that only counts outstanding values: the children of the first value may be counted among the values still to come |
| Values.DecodedWellFormed | src/lib/mpack/mpack-reader.c:578-902 | decoded values carry as many payload bytes and children as their tags say |
| Values.RoundTrip | src/lib/mpack/mpack-writer.c:942-1126 | for every list of well-formed values, decoding their encoding gives the values back, with non-negative ints as uints, and stops where the encoding ends |
| Utf8.Check | src/lib/mpack/mpack-common.c:513-601 | the checker accepts exactly the concatenations of RFC 3629 section 3 encodings of Unicode scalar values; the no-null variant exactly those without U+0000 |
| Utf8.TextIsUnique | src/lib/mpack/mpack-common.c:513-601 | a byte string is the encoding of at most one text |
| Utf8.ValidIffText | src/lib/mpack/mpack-common.c:513-601 | the recursive reading of the section 4 grammar and the existence of a text are the same thing |
| Utf8.FirstIsSound | src/lib/mpack/mpack-common.c:513-601 | a sequence the checker accepts is the encoding of the scalar value it computes |
| Utf8.FirstIsComplete | src/lib/mpack/mpack-common.c:513-601 | the encoding of every scalar value, whatever follows, is accepted as that value with that length |
| Utf8.Code4Value | src/lib/mpack/mpack-common.c:579-588 | the shifts and masks of the four-byte case, on 32 bits, compute the number that the bytes stand for |
| Track.TrackStack.PushElement | src/lib/mpack/mpack-common.c:364-384 | the element is put on top, counted twice for a map; the array doubles when full; failure leaves the contents alone |
| Track.TrackStack.PopElement | src/lib/mpack/mpack-common.c:386-412 | the top element goes exactly when it has the right type and nothing left; any other pop is a misuse that changes nothing (the law over whole runs is `Brackets.TrackerIsBrackets`) |
| Track.TrackStack.PeekElement | src/lib/mpack/mpack-common.c:414-437 | an element may stand here exactly at the bottom or in an array or map that still lacks one |
| Track.TrackStack.CountElement | src/lib/mpack/mpack-common.c:439-444 | counts one element of the innermost container, or reports a misuse and changes nothing |
| Track.TrackStack.CountBytes | src/lib/mpack/mpack-common.c:446-471 | takes bytes from the innermost str, bin or ext, or reports a misuse and changes nothing |
| Track.TrackStack.CountAllBytes | src/lib/mpack/mpack-common.c:473-491 | succeeds exactly when the innermost element is a str with exactly that many bytes left |
| Track.TakeAllByTop | src/lib/mpack/mpack-common.c:473-491 | all bytes are taken at once exactly when a str is innermost and lacks just these |
| Brackets.TrackerIsBrackets | src/lib/mpack/mpack-common.c:364-499 | told by the calls alone: a run is accepted exactly when every call closes the innermost element not yet closed as the type it was opened as, with all it was said to hold, puts elements only at the top or in arrays and maps with room for them, and bytes in strs, bins and exts; the stack is then the elements not yet closed, each with its type and what it lacks |
| Brackets.CallsAreBrackets | src/lib/mpack/mpack-writer.h:604-625 | so with every run of writer calls |
| Brackets.WrongCloseIsMisuse | src/lib/mpack/mpack-common.c:397-401 | an empty array that is closed as a map is a misuse |
| Brackets.ReadsAreBrackets | src/lib/mpack/mpack-reader.c:438-1050 | so with every run of reads: with tracking it succeeds exactly where it succeeds without and every read is in its place |
| TrackedRuns.TrackingIsExact | src/lib/mpack/mpack-common.c:364-499 | a tracked run of calls without a misuse has emitted a concatenation of complete values and nothing else exactly when no open element lacks anything, so in particular when the stack is empty; and then as many values as elements were counted with nothing open |
| TrackedRuns.OpenArrayIsIncomplete | src/lib/mpack/mpack-writer.c:439-458 | an accepted run that leaves the other case: an array header without its element, whose byte is no concatenation of values |
| TrackedRuns.TrackingIsComplete | src/lib/mpack/mpack-common.c:364-499 | for every well-formed value there is a run that the tracker accepts wherever an element may stand, that emits exactly the encoding of the value and counts as exactly one element |
| TrackedRuns.ContainerTrack | src/lib/mpack/mpack-common.c:364-444 | a container counts its elements down one by one and closes as one element of its parent |
| Timestamps.TimestampRoundTrip | src/lib/mpack/mpack-writer.c:711-728 | for every int64 of seconds and up to 999999999 nanoseconds, the payload of 4, 8 or 12 bytes holds the same pair |
| Timestamps.TimestampReadsBack | src/lib/mpack/mpack-writer.c:916-940 | reading the emitted bytes gives an ext header of type -1 and a payload with the same pair, and stops where the timestamp ends |
| Timestamps.TimestampBytes | src/lib/mpack/mpack-writer.c:711-728 | the emitted bytes: d6 ff and four bytes of seconds, d7 ff and eight bytes of both numbers, or c7 0c ff and twelve bytes, each exactly for its range of pairs |
| Timestamps.TimestampNumbers | src/lib/mpack/mpack-node.c:1356-1398 | the pair in a payload of four, eight or twelve bytes by the numbers these stand for; too many nanoseconds and every other length are refused |
| Timestamps.TimestampIsOneValue | src/lib/mpack/mpack-writer.c:916-940 | the emitted bytes are the ext header of type -1 for the payload followed by the payload |
| Timestamps.TimestampIsMinimal | src/lib/mpack/mpack-writer.c:916-940 | no shorter payload holds the same pair |
| Writers.Writer.Grow | src/lib/mpack/mpack-writer.c:152-184 | the used bytes survive the reallocation and `count` more fit behind them; the new size is the one that doubling reaches in 32 bits, and the call never returns exactly where that is more than two to the 31 |
| Doubling.LoopEnds | src/lib/mpack/mpack-writer.c:162-166 | the doubling loop on the 32 bits of size_t, from a power of two: it ends exactly when two to the 31 is enough, and then with the size that unbounded numbers give |
| Writers.Writer.GrowableFlushBuffer | src/lib/mpack/mpack-writer.c:126-187 | with the used count reset the buffer doubles and keeps its bytes, unless it has two to the 31 of them; with the bytes still in use, which the code takes for a teardown, nothing happens |
| Writers.Writer.GrowableFlushExtra | src/lib/mpack/mpack-writer.c:126-187 | data from outside the buffer is appended to the used bytes in a grown buffer, exactly as long as two to the 31 bytes are enough |
| Writers.Writer.FlushUnchecked | src/lib/mpack/mpack-writer.c:323-330 | nothing written so far is lost: the output is the same before and after |
| Writers.Writer.Ensure | src/lib/mpack/mpack-writer.c:355-383 | success means room for the bytes asked for and an unchanged output; a healthy growable writer succeeds exactly up to two to the 31 bytes |
| Writers.Writer.WriteNativeStraddle | src/lib/mpack/mpack-writer.c:389-425 | without an error exactly the given bytes have been appended to the output, in every flush mode; growth stays within the amortised bounds |
| Writers.Writer.WriteNative | src/lib/mpack/mpack-writer.c:428-437 | the same for bytes that fit and bytes that do not |
| Writers.Writer.WriteEncoded | src/lib/mpack/mpack-writer.c:739-744 | without an error exactly the encoded header has been appended |
| Writers.Writer.WriteScalar | src/lib/mpack/mpack-writer.c:489-509 | counts one element and appends the header of the tag |
| Writers.Writer.Start | src/lib/mpack/mpack-writer.c:942-1051 | counts one element, appends the header and opens the element on the track stack |
| Writers.Writer.WriteBytes | src/lib/mpack/mpack-writer.c:1128-1132 | takes the bytes from the open element and appends them |
| Writers.Writer.Finish | src/lib/mpack/mpack-writer.h:604-625 | closes the innermost element, or flags an error when it is of another type or not complete |
| Writers.Writer.WriteTag | src/lib/mpack/mpack-writer.c:460-487 | writes the header of every tag and refuses the missing tag |
| Writers.Writer.WriteStr | src/lib/mpack/mpack-writer.c:1059-1112 | one element, header and data, whether written in one piece or in two |
| Writers.Writer.WriteBlob | src/lib/mpack/mpack-writer.c:1114-1126 | bin and ext as one element: opened, filled and closed |
| Writers.Writer.WriteUtf8 | src/lib/mpack/mpack-writer.c:1149-1156 | well-formed text is written as a str; anything else flags an error and writes nothing |
| Writers.Writer.WriteTimestamp | src/lib/mpack/mpack-writer.c:916-940 | a timestamp is written as one element; too many nanoseconds flag an error and write nothing |
| Writers.Writer.FlushMessage | src/lib/mpack/mpack-writer.c:332-350 | without an error before, it succeeds exactly with nothing open, if the stream takes the bytes, or memory for the growable buffer is there; the output is kept and a stream has received all of it |
| Writers.Writer.Run | src/lib/mpack/mpack-writer.c:355-437 | any run of calls appends the concatenation of what the calls emit, takes the track stack where the tracker says, and keeps the amortised bounds: the capacity is 4096 or under twice the bytes written, and all bytes moved by growing together with the first 4096 are at most the capacity; with memory for the asking and no misuse a growable writer fails exactly for more than two to the 31 bytes |
| Writers.Writer.Teardown | src/lib/mpack/mpack-writer.c:189-224 | the caller gets a block that starts with exactly the bytes written, cut to their length when less than half of it is used and never empty; on error NULL and zero |
| Writers.Writer.Destroy | src/lib/mpack/mpack-writer.c:439-458 | the output is handed over whole, or flushed whole to the stream; on error the target stays NULL and zero; the result of the final track check plays no part |
| Writers.InitGrowable | src/lib/mpack/mpack-writer.c:226-250 | an empty growable writer within its bounds; without memory for the buffer or for the track stack, the memory error, in the first case without a flush function |
| Writers.Session | src/lib/mpack/mpack-writer.c:226-458 | a whole life of a growable writer: without error the caller has exactly the bytes of the calls, and these are complete values exactly when no open element lacks anything; with memory for the asking and no misuse it ends without an error exactly for up to two to the 31 bytes, and for more it does not return |
| Readers.Reader.constructor | src/lib/mpack/mpack-reader.c:30-93 | a reader on a buffer with fill and skip functions, or on constant data; without memory for the track stack it starts in the memory error |
| Readers.Reader.FlagError | src/lib/mpack/mpack-reader.c:211-220 | the first error stays, empties the buffer and calls the handler once; later ones do nothing |
| Readers.Reader.FillRange | src/lib/mpack/mpack-reader.c:224-246 | at least the minimum arrives, as the next bytes of the source at the given place, or an error is flagged; a fill function that keeps its promise fails only when the source is too short |
| Readers.Reader.EnsureStraddle | src/lib/mpack/mpack-reader.c:248-288 | what is left moves to the start of the buffer and is topped up: the remaining stream is the same and enough of it is buffered |
| Readers.Reader.Ensure | src/lib/mpack/mpack-reader.h:860-867 | the remaining stream is the same and enough of it is buffered; on constant data this succeeds exactly when there are enough bytes |
| Readers.Reader.ReadNativeStraddle | src/lib/mpack/mpack-reader.c:292-360 | the next bytes of the stream are delivered, through the buffer for small reads and directly for large ones; zeros after an error |
| Readers.Reader.ReadNative | src/lib/mpack/mpack-reader.h:873-882 | the next bytes of the stream are delivered and the stream goes on behind them |
| Readers.Reader.ReadBytes | src/lib/mpack/mpack-reader.c:438-442 | the same under tracking, which fails exactly when the tracker objects |
| Readers.Reader.ReadInplaceNotrack | src/lib/mpack/mpack-reader.c:542-559 | the bytes at the returned place in the buffer are the next bytes of the stream |
| Readers.Reader.SkipUsingFill | src/lib/mpack/mpack-reader.c:410-436 | exactly `count` bytes of the source are passed by fills of the whole buffer |
| Readers.Reader.SkipBytes | src/lib/mpack/mpack-reader.c:393-408 | exactly `count` bytes are passed; an error, once flagged, freezes the position except in one case, which is given exactly: a tracking misuse before a short skip by the fill function |
| Reads.SkipMovesAfterError | src/lib/mpack/mpack-reader.c:393-436 | that case happens, after two tags have been read: after the error there are bytes in the buffer again |
| Readers.Reader.ParseHeader | src/lib/mpack/mpack-reader.c:578-902 | success exactly when the stream starts with a complete header, which is returned and not consumed |
| Readers.Reader.ReadTag | src/lib/mpack/mpack-reader.c:904-943 | the tag at the front of the stream is consumed and opened on the track stack, for which memory may be missing; nil after an error; a header that lies in the buffer is read without a fill |
| Readers.Reader.TrackPush | src/lib/mpack/mpack-common.c:364-384 | the element is opened on the track stack of the reader, which doubles when full; without memory the error is flagged |
| Readers.Reader.PeekTag | src/lib/mpack/mpack-reader.c:945-958 | the tag a read would return; the stream does not move |
| Readers.Reader.Done | src/lib/mpack/mpack-reader.c:1047-1050 | closes the innermost element or flags a misuse |
| ReaderRuns.Perform | src/lib/mpack/mpack-reader.c:438-576 | one client call, copying, in place, skipping, reading, peeking or closing an element, gives what the plain stream and the tracker would give, and fails only where they do; an error leaves the reader settled, with the one exception of the skip |
| ReaderRuns.Run | src/lib/mpack/mpack-reader.c:224-436 | for any fill function and any run of client calls without error, the client has seen what an unbuffered stream gives and stands where it would stand there, with the track stack it would have there; with a fill function that delivers at least a byte and memory for the track stack there is an error exactly when the stream runs out or the tracker objects; after an error every call gives nil, NULL or zeros and nothing moves, with tracking on or off |
| ReaderRuns.ReadingIsExact | src/lib/mpack/mpack-common.c:364-499 | a run of reads that starts with nothing open and that the tracker accepts has read complete values and nothing else exactly when no open element lacks anything, and then as many as were counted with nothing open |
| ReaderRuns.Session | src/lib/mpack/mpack-reader.c:224-576 | the same for the bytes a buffered reader has gone past, however they came in |
| Reads.ReadBytesInplace | src/lib/mpack/mpack-reader.c:561-564 | the in-place read under tracking |
| Reads.ReadUtf8Inplace | src/lib/mpack/mpack-reader.c:566-576 | on constant data it succeeds exactly when the bytes are there, are well-formed text, and are all of the open str |
| Reads.ReadBytesAlloc | src/lib/mpack/mpack-reader.c:505-537 | the block holds the next bytes, with a null behind them if asked for; the handler taken out for the copy is called exactly once if anything fails; with memory and a fill function that keeps its promise only the tracker can object |
| Reads.ReadTimestamp | src/lib/mpack/mpack-reader.c:1001-1044 | the pair the payload holds by the standard; an error exactly for payloads that hold none, or when the tracker objects to taking and closing the ext |
| Discards.Discard | src/lib/mpack/mpack-reader.c:960-999 | goes past exactly one value, whose size is what the tree parser reports, and leaves the track stack with one element counted; succeeds exactly when the recursive decoder finds a value and the tracker allows one; an error leaves nothing to read |
| Expect.ExpectInteger | src/lib/mpack/mpack-expect.c:74-174 | succeeds with v exactly when the stream holds the integer v in any encoding and v lies in the range of the type |
| Expect.ExpectNative | src/lib/mpack/mpack-expect.c:31-63 | the big-endian number in the next bytes |
| Expect.ExpectStr | src/lib/mpack/mpack-expect.c:448-477 | succeeds on exactly the inputs on which reading the tag gives a str, with the same length and position |
| Expect.ExpectKeyUint | src/lib/mpack/mpack-expect.c:758-792 | succeeds exactly when there is a value, the tracker allows one, and it is not the key of a mark already set; a key below the count is then marked and returned, and any other value is skipped whole with nothing marked |
| Expect.ExpectEnum | src/lib/mpack/mpack-expect.c:704-724 | succeeds exactly when there is a str of the list and the tracker allows it, and returns its first place; the str has to fit the buffer if there is a fill function |
| Expect.ExpectEnumOptional | src/lib/mpack/mpack-expect.c:726-756 | succeeds exactly when there is a value and the tracker allows one, goes past it and returns the first place of the str in the list, or the number of strings when the value is no str of the list |
| Expect.ExpectKeyCstr | src/lib/mpack/mpack-expect.c:794-810 | the same, with an error exactly for a key that has been marked; a key found is marked |
| NodePages.NodeArena.Take | src/lib/mpack/mpack-node.c:275-340 | the children get consecutive slots inside one page or the pool that were handed to nobody before; every slot of every page is handed out, still free, or lost in a shared page that was abandoned, at most an eighth of each such page; a page is added exactly when the current one is too short |
| Trees.Tree.FromData | src/lib/mpack/mpack-node.c:964-981 | a tree on constant data, with pages |
| Trees.Tree.FromPool | src/lib/mpack/mpack-node.c:984-1006 | a tree on constant data with a pool; a pool of no nodes is an error and leaves no data |
| Trees.Tree.FromStream | src/lib/mpack/mpack-node.c:1017-1029 | a tree on a read function with a bound on the message size |
| Trees.Tree.GrowBuffer | src/lib/mpack/mpack-node.c:100-125 | the capacity that doubling in 32 bits reaches, cut at the maximum, and so under twice the need or at most 4096; the loop never ends exactly when more than two to the 31 bytes are needed |
| Trees.Tree.ReserveFill | src/lib/mpack/mpack-node.c:75-157 | bytes come in at the end of the data and are all counted as possible nodes; without an error it succeeds exactly when there are then enough of them, and no call of the read function has failed; the size check is on 32 bits; where memory and the read function do not fail, it stops only for more bytes than there are, or where the bytes of the node that are in the buffer, counted twice, exceed the size limit |
| Trees.Tree.ReserveBytes | src/lib/mpack/mpack-node.c:168-195 | without an error, and always on constant data, it succeeds exactly when the bytes reserved for the node do not exceed the possible nodes left; a sum over 32 bits is invalid |
| Trees.Tree.PushStack | src/lib/mpack/mpack-node.c:205-252 | a level on top for a container that is not empty; the stack doubles when full |
| Trees.Tree.ParseChildren | src/lib/mpack/mpack-node.c:254-340 | the children are reserved one byte each before storage is taken for them, and get fresh slots and a level |
| Trees.Tree.ParseBytes | src/lib/mpack/mpack-node.c:342-352 | the payload is reserved and the node holds the offset of its first byte, behind the type byte of an ext |
| Trees.Tree.ParseNodeContents | src/lib/mpack/mpack-node.c:354-700 | the node becomes what the header parser of the reader makes of the same bytes; without an error it fails only for missing bytes, and where memory and the read function do not fail only for those, for the reserved first byte, for a pool that is used up or for the size limit |
| Trees.Tree.ParseNode | src/lib/mpack/mpack-node.c:702-732 | the first byte and the reserved bytes of the node are consumed |
| Trees.Tree.ParseNext | src/lib/mpack/mpack-node.c:739-772 | one round keeps the conservation law: bytes received = bytes parsed + possible nodes left + nodes pending on all levels, and the promise that finishing the pending nodes finishes the message; size grows, or the round is taken back whole |
| Trees.Tree.ContinueParsing | src/lib/mpack/mpack-node.c:739-772 | the loop ends; where it ends without an error, it has finished the message or the bytes there are do not hold a whole one; where memory and the read function do not fail, it has finished the message, or there is no whole one, or one with more nodes than the pool or with no room under the size limit |
| Trees.Tree.ParseStart | src/lib/mpack/mpack-node.c:795-882 | the message before is dropped and the root set up with one byte set aside for it |
| Trees.Tree.TryParse | src/lib/mpack/mpack-node.c:915-930 | true means that the input from the start of the message begins with a value, however it came in: the graph from the root unfolds to it, the size is its length, the possible nodes left are the bytes behind it, and exactly as many nodes were handed out as the value has; a call that pauses loses nothing and has not received a whole message. Where only the input can make it fail, on constant data, with a pool, or on a stream that delivers all it has, it returns true exactly when the input begins with a value whose nodes fit the pool, if a stream has room for twice the value but two bytes under the size limit; a stream that holds bytes back for a while makes no error of it. With a size limit of at most two to the 31 the call returns; with a larger one it does not return where the first node takes more than that |
| Trees.Tree.Parse | src/lib/mpack/mpack-node.c:884-913 | the same in one go: no error exactly when the input begins with a value whose nodes fit the pool |
| Trees.ParseMessages | src/lib/mpack/mpack-node.c:795-930 | successive calls: the values of those that succeed are the successive messages of the input; where only the input can make a call fail, call number i succeeds exactly when the input holds i messages of which each fits the pool, if there is one |
| Trees.BeyondTwoToThe31 | src/lib/mpack/mpack-node.c:100-125 | there is input on which the doubling loop never ends exactly for size limits beyond two to the 31, and then the five bytes of one bin header are such input |
| Trees.ParseHugeBin | src/lib/mpack/mpack-node.c:884-930 | these five bytes on a stream that delivers them at once, with memory for the asking: the call never returns |
| Trees.ParseSplit | src/lib/mpack/mpack-node.c:83-88 | a short str within the size limit, of which all but the last byte come in first: it is found too big unless twice its payload is within the limit |
| Nodes.ReservedIsTaken | src/lib/mpack/mpack-node.c:702-772 | a message that is not whole yet takes at least the bytes that its next item reserves |
| Nodes.DenotesIsFunctional | src/lib/mpack/mpack-node.h:142-162 | a node graph unfolds to one value only |
| Nodes.StarvedIsIncomplete | src/lib/mpack/mpack-node.c:702-772 | where the next item takes more bytes than there are possible nodes left, the bytes received hold no whole message |
| Nodes.CrowdedIsTooMany | src/lib/mpack/mpack-node.c:275-295 | where the next item has more children than the pool has nodes left, a whole message has more nodes than the pool |
| Nodes.ParserStep | src/lib/mpack/mpack-node.c:702-772 | making the first pending node and putting its children in its place keeps what the loop promises about the whole message |
| Lookups.MapLookup | src/lib/mpack/mpack-node.c:1652-1745 | the value of the only entry with the key; NULL and no error exactly when there is none; the data error exactly when there are two; int and uint lookups both go by the number |
| Lookups.NodeTimestamp | src/lib/mpack/mpack-node.c:1356-1398 | on a payload of type -1 the pair the reader gives for the same payload, and an error exactly where the reader has one |
| Objects.Dump | src/msgpack.c:155-226 | an object is written as the one value that stands for it and counts one element of its parent; with memory for the asking it returns for an object without a part of unknown type and raises a TypeError for any other, as long as two to the 31 bytes are enough |
| DumpForms.EncodingIsDump | src/msgpack.c:155-226 | what is written, type by type, in the formats of the specification: None as nil, a string as a str of its bytes, an int as the integer it is cut to, a dict as the map of its filled slots |
| DumpForms.TruncatedIsCut | src/msgpack.c:171-174 | an int is cut to the number of 32 bits that differs from it by a multiple of two to the 32, and is that number where it fits |
| Objects.DumpArray | src/msgpack.c:196-204 | lists and tuples: the items in order |
| Objects.DumpDict | src/msgpack.c:205-216 | dicts: the filled slots in the order of the table, keys before values |
| Objects.DumpValue | src/msgpack.c:217-222 | a UValue is an ext of type 1 around the dump of its value |
| Objects.Dumps | src/msgpack.c:245-251 | the block starts with exactly the encoding of the object; with memory for the asking it returns exactly for an object without a part of unknown type, or raises a TypeError, as long as two to the 31 bytes are enough, and otherwise does not return |
| Objects.ArgsDumps | src/msgpack.c:254-263 | exactly what dumping the tuple of the arguments gives |
| Loads.Load | src/msgpack.c:13-137 | the recursive loader does on any bytes, complete or not, what the byte-level function LoadOne says: same object or exception, same bytes left, same error state |
| Loads.Loads | src/msgpack.c:145-153 | the same for a whole block, with a ValueError for bytes left over |
| Loads.HowLoadsFail | src/msgpack.c:145-153 | a payload cut short ends in the null pointer of the reader, an ext of another type than 1 and bytes left over in a ValueError |
| Dicts.LoadedDict | src/msgpack.c:96-110 | what the dict holds, told by the pairs of the map: one entry for each key that is equal to none before, in the place and with the object of its first pair, and with the value of the last pair stored under it |
| Dicts.MapLoadsAsDict | src/msgpack.c:96-110 | so for a loader that comes to the header of a map |
| Dicts.NewByEquality | src/msgpack.c:105-105 | where equality of keys is symmetric and transitive, a key is new exactly when no pair before has an equal key |
| Dicts.StoredByEquality | src/msgpack.c:105-105 | and a pair is stored under the first pair with an equal key |
| Meanings.LoadMeans | src/msgpack.c:13-137 | loading from a stream that begins with a value gives what the value means, defined on values alone, and stops behind it |
| Meanings.EncodingDoesNotMatter | src/msgpack.c:13-137 | two streams that begin with equal values, whatever headers these are written with, load as the same object or fail in the same way |
| Meanings.ShortestLoadsAlike | src/msgpack.c:145-153 | a block that is one value loads exactly as the block with the shortest headers for this value |
| RoundTrips.LoadsOfDumps | src/msgpack.c:145-251 | loading a dump gives the object back, with lists as tuples and integers cut to 32 bits, and nothing left over, if and only if its strings are well-formed UTF-8 and the keys of every dict are hashable and differ from each other |
| RoundTrips.IntegersAreCut | src/msgpack.c:171-174 | the dump of n loads as m exactly when m has 32 bits and differs from n by a multiple of two to the 32, so as n itself exactly when n has 32 bits |
| RoundTrips.LoadDumped | src/msgpack.c:13-226 | the same inside a longer stream: loading stops where the dump ends |
| RoundTrips.DumpsThenLoads | src/msgpack.c:145-251 | the two calls, one after the other, on the buffers they really use; with memory for the asking the first fails only for a part of unknown type or more than two to the 31 bytes |
| RoundTrips.IllFormedTextIsLost | src/msgpack.c:66-76 | the dump of a string that is not well-formed UTF-8 does not load: the loader goes on with the NULL of the reader |
| RoundTrips.SurrogateIsLost | src/msgpack.c:66-76 | so with the encoding of a surrogate, which a Python string can hold |
| Acceptance.LoadsAccepts | src/msgpack.c:145-153 | a block loads exactly when its bytes let the loader through, where headers may be missing but payloads may not be cut short, text is well formed and ext types are 1, with nothing left over, and the keys of its dicts are hashable; among these blocks, the ones that are whole, nested blocks included, are exactly those that leave no reader in its error state |
| Acceptance.LoadGoes | src/msgpack.c:13-137 | the same for one value inside a stream, with the place where the loader ends |
| Acceptance.LoadConsumes | src/msgpack.c:13-137 | a load that raises nothing has gone past exactly one value if there was one, and otherwise leaves the reader in its error state; readers of nested blocks end in order exactly when these blocks are whole |
| Acceptance.TruncatedIsAccepted | src/msgpack.c:145-153 | a block that loads without being whole: the header of an array of two without its elements loads as a tuple of two None |
| Acceptance.NestedTruncatedIsAccepted | src/msgpack.c:117-123 | another one, which is one whole value to the outer reader: the same header inside a UValue |

## Left out

- Trees.Tree.TryParse: the buffer of a tree is a sequence of the bytes received; moving it, and the
  address into it that the code takes before it may move (`src/lib/mpack/mpack-node.c:362`), are not
  modelled; it is taken for the offset it stands for.
- Trees.Tree.Parse: `max_nodes` is stored by the code and never used.
- NodePages.NodeArena.Take: nodes are counted, not bytes. That the size in bytes of a page for more than two
  to the 28 children does not fit `size_t` is not modelled.
- Writers.Writer.Grow: the bytes in use and the bytes to write lie in one address space, so that the sum of
  their counts is taken not to wrap.
- Track.TrackStack.PushElement: the reader and the writer keep the stack as a sequence with a capacity and
  take the steps that this class is proved to take on its array; they do not hold an object of it.
- Readers.Reader.SkipUsingFillAfterError: the bytes that this one fill call puts into the emptied
  buffer are not modelled.
- Objects.Dump: Python objects and hash tables are values; that an object could contain itself, and
  lists changing while they are dumped, are not modelled. Strings and blocks fit the address space and
  the used count of a dict is the number of its filled slots.
- Loads.Load: the Python runtime is a parameter (which keys are hashable, when two are equal, how a
  double becomes a float); a loaded dict is the list of its entries in the order in which they were
  stored; allocation by the runtime succeeds; no object hook is set.
- Loads.Load: read tracking is off, as in the firmware; with tracking on the code closes scalars and
  maps with the wrong call.
- Nodes.DenotesIsFunctional: nodes are addressed by number, not by pointer, and a node is one of three
  cases instead of a union.
- `mpack_write_object_bytes`, which the tracker cannot see into.
- `mpack_expect_str_match`, whose result depends on the signedness of `char`, and the expect and node
  functions that convert floating point numbers.
- The many getters and typed variants built on the modelled reads: they would add easy members.
- Files, printing and other code behind `MPACK_STDIO` and `MPACK_DEBUG`, and `MPACK_COMPATIBILITY`:
  not compiled into the firmware.
- System calls, the micropython modules, the file system, boot code and scripts.
