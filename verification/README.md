# A verified model of the TUX object file format

An object file is a 32-byte header, a metadata section, a tag section and content. This project models how such files
are laid out, written, published, read and updated, and proves what the format, the documentation and the tests of the
repository promise of them. `dafny verify dfyconfig.toml` checks everything.

## How the model is built

| file | models |
|---|---|
| `Outcome.dfy`, `Bytes.dfy` | results and errors; little-endian numbers, writing into the middle of a byte string |
| `Layout.dfy` | `LayoutOptions`: where the sections go, and whole histories of rewrites |
| `Values.dfy`, `Blocks.dfy` | the wire form of values and of map blocks, as functions on byte strings |
| `Streams.dfy`, `Codec.dfy` | the decoders, writers, measurers, the key search and the async decoders as they step a stream |
| `Objects.dfy`, `Prefixes.dfy` | the header, the bytes of a whole object, what opening it yields, and `encode_prefix` |
| `Disks.dfy`, `FileSystem.dfy` | a directory of inodes; file handles with a cursor; calls that fail and that are short |
| `ContentReaders.dfy` | `ContentReader` and the polled `ContentSection` |
| `ObjectFiles.dfy` | the classes `ObjectWriter` and `TuxObject` |
| `Updates.dfy`, `Runs.dfy` | the in-place update against the atomic one; whole runs and whole sessions |
| `Protocol.dfy`, `Safety.dfy`, `Interleavings.dfy` | publishing as a step relation of many writers, readers and crashes |
| `ClassSteps.dfy` | what the calls of the classes do to the disk, succeeding or failing, are steps of that relation |

Code that works by changing things is a class or a method with loops, proved against a function of its inputs: a
decoder method is proved to do what decoding the bytes in front of it says, and the laws of the codec are lemmas about
those functions. The writer's and the object's methods are proved against `Plan`, `Fulfils` and snapshots of the file
system taken before and after.

A `HashMap` may be walked in any order. A map is a `map`; one walk of it is any sequence that `Enumerates` it; the
methods that walk a map pick any key that is left; and every law holds for every order.

Every file-system call may fail. Reads and writes may be short. The model keeps the name of the call an I/O error came
out of, so that contracts can say which failures leave which state behind. `Overflow` is an arithmetic panic of a build
with overflow checks, `CapacityOverflow` the panic of an allocation beyond `isize::MAX` bytes. Four ghost fields record
what a contract has to speak of: the bytes a writer has accepted, the renames so far, the number of calls the system has
refused, a write that took nothing included (`refusals`), and the temporary entries whose removal or rename it refused
(`stuck`). `Visible` is the directory without the latter. An error that only the system can cause is never reported
unless the count of refused calls has risen; so on a system that refuses nothing, an operation fails only for the
reasons its contract names.

What the codec libraries make of stored bytes is a parameter of the file system. UTF-8 validity and header-name parsing
are parameters (`TextRules`), with one assumption: a name that parsing produced parses to itself.

## What the proofs found

* An error from `finish`, `set_metadata` or `set_tags` does not mean that nothing was published. The handle is
  duplicated after the rename (`src/fs/writer.rs:198-201`), so a failing `try_clone` reports an error although the new
  object is in place. The contracts give the exact condition: the object was published if and only if the call
  succeeded or the error is the duplication's. After such a failure of a setter the handle is left with the file that
  lost its name, and its next setter undoes what was published (`Runs.OrphanedChangesAreLost`); whether a handle is on
  the file under its name is known at every moment of a session (`Runs.CurrentSessions`).
* `repartition` refuses sections that would fit when packed, if the aligned tag offset has passed 65535, and overflows
  on such sections if the alignment is large enough (`Layout.RepartitionIsExact`, with examples in
  `Layout.RepartitionRefusesPackableSections` and `Layout.RepartitionOverflowsOnPackableSections`).
* In a build without overflow checks, reserves close to 2^64 wrap around, and the layout computed for two sections then
  refuses those very sections, so that `finish` rewrites without end (`Layout.WrappedReservesAreRefused`). It comes to
  an end exactly when one of two content offsets has room, or the rewrite cannot be laid out, or compressed content that
  is not empty would have to be copied (`Layout.FinishEndsExactly`); not every wrap does harm (`Layout.HarmlessWrap`).
  The encoded sizes of two maps are taken to add up within `usize`, since the bytes are in memory.
* A header whose content starts before its tags opens (`Objects.CrossedOffsetsOpen`), but every use of the tag section
  underflows (`src/fs/layout.rs:31-33`); the model answers `Overflow` there, and there only
  (`Objects.TagsOverflowExactly`).
* A range within the declared content may start at a file offset that is no `u64` (`src/fs/object.rs:330`,
  `src/fs/async_io.rs:368`), on a file that opens (`Objects.OverflowingRangeOpens`). The model answers `Overflow`
  there, and there only (`Objects.RangesOverflowExactly`), so that a range may be accepted whose second part is not
  (`Objects.SecondRangeOverflows`); no file that is as long as its header says is affected (`Objects.RangesAreSlices`).
  Reading such a content whole panics before anything is read, because the buffer is allocated with the length in the
  header (`src/fs/object.rs:355-356`): `ReadContentToVec` says exactly when.
* The search for one tag returns the first entry of a repeated key; decoding keeps the last
  (`Blocks.FindAgreesWithDecode`, `Blocks.FindDiffersOnDuplicates`).
* An object with compressed, non-empty content can never take the rewrite path: the raw-write guard of the replacement
  is closed, so an atomic update of it always fails (`Updates.CompressedObjectsCannotBeUpdated`), and the guard refuses
  no other update. `ObjectFiles.UpdateRefused`, `PlanRefused` and `CreationRefused` give every reason, other than a
  system call, for which an update, a `finish` or a `create` fails, and the error; on a system that refuses no call
  these reasons are exactly the failures (`Rewrite`, `ObjectFiles.PublishedExactly`, `Runs.PublishRun`).
* An in-place update that fails while writing may leave the cached header and metadata behind the file
  (`Updates.TornUpdateDisagrees`, `Updates.InterruptedUpdate`); that is the only way a handle and its file come to
  disagree, and any later update that succeeds mends it (`Runs.Session`, `Runs.MendedSessions`).
* A name that is written without `sync` survives a crash with a whole object exactly when every file its entry may
  return to has been flushed (`Interleavings.CrashSafeExactly`).

Where the code and its documentation disagree, the model follows the code:

* `src/lib.rs:267` says that `read_size` leaves the cursor behind the measured value. The measurers of strings and byte
  blocks stop behind the length prefix, those of numbers do not move. `Tags::read_size` repairs this with absolute
  seeks (`Codec.MeasureValueAt`, `Codec.MeasureTags`).
* `README.md:20` gives the published tag offset with the metadata reserve. `finish` repartitions, so the reserve ends up
  behind the tags (`Layout.PublishedWithoutMetadataReserve`). `README.md:15` says both offsets are aligned; the packed
  fallback of `repartition` is not.
* `src/fs/async_io.rs:481` says that dropping the async writer leaves its temporary file behind; its `Drop` at
  `src/fs/async_io.rs:666` removes it.
* `src/fs/writer.rs:68` says that dropping the writer removes the temporary file. A refused rename leaves it behind,
  because the path is given up first (`src/fs/writer.rs:234-237`).

## Model

| member | source | states |
|---|---|---|
| `Layout.AlignUpBounds` | src/fs/layout.rs:163-166 | rounding up yields a multiple of the alignment at or above the value by less than one alignment, alignment 0 counting as 1 |
| `Layout.AlignUpIsLeast` | src/fs/layout.rs:162-166 | no smaller multiple of the alignment will do |
| `Layout.RepartitionIsExact` | src/fs/layout.rs:126-159 | for every alignment: sections are accepted exactly when a sound layout with this content offset exists, the aligned candidate is not the one out of reach of a `u16`, and it can be computed at all; what is accepted is sound, does not move the content, and is aligned whenever any aligned tag offset has room; and exactly when the arithmetic overflows |
| `Layout.RepartitionIsLeast` | src/fs/layout.rs:143-150 | the tag offset picked is the least aligned sound one, or, when not aligned, the least sound one of all: the next multiple of the alignment behind the metadata, or directly behind the metadata |
| `Layout.PickedOffsets` | src/fs/layout.rs:58-66 | the default options, the default layout of an empty object (content at 608), and two sections behind it, one placed aligned and one packed |
| `Layout.RepartitionRefusesPackableSections` | src/fs/layout.rs:145-153 | an input that would fit packed and is refused because the aligned offset passes 65535 |
| `Layout.RepartitionOverflowsOnPackableSections` | src/fs/layout.rs:145-146 | an input that would fit packed and overflows, with an alignment of `usize::MAX` |
| `Layout.FreshLayoutIsLeast` | src/fs/layout.rs:100-123 | the fresh layout honours alignment, both reserves, the floor and the field widths, no other such layout is smaller in either offset, and it is refused only when there is none, with the offset that is beyond its field |
| `Layout.ComputeIsLeast` | src/fs/layout.rs:84-124 | with any floor: the floor's own repartition when the sections fit there or it overflows, and otherwise the least layout that honours reserves, alignment, floor and field widths, refused only when there is none |
| `Layout.ComputeIsSound` | src/fs/layout.rs:84-124 | a computed layout keeps the sections apart and in front of the content, within `u16` and `u32`, and never in front of the floor |
| `Layout.ComputeThenRepartition` | src/fs/writer.rs:258-264 | whatever `compute` lays out for two sizes, `repartition` accepts for the same sizes without moving the content, for all reserves, alignments and floors: a rewrite is at most one deep |
| `Layout.SlackIsPooled` | src/fs/layout.rs:126-130 | behind a fresh layout, sections whose total grew by no more than both reserves together fit however the total is split, for every later alignment, exactly when the tag offset stays in reach and can be computed |
| `Layout.RewritesLeaveSlack` | src/fs/writer.rs:258-264 | a rewrite lays the object out with at least 256 bytes of slack for either section, at the least content offset there is for that, and is refused only when there is none |
| `Layout.SlackTakesGrowth` | src/fs/writer.rs:258-262 | behind such a layout, sections whose total grew by no more than the slack fit without moving the content, exactly when the tag offset is in reach and can be computed |
| `Layout.UnreservedRewrite` | src/fs/writer.rs:258-262 | without any configured reserve, a rewrite moves 40 and 2 bytes of sections to content offset 586 and they are published at tag offset 72; one more byte does not move the content |
| `Layout.PublishedWithoutMetadataReserve` | src/fs/writer.rs:174-185 | with unchanged sections under the default options the published tag offset is the aligned end of the metadata, 256 less than the layout reserved |
| `Layout.RewriteKeepsOrLandsFresh` | src/fs/object.rs:257-269 | an atomic rewrite keeps the content offset, or adds more than both reserves and lands exactly on the default fresh layout |
| `Layout.NoCreep` | src/fs/object.rs:261-266 | over any history of rewrites with sections within M and T the content offset never falls, never passes the larger of its start and the fresh layout of M and T, and moves at most once per 513 bytes |
| `Layout.WrappedReservesAreRefused` | src/fs/writer.rs:176-184 | with wrapping sums, reserves near 2^64 give a layout that refuses the very sections it was computed for, and no number of rewrites ends `finish` of content that can be copied |
| `Layout.RepartitionsAgree` | src/fs/layout.rs:131-159 | the two builds repartition alike, except that the wrapping one refuses where the checking one panics; and it accepts exactly when there is room |
| `Layout.OneDeepWhenWrapping` | src/fs/layout.rs:84-159 | the one-deep bound without overflow checks, exactly: computed sections are accepted again if and only if the computed content offset has room for them |
| `Layout.FinishEndsExactly` | src/fs/writer.rs:250-274 | `finish` without overflow checks comes to an end exactly when the sections fit where the content is, or the content is compressed and not empty so that copying it is refused, or the rewrite cannot be laid out, or it is laid out with room for the sections |
| `Layout.HarmlessWrap` | src/fs/layout.rs:100-112 | a sum that wraps and does no harm |
| `Layout.WrappingAgreesWithinRange` | src/fs/layout.rs:84-124 | checking and wrapping builds compute alike, in answers and errors, exactly as long as the checking one does not panic |
| `Bytes.ToLeDigits` | src/types/num.rs:29-37 | numbers are written little-endian: byte i carries the weight 256 to the power of i |
| `Values.ValueRoundTrip` | macros/src/value_enum/mod.rs:84-115 | every legal value decodes to itself and to exactly `size()` bytes, whatever follows it |
| `Values.ValueCanonical` | macros/src/value_enum/mod.rs:163-181 | on arbitrary bytes, whatever decodes was the encoding of the decoded value, which is legal, and the bytes used are its size and its measure |
| `Values.MeasuredValueDecodes` | macros/src/value_enum/mod.rs:95-104 | a value that measures as lying within the bytes decodes to that size or holds text or a flag its type forbids; nothing that fails to measure decodes |
| `Values.ValueOnTheWire` | src/types/num.rs:107-149 | every value is written as its documented bytes, written out: the type key, then the fields in order, little-endian, negative numbers in two's complement, lengths in two bytes |
| `Values.DecodesFromTheWire` | macros/src/value_enum/mod.rs:105-115 | any bytes decode to a value, using so many of them, if and only if they begin with exactly its documented form; a type key is unknown exactly when it is none of 0 to 14 and 16 |
| `Values.BlobRoundTrip` | src/types/alloc.rs:100-118 | a length-prefixed byte string decodes to itself, whatever follows |
| `Values.BlobCanonical` | src/types/alloc.rs:46-60 | a decoded length-prefixed byte string re-encodes to the bytes it was read from |
| `Values.FixedRoundTrip` | src/types/num.rs:29-61 | numbers, flags, dates and times decode from their payload to themselves, signed numbers through two's complement |
| `Values.FixedCanonical` | src/types/num.rs:38-61 | a decoded fixed-width value re-encodes to the bytes it was read from |
| `Values.DateTimeRoundTrip` | src/types/time.rs:104-130 | a date-time decodes from its 16 bytes to the same date, time and zone |
| `Values.DateTimeCanonical` | src/types/time.rs:104-130 | the 16 bytes of a date-time are recovered from what was decoded |
| `Blocks.EnumerationSize` | src/tags.rs:146-149 | the size of a map is the sum over its pairs in whatever order it is walked, and it has as many entries as pairs |
| `Blocks.PairsSizePick` | src/tags.rs:147 | any pair may be counted first |
| `Blocks.BlockRoundTrip` | src/tags.rs:146-198 | however a legal map is walked, decoding what was written, followed by anything at all, gives back the map and uses exactly its `size()` |
| `Blocks.BlockOnTheWire` | src/tags.rs:151-163 | a block is its documented bytes: the count, then for each entry the length of the key, the key and the value |
| `Blocks.MeasureAgreesWithDecode` | src/tags.rs:165-198 | on every byte string, a block that decodes after n bytes measures as n, its map is well typed, and a tag block is the very encoding of its entries |
| `Blocks.MeasuredBlockDecodes` | src/tags.rs:165-198 | the other direction: a block that measures as lying within the bytes decodes to that size, or fails only for a name, text or flag its type forbids |
| `Blocks.FindAgreesWithDecode` | src/tags.rs:94-109 | on a block that decodes, the search returns the first entry of the key and the decoded map holds the last, and they agree when no key is repeated |
| `Blocks.FindFailsAlike` | src/tags.rs:94-109 | on entries that do not decode the search reports the same error, unless it met the key first |
| `Blocks.FindIsFirst` | src/tags.rs:99-107 | searching decodable entries yields the first with the key |
| `Blocks.MapKeepsLast` | src/tags.rs:191-196 | the decoded map holds the last value of each key |
| `Blocks.FindDiffersOnDuplicates` | src/tags.rs:94-109 | a block with a repeated key on which search and decoder differ |
| `Streams.ByteReader.ReadExact` | src/types/alloc.rs:114-116 | reads exactly n bytes through any short reads, or fails exactly when fewer are left |
| `Streams.SliceCursor.WriteAll` | src/fs/writer.rs:329-335 | overwrites the buffer at the cursor, refused exactly when the data does not fit |
| `Codec.ReadUint` | src/types/num.rs:42-50 | reads what decoding a little-endian number from the bytes in front yields, or its error |
| `Codec.ReadByteVec` | src/types/alloc.rs:50-60 | the byte-by-byte reader yields what decoding a length-prefixed string yields |
| `Codec.ReadLengthPrefixed` | src/tokio_io.rs:78-84 | the async one-read twin, with the same contract as `ReadByteVec` |
| `Codec.ReadString` | src/types/alloc.rs:109-118 | a string is read, or refused when it is not UTF-8 |
| `Codec.ReadBool` | src/types.rs:36-51 | only 0 and 1 are flags |
| `Codec.ReadNumber` | src/types/num.rs:42-50 | dispatch over the number types by type key |
| `Codec.ReadDate` | src/types/time.rs:35-40 | field by field yields what parsing the whole 4 bytes yields |
| `Codec.ReadTime` | src/types/time.rs:64-71 | field by field yields what parsing the whole 8 bytes yields |
| `Codec.ReadTimeZone` | src/types/time.rs:92-95 | the offset with its sign |
| `Codec.ReadDateTime` | src/types/time.rs:120-129 | field by field yields what parsing the whole 16 bytes yields |
| `Codec.ReadValue` | macros/src/value_enum/mod.rs:171-180 | reads what decoding the bytes in front as a value yields: same value and length, or same error |
| `Codec.ReadKey` | src/tags/meta_key.rs:150-158 | reads a tag key or a header name |
| `Codec.ReadTags` | src/tags.rs:184-198 | the decoder loop builds the map of the decoded entries and stops behind the block, or reports the error of the first that fails |
| `Codec.ReadValueAsync` | src/value.rs:78-147 | the hand-written async dispatch, with the contract of `ReadValue`: the two agree on every byte string |
| `Codec.ParseTimeType` | src/types/time.rs:155-195 | the async time types, read whole and parsed, yield the same values |
| `Codec.ReadTagsAsync` | src/tags.rs:223-236 | the async decoder, with the contract of `ReadTags` |
| `Codec.MeasurePrefixed` | src/types/alloc.rs:131-134 | the size is right, and the cursor stops behind the prefix |
| `Codec.MeasureValueAt` | macros/src/value_enum/mod.rs:95-104 | the size is right, and the cursor stops behind the type key or the length prefix |
| `Codec.MeasureTags` | src/tags.rs:165-183 | the measure of the block, with the cursor left behind it, at any offset |
| `Codec.FindTag` | src/tags.rs:94-109 | the search loop does what the search function says |
| `Codec.SizeOf` | src/tags.rs:146-149 | the sum over the pairs in any order is the size |
| `Codec.WriteBlob` | src/types/alloc.rs:100-108 | writes the length and the bytes exactly when the length fits its prefix and the buffer has room |
| `Codec.WriteValue` | macros/src/value_enum/mod.rs:105-115 | writes the type key and the payload exactly when the value is legal and there is room |
| `Codec.WriteTags` | src/tags.rs:151-163 | writes the block of some walk of the map exactly when count and lengths fit their prefixes and the block fits the buffer; with room in the buffer only a count or a length beyond its prefix is refused |
| `Objects.HeaderFields` | src/header.rs:225-255 | every field of every header is at its documented offset, and the reserved bytes are zero |
| `Objects.HeaderOnTheWire` | src/header.rs:146-163 | the header is its documented 32 bytes, written out: signature, version, codec 0, 1 or 2 with its level, the offsets, the length, the flags, zeros |
| `Objects.HeaderFromTheWire` | src/header.rs:107-143 | any bytes decode to a header if and only if they carry the signature, version 0, the documented codec bytes and its fields |
| `Objects.HeadersRefused` | src/header.rs:107-143 | which bytes are no header, and the error for each: too short, no signature, a version but 0, a codec above 2 |
| `Objects.HeaderRoundTrip` | src/header.rs:106-163 | a header is read back exactly when it carries the current version, whatever follows its 32 bytes |
| `Objects.HeaderCanonical` | src/header.rs:106-163 | on arbitrary bytes, re-encoding a decoded header reproduces them exactly when the placeholder bytes, and the level bytes of an uncompressed object, are zero |
| `Objects.CompressionRoundTrip` | src/compression_types.rs:17-31 | the 5-byte field decodes to the same codec and level |
| `Objects.CompressionCanonical` | src/compression_types.rs:17-31 | a decoded field re-encodes to itself, except for level bytes of an uncompressed object |
| `Objects.CompressionFromTheWire` | src/compression_types.rs:21-27 | five bytes decode to a codec if and only if they are its documented ones: 0 with any level bytes, 1 and a signed level, 2 and an unsigned one; above 2 the kind is invalid |
| `Objects.PrefixDecodes` | src/fs/object.rs:81-105 | a prefix opens to the header and metadata and its tag section to the tags it was made of, whatever content follows |
| `Objects.PaddingIsZero` | src/fs/writer.rs:329-336 | what lies between the sections, and between the tags and the content, is zero |
| `Objects.ObjectDecodes` | src/fs/object.rs:81-150 | a complete object opens to exactly its header and metadata, its tags and its content |
| `Objects.OpenIsWellTyped` | src/fs/object.rs:89-96 | on any bytes, opening yields the current version and maps that can be written again |
| `Objects.TagsOverflowExactly` | src/fs/layout.rs:30-33 | using the tags overflows exactly when the content starts before them |
| `Objects.CrossedOffsetsOpen` | src/fs/object.rs:81-105 | a file that opens although its content starts before its tags |
| `Objects.RangesAreSlices` | src/fs/object.rs:303-332 | an accepted range has that slice of the stored content to come, the rest of it when no length is given, on any file, and counts the bytes asked for or all that are declared; a range is accepted exactly when it lies within an uncompressed content and its offset in the file is a `u64`, which it always is on a file no longer than that |
| `Objects.WholeSlices` | src/fs/object.rs:299-332 | on a file that holds its content: `offset..offset + n`, or `offset..`, of the content; and the range from 0 on is all of it |
| `Objects.RangeRefusals` | src/fs/object.rs:308-327 | every other refusal and what it reports: a compressed object, an offset behind the content, an end behind the content |
| `Objects.RangesOverflowExactly` | src/fs/object.rs:329-330 | a range within the content overflows exactly when content start plus offset is no `u64`; where sums wrap around, it would start in front of the content |
| `Objects.OverflowingRangeOpens` | src/fs/object.rs:329-330 | a file that opens and on which a range within its declared content overflows |
| `Objects.AdjacentRanges` | src/fs/object.rs:303-332 | two adjacent ranges, the second one open-ended or not, are both accepted exactly when the range they make up is, the first lies in the content and the file offset of the second is a `u64`, and together they are it |
| `Objects.SecondRangeOverflows` | src/fs/object.rs:329-330 | a range that is accepted whole although its second part overflows |
| `Objects.TagCountIsNumberOfTags` | src/fs/object.rs:153-162 | the first two bytes of the tag section are the number of tags |
| `Prefixes.WriteHeader` | src/header.rs:146-163 | the fields, written one by one, are the encoded header |
| `Prefixes.PrefixIsThreeWrites` | src/fs/writer.rs:329-336 | three writes into a zeroed buffer leave the prefix with zero padding |
| `Prefixes.EncodePrefix` | src/fs/writer.rs:308-337 | succeeds exactly when both maps are legal and fit their sections, and yields the whole prefix for some walk of each map; with room for both, it is refused for a count or length beyond its prefix and nothing else |
| `Disks.WriteAtTwice` | src/fs/writer.rs:288-289 | two adjacent writes are one write |
| `FileSystems.File.WriteAll` | src/fs/writer.rs:192 | everything is written through any short writes, or a prefix of it |
| `FileSystems.File.ReadExact` | src/fs/object.rs:85 | exactly n bytes through any short reads, or an error |
| `FileSystems.FileSystem.Rename` | src/fs/writer.rs:237 | atomic: the name holds the file as it was, or nothing changed but that the entry is stuck |
| `ContentReaders.ContentReader.Read` | src/fs/reader.rs:29-39 | delivers a prefix of what is to come, empty only at the end or for an empty buffer; the rest is still to come and `remaining` counts down |
| `ContentReaders.ContentReader.ReadMany` | src/fs/reader.rs:29-39 | for any sequence of buffer sizes the delivered bytes are a prefix of the range and `remaining` counts the rest |
| `ContentReaders.ContentReader.ReadToEnd` | src/fs/object.rs:354-360 | terminates with exactly the range |
| `ContentReaders.ContentSection.PollRead` | src/fs/async_io.rs:449-476 | one poll has the guarantees of `ContentReader.Read`, and nothing changes while pending |
| `ContentReaders.ContentSection.PollMany` | src/fs/async_io.rs:449-476 | for any sequence of polls, pending ones included, the guarantees of `ContentReader.ReadMany` |
| `ObjectFiles.CreateTempFile` | src/fs/writer.rs:339-368 | exclusive creation under the first temporary name that is free, of 32 from the counter on; fails for the lack of one exactly when all 32 are taken, and otherwise only when the system refuses the call |
| `ObjectFiles.ObjectWriter.Create` | src/fs/writer.rs:92-120 | a writer behind the computed layout with a new file under the first free temporary name, or no trace; an error comes out of a refused call, or is exactly the codec's, the layout's or the lack of a name, and none of these lets it succeed |
| `ObjectFiles.ObjectWriter.Write` | src/fs/writer.rs:280-291 | accepts a prefix of the buffer behind the content so far, unless the raw-write guard is closed |
| `ObjectFiles.ObjectWriter.WriteAll` | src/fs/writer.rs:280-291 | appends everything, or fails; refused by the raw-write guard exactly when it is closed and there is something to write |
| `ObjectFiles.ObjectWriter.SetMetadata` | src/fs/writer.rs:126-128 | changes only the metadata to be published |
| `ObjectFiles.ObjectWriter.SetTags` | src/fs/writer.rs:133-135 | changes only the tags to be published |
| `ObjectFiles.ObjectWriter.ContentEncoder` | src/fs/writer.rs:161-167 | opens the guard, and answers whether this build has the codec |
| `ObjectFiles.ObjectWriter.WriteOut` | src/fs/writer.rs:190-196 | the prefix over the front of the file, then the flush; a failure leaves a part of it written |
| `ObjectFiles.ObjectWriter.Drop` | src/fs/writer.rs:297-303 | removes the temporary entry and changes nothing else |
| `ObjectFiles.ObjectWriter.Abort` | src/fs/writer.rs:209-219 | removes the temporary entry and reports a refused removal |
| `ObjectFiles.ObjectWriter.Seal` | src/fs/writer.rs:187-196 | the file is a complete object with the last sections and the accepted content, flushed when asked to; unless the system refused, it fails for a count or length beyond its prefix only |
| `ObjectFiles.ObjectWriter.Publish` | src/fs/writer.rs:232-246 | the name holds the file and the temporary entry is gone, or, when the rename is refused, the entry is left behind; with `sync`, and no call refused, the entry cannot return to an earlier value |
| `ObjectFiles.ObjectWriter.SealThenPublish` | src/fs/writer.rs:187-198 | the prefix, the flush and the rename in this order, or the write is abandoned without touching any name |
| `ObjectFiles.ObjectWriter.SealAndPublish` | src/fs/writer.rs:187-206 | the fast path, with a coherent handle on the published file |
| `ObjectFiles.ObjectWriter.Finish` | src/fs/writer.rs:169-207 | on both paths: exactly one rename, to a complete object with the last metadata, tags and content under the repartitioned layout, no temporary entry left; or no name and no other file touched, and then either a call was refused or the plan is one that is refused, with that error; a plan with no reason to be refused is published unless the system refuses a call |
| `ObjectFiles.PublishedExactly` | src/fs/writer.rs:169-207 | on a system that refuses nothing `finish` publishes a plan if and only if there is no reason to refuse it |
| `ObjectFiles.RefusedPlansAreNotFulfilled` | src/fs/writer.rs:169-207 | the other direction: a plan that is refused for a layout, an overflow, the raw-write guard or its sections has no object at all that fulfils it |
| `ObjectFiles.RewrittenObjectsHaveSlack` | src/fs/writer.rs:258-262 | what a rewrite publishes has its content where the least layout with 256 bytes of slack per section, or more, has it, and takes later growth of that much in total without moving it |
| `ObjectFiles.RefusedRewritesHaveNoRoom` | src/fs/writer.rs:264 | a rewrite that is refused for its layout has no layout that leaves the slack |
| `ObjectFiles.ObjectWriter.FinishByRewriting` | src/fs/writer.rs:248-274 | the slow path meets the contract of `Finish` for the first writer, refusals included; it runs at most once |
| `ObjectFiles.Copy` | src/fs/writer.rs:269-270 | the copy appends exactly what the bounded reader had to come, and is refused by the raw-write guard only when that is closed and something was to come |
| `ObjectFiles.Fill` | src/fs/writer.rs:266-270 | a window of another file becomes the content, unless the system refused or the window is not empty and the guard closed |
| `ObjectFiles.CreateFilled` | src/fs/object.rs:270-274 | a new writer with the stored content copied into it, or no trace of one; unless the system refused, for the codec, the layout, or compressed content that is not empty |
| `ObjectFiles.TuxObject.Open` | src/fs/object.rs:31-42 | a coherent handle on the file of the name, or the error that opening its bytes yields, or a refused call; nothing else |
| `ObjectFiles.TuxObject.FromFile` | src/fs/object.rs:81-105 | cached header and metadata are what opening the bytes yields |
| `ObjectFiles.TuxObject.ReadTags` | src/fs/object.rs:139-150 | the tags in the file, or their error, or a refused call |
| `ObjectFiles.TuxObject.FindTag` | src/fs/object.rs:164-176 | the search on the tag section of the file |
| `ObjectFiles.TuxObject.TagCount` | src/fs/object.rs:152-162 | the count in the first two bytes, 0 for an empty section; an error exactly for crossed offsets, a file that is too short, or a refused call |
| `ObjectFiles.TuxObject.StoredContentReader` | src/fs/object.rs:290-297 | what is to come is the stored content |
| `ObjectFiles.TuxObject.ContentRangeReader` | src/fs/object.rs:299-332 | what is to come is the slice of the stored content that is asked for, all the rest of it without a length; refused exactly as the range is, before anything is sought, or by the system |
| `ObjectFiles.TuxObject.SeekWithinContent` | src/fs/async_io.rs:337-372 | the async range check, positioned on that slice of the stored content or refused exactly as the blocking one refuses |
| `ObjectFiles.TuxObject.PolledRangeReader` | src/fs/async_io.rs:289-300 | the polled reader has the same slice to come as the blocking one, and refuses the same ranges |
| `ObjectFiles.TuxObject.ReadContentToVec` | src/fs/object.rs:334-360 | the content whole: as stored, or what the codec library makes of it, when the build has it; a capacity panic exactly when the header declares more than `isize::MAX` bytes |
| `ObjectFiles.TuxObject.Rewrite` | src/fs/object.rs:253-278 | the name holds a new file with the new sections and the stored content, and the handle moves to it; or the handle and its file are as they were; an error comes out of a refused call or is a reason to refuse the update; on a system that refuses nothing it succeeds if and only if there is no such reason, and the new object, its name included, is on stable storage |
| `ObjectFiles.TuxObject.SetMetadata` | src/fs/object.rs:180-187 | the new metadata with the tags and content of the file; on a system that refuses nothing it succeeds if and only if the tags can be read and there is no reason to refuse the update |
| `ObjectFiles.TuxObject.SetTags` | src/fs/object.rs:189-194 | the new tags with the cached metadata and the content of the file, on any handle, one that a torn write left behind included; on a system that refuses nothing it succeeds if and only if there is no reason to refuse the update |
| `ObjectFiles.TuxObject.WritePrefix` | src/fs/object.rs:244-246 | replaces the front of the file; a failure may tear it, but nothing behind it changes |
| `ObjectFiles.TuxObject.PrepareInPlace` | src/fs/object.rs:224-243 | the header and prefix of an in-place update, or exactly why it is refused: read-only, overflow, no room, or sections that cannot be encoded, in this order |
| `ObjectFiles.TuxObject.SetSectionsInPlace` | src/fs/object.rs:211-251 | on success the prefix is replaced, every byte from the content on stays, and cache and file agree, even if they did not before; a refusal changes nothing, and on a system that refuses nothing there is one exactly when it does not succeed; an I/O failure leaves a part of the prefix written and the content alone, and after a failed flush the cache agrees exactly if header and metadata did not change |
| `Updates.SameLayout` | src/fs/object.rs:219-269 | when an in-place update is possible the atomic setter chooses the same layout |
| `Updates.PublishedOffset` | src/fs/object.rs:257-269 | the content offset an atomic update publishes is the one the layout histories are about |
| `Updates.FastRefinesSlow` | src/fs/object.rs:219-278 | the prefix of an in-place update is that of the atomic one for the same walks, apart from the bit flags, which the atomic one clears; they are equal exactly when the flags were clear; the content is the same |
| `Updates.FlagsAreOneByte` | src/header.rs:154 | the flags are the one byte at offset 23 |
| `Updates.InterruptedUpdate` | src/fs/object.rs:244-249 | for every number of bytes an in-place write was cut off after, exactly when the cache agrees: always within the first 9; at 10 by the low byte of the tag offset; up to the end of the header if the header did not change; within the metadata section if besides the mixed bytes decode to the cached map; behind it if neither header nor metadata changed |
| `Updates.TornHeader` | src/header.rs:107-143 | of two headers that differ in the tag offset, any mixture of the first bytes of one and the rest of the other decodes to a header with a mixed tag offset and every other field unchanged, whatever the ignored bytes hold |
| `Updates.TornUpdateDisagrees` | src/fs/object.rs:213-215 | an object and an update whose interruption leaves the cache behind |
| `Updates.CompressedObjectsCannotBeUpdated` | src/fs/writer.rs:280-283 | a complete object with one byte of compressed content, which opens and on which every atomic update is refused by the raw-write guard |
| `Runs.Apply` | src/fs/writer.rs:122-167 | one edit changes the plan as the edit says |
| `Runs.ApplyAll` | src/fs/writer.rs:122-167 | any sequence of edits, failed and refused writes included, leaves the last sections and the accepted bytes |
| `Runs.FinishAndReopen` | src/fs/writer.rs:169-207 | what was published opens to exactly what was planned; any failure but the system's means nothing was published and the plan is one that is refused, with that error |
| `Runs.PublishRun` | src/fs/writer.rs:59-68 | the whole-run round trip: a run of create, writes with short counts or failures, and edits, that publishes leaves exactly the last metadata, the last tags and the accepted bytes under the name, on both paths; any other leaves no trace; on a system that refuses no call it publishes and reopens if and only if there is no reason to refuse its options or its plan, and with `sync` the object is on stable storage |
| `Runs.ServeSetter` | src/fs/object.rs:180-194 | on any handle, an atomic setter that publishes does its own section and keeps the other and the content under the name; carried out, the handle goes along and agrees; when only the duplication failed, the handle stays with the file that lost its name; on a system that refuses nothing it is carried out if and only if there is no reason to refuse it |
| `Runs.ServeOther` | src/fs/object.rs:211-251 | reads show what is there; in-place updates keep the content and mend a torn handle; only a torn write leaves the cache behind; the name shows the same as long as its file is the handle's |
| `Runs.Session` | src/fs/object.rs:178-278 | from any handle on any file, over any sequence of setters, in-place updates and reads, each of which may fail, be torn or be published without the handle, the last two only if the system refuses a call: the sections follow from what was carried out, the content is what it was, cache and file agree unless torn and not mended since, and what the name shows, and whether the handle is on it, is known throughout |
| `Runs.MendedSessions` | src/fs/object.rs:178-278 | a session ends torn exactly when an in-place write was torn, or the handle was at first, and no update was carried out since |
| `Runs.CurrentSessions` | src/fs/writer.rs:198-206 | the handle's file is the one under its name exactly when it was at first and no setter left it behind, or some setter succeeded since the last that did |
| `Runs.OrphanedChangesAreLost` | src/fs/object.rs:180-194 | what a setter published without its handle is undone by the next setter through that handle |
| `Runs.UpdateMany` | src/fs/object.rs:253-278 | no creep on the file system: over any sequence of atomic updates, some failing, the content is where the history of the carried-out ones puts it, so it never moves back, never beyond the larger of its start and the fresh layout of M and T, and moves at most once per 513 bytes |
| `Runs.ReadAdjacent` | src/fs/async_io.rs:289-300 | what the blocking reader delivers of one range and what the polled one has to come of the next, open-ended or not, are the range they make up; on a system that refuses nothing both succeed exactly when that range and the second offset are accepted |
| `Protocol.DecidedFits` | src/fs/writer.rs:176-188 | a prefix that `finish` decided on has room for both sections in front of the content |
| `Safety.InitIsSafe` | src/fs/writer.rs:66-68 | the invariant holds before anybody is at work |
| `Safety.BeginKeeps` | src/fs/writer.rs:341-368 | exclusive creation keeps the invariant: nobody else has the new file or name |
| `Safety.PublishKeeps` | src/fs/writer.rs:232-246 | a rename keeps the invariant |
| `Safety.LeaveKeeps` | src/fs/writer.rs:297-303 | a writer that gives up, at any point, keeps the invariant |
| `Safety.CrashKeeps` | src/fs/writer.rs:194-196 | a crash keeps the invariant of the names that are always flushed |
| `Safety.WritingStepKeeps` | src/fs/writer.rs:190-193 | streaming content and writing the prefix, in pieces of any size, keep the invariant |
| `Safety.SectionsStepKeeps` | src/fs/writer.rs:174-188 | editing, choosing the prefix and flushing keep the invariant |
| `Safety.ReaderComes` | src/fs/object.rs:31-42 | opening a name keeps the invariant: no reader gets a file somebody still writes |
| `Safety.StepKeeps` | src/fs/writer.rs:59-68 | every step of every writer, setter and reader, and every crash, keeps the invariant |
| `Interleavings.RunKeeps` | src/fs/writer.rs:59-68 | the invariant holds at every moment of every run |
| `Interleavings.OnlyPublishingChangesNames` | src/fs/writer.rs:66-68 | only a successful rename changes what a name holds, and puts a complete object there; failed, aborted and dropped writers never do |
| `Interleavings.MadeByFinishing` | src/fs/writer.rs:169-207 | every object counted as made was put there by a `finish` of the run |
| `Interleavings.PublicationSafety` | src/fs/writer.rs:66-68 | in every interleaving, at every moment, a name is absent, holds what it started with, or holds one complete object that some `finish` put there; with crashes, for names only written with `sync` |
| `Interleavings.HeldUntilPublished` | src/fs/writer.rs:66-68 | what a name holds stays until the next publication under it |
| `Interleavings.ReadersKeepTheirObject` | src/fs/object.rs:31-42 | a reader keeps the whole object it opened, whatever is renamed over the name |
| `Interleavings.UpdatesKeepContent` | src/fs/object.rs:270-275 | an atomic update publishes the stored content of the very object its handle had open, whoever else is at work |
| `Interleavings.CrashSafeExactly` | src/fs/writer.rs:194-198 | a name survives every crash with a whole object or none if and only if every file its entry may return to has been flushed |
| `Interleavings.DurableNamesSurvive` | src/fs/writer.rs:194-198 | names only written with `sync` meet that condition at every moment of every run, because the flush comes before the rename |
| `Interleavings.StableNamesSurvive` | src/fs/writer.rs:238-244 | an object on stable storage, file and name, is still there after any crash |
| `Interleavings.ValuesAreRemembered` | src/fs/writer.rs:238-244 | every value an entry may return to is one it held since the directory was flushed |
| `Interleavings.CrashTakesBack` | src/fs/writer.rs:238-244 | a crash takes a durable name back to a whole value it held since the directory was flushed |
| `Interleavings.OldOrNew` | src/fs/object.rs:180-183 | a crash at any moment while at most one update has been published since the directory was flushed, before its rename or after it, leaves the whole old object or, only after it, the whole new one |
| `Interleavings.StepAccounts` | src/fs/writer.rs:209-246 | every step keeps the account of temporary entries |
| `Interleavings.TempsAreConserved` | src/fs/writer.rs:209-246 | the temporary entries are those of the live writers, pairwise distinct, and those left behind, which only a crash, a refused rename or a refused removal adds to |
| `ClassSteps.CreateIsBegin` | src/fs/writer.rs:92-120 | creating a writer object is a `Begin`; a creation that fails is no step, or a `Begin` and a `Vanish` |
| `ClassSteps.WriteIsAccept` | src/fs/writer.rs:280-291 | a write, with the count it returns, is a step of the protocol |
| `ClassSteps.SetMetadataIsEdit` | src/fs/writer.rs:126-128 | changing the metadata is a step of the protocol |
| `ClassSteps.SetTagsIsEdit` | src/fs/writer.rs:133-135 | changing the tags is a step of the protocol |
| `ClassSteps.DropIsVanish` | src/fs/writer.rs:297-303 | dropping a writer object is a `Vanish`, with or without its entry |
| `ClassSteps.AbortIsVanish` | src/fs/writer.rs:209-219 | aborting one is a `Vanish`, and tells whether the entry is gone |
| `ClassSteps.FastEndSteps` | src/fs/writer.rs:187-206 | whatever the fast path does to the disk, succeeding or failing anywhere, is steps of the protocol |
| `ClassSteps.SlowEndSteps` | src/fs/writer.rs:250-274 | so is whatever the slow path does, with a second writer that copies the content of the first |
| `ClassSteps.FinishIsARun` | src/fs/writer.rs:169-207 | `finish`, on both paths and with every outcome, is steps of the protocol: with exactly one rename, which makes the planned object, when it publishes, and with none when it does not |
| `ClassSteps.UpdateIsARun` | src/fs/object.rs:253-278 | an atomic update is a writer that copies the stored content of the object its handle has open, to the end or given up |
| `ClassSteps.QuietStepsKeepNames` | src/fs/writer.rs:66-68 | steps without a rename, which is all a failed, aborted or dropped writer takes, change what no name holds |

## Left out

- The zstd and gzip codecs, `ContentEncoder` and `DecodedContentReader`: foreign libraries. The model keeps the compression field, the raw-write guard, the bytes as stored, and an unknown function from stored to decoded bytes.
- `AsyncObjectWriter` and the section updates of `AsyncTuxObject` are not modelled; of the async layer the model has the decoders, the range check and the polled content reader.
- `open_optional`, `set_sections`, `modify_metadata`, `file_size` and the accessors: one call or one field each of what is modelled.
- `Option`, `HashMap`, `HashSet`, `[u8; N]`, `Uuid`, `bytes` and chrono values: no section is made of them in the default build.
- Arithmetic on `f32` and `f64`: they are 4- and 8-byte bit patterns.
- UTF-8 validation and header-name parsing are parameters of the model.
- How paths are formatted, file permissions and more than one directory: a temporary name is its own kind of path, and no object is stored under one.
- The temporary-name counter never wraps around.
- Two handles that update one file in place at the same time: the documentation rules it out (`src/fs/object.rs:213-215`); in the protocol a file that has a name is never written.
- `Layout.WrappedReservesAreRefused`: builds without overflow checks are modelled for the layout and the recursion of `finish` only; in a tag section or a range that overflows, the model answers `Overflow`, as a checking build panics.
- `ObjectFiles.TuxObject.ReadContentToVec`: an allocation of at most `isize::MAX` bytes succeeds; running out of memory is not modelled.
- `Streams.ByteReader.ReadExact`: where the cursor is after a failed read is not stated, as the standard library leaves it unspecified.
- `FileSystems.File.ReadExact`: where the cursor is after a failed read is not stated, as the standard library leaves it unspecified.
- `Codec.WriteTags`: what the buffer holds after a refused write is not stated, because `encode_prefix` discards it.
- `Runs.Session`: that a request is carried out unless there is a reason against it or the system refuses a call is stated of one request at a time, by `Runs.ServeSetter` and `Runs.ServeOther`.
- `Runs.UpdateMany`: which updates of the sequence are carried out is stated of one update at a time, by `ObjectFiles.TuxObject.Rewrite`.
- `Protocol.DecidedFits`: the protocol leaves open which layout a writer begins with and which codec it declares; the classes fix both.
- Error message text, derive-attribute parsing, the command line stub and memory accounting.
