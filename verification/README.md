# Verified model of the DataSeries core

DataSeries stores traces as extents: arrays of fixed-size records with a pool of variable-length strings. An extent is
packed into bytes by a stack of in-place transformations, the packed extents are written to a file by a pool of
threads, and analysis programs read them back. This project models that core in Dafny and proves that it keeps what it
is for: no value is lost, no check fails on honest data, no extent is dropped, repeated or reordered.

## How it is organised

| file | what it models |
|---|---|
| Bytes | bytes, little-endian words, wrap-around, overwriting part of a buffer |
| LzfFormat, LzfHash, LzfCompress, LzfDecompress | the LZF stream format, the hash of three bytes, compressor and decompressor |
| Compression | choosing among compression algorithms and undoing the choice |
| RecordFormat | the layout facts the codec relies on |
| RecordLayout, LayoutParser, TypeParser, ParsedTypes, DeclaredTypes | how the type parser accepts fields and places them, that it only produces such layouts, and with the options that were declared |
| StringPool, StringFields, StringColumns | entries of the string pool, and writing variable32 fields into the records of an extent |
| RelativePacking, RelativeFrame, NullCompaction, StringPacking, StringPackingLaws | the stages of packing as functions, and their inverses |
| RelativeWords, CompactLayout, StringSharing | what these stages store: the words of relative fields, the places of compacted fields, who shares a string |
| ExtentFrame | the bytes of one packed extent |
| LengthWalk | the walk over the string lengths of any pool, and when it ends |
| ExtentCodec, ExtentRoundTrip | packing and unpacking as a whole, and the end-to-end laws |
| UnpackChecks | which bytes unpacking accepts, and how it ends on all others |
| ExtentBuffers, NullBuffers, FrameBuffers | the same stages as loops over byte arrays, in place, proved against the functions |
| ExtentPacker | packData and unpackData with their buffers, from the first stage to the last |
| SinkFile, FileChecks | the bytes of a file: header, extents, index, tail; reading them back, and what the readers accept |
| Pipeline, PipelineInvariant, PipelineRuns, BackPressure, SinkWorkers | producers, compressors, the writer and close as a step system, how far producers can run ahead, and the code of its steps |
| Rotation | rotating from file to file |
| SortedIndex | searching a sorted index of extents |
| RollingWindow, PacketReorder | the rolling bandwidth window and the reordering in front of it |
| TimeFields | fixed-point time conversions |

The source rewrites buffers in place and updates fields; those parts are methods on arrays and classes, each proved
against a function of the old contents. The laws are lemmas about these functions. Concurrent code is a step system:
one action is one stretch of code between taking and releasing a mutex, in any order the mutex allows, with spurious
wakeups; the invariants hold over every run.

Every failed check of the source (an INVARIANT, a FATAL_ERROR, a zero return) is a `None`, a `false` or an error
outcome here; a loop that does not end is an outcome of its own. Hashes, checksums, the external compression
libraries, `std::sort` and the packing of the index extent are parameters, restricted only by what the source itself
asks of them. Debug-only checks count as checks.

## Where the code and its intent part

- `Rotation.CarriedOutIfNamed`: `changeFile` accepts the empty name and reports success, but an empty name is also how
  the sink marks that no rotation is under way, so nothing happens and the next call is accepted at once. An accepted
  call is carried out, once, before the next one is accepted, if and only if its name is not empty;
  `Rotation.EmptyNameForgotten` shows an instance. The name "/" closes the current sink.
- `LengthWalk.ForEverIsTwice`: the walk of unpackData over the string lengths reads them as signed numbers, and does not
  check that they are not negative. It goes on for ever if and only if it comes to some position in the pool twice. At a
  length from -11 to -4 it stands still, at a lower one, or one within eleven of 2^31, it goes back. As long as none that
  it meets goes back, it ends if and only if none stands still (`LengthWalk.ForwardWalkEnds`). After going back it may
  come to the end (`LengthWalk.BackAndToTheEnd`) or not (`LengthWalk.BackForEver`). `ExtentPacker.UnpackExtent` follows
  the walk wherever it goes, with an outcome of its own where it never ends. Bytes that packData made never get there.
- `RollingWindow.LoopEnds`: the step of the window is a 20th of its width, rounded down, so that the loop never comes to a
  packet more than the width behind the start if and only if the width is below 20 time units;
  `RollingWindow.NarrowWindow` shows an instance.
- `PacketReorder.IPRollingPacketStatistics.ReorderProcessRow`: the largest time seen starts at 0, and the check that a
  packet still waits fails if and only if all packets so far are at least the reordering time before 0 and one of them
  is so twice. `PacketReorder.OnePacket` shows instances.
- `PacketReorder.IPRollingPacketStatistics.CompleteProcessing`: with reordering switched on, a trace whose packets all
  lie within less than twice the reordering time of the largest time seen, which counts from 0, ends in a failing check,
  because the windows are only set up once that span is reached; the contract states this as an equivalence, and
  `PacketReorder.OnePacket` shows instances.
- `TimeFields.NanosecondsInRange`: converting from 2^-32 second units gives a full 10^9 nanoseconds exactly when the low
  32 bits are at least 2^32 - 2, which the source's debug check excludes.
- `TimeFields.PrintedMeaning`: the printed form of a time strictly within the second before the epoch has lost its sign;
  all other times print as what they are.
- `NullCompaction.CompactRoundTrip`: null compaction is undone exactly for records whose padding and null fields are
  zero; the field accessors and the clearing loop keep both so.
- An empty part leaves the compression mode byte of the header unset in the source; here it is an arbitrary byte
  (`Compression.Compressed`), and no law depends on it.
- `unpackLZF` reports success for a stream that does not decode; `Compression.UnpackLzf` keeps this, and the length
  check behind it catches the case.

## Model

| member | source | states |
|---|---|---|
| LzfFormat.DecodeAppend | src/liblzf-1.6/lzf_d.c:57-136 | a stream that decodes keeps its meaning as the front of a longer one: decoding is token by token |
| LzfFormat.DecodeAnyCapacity | src/liblzf-1.6/lzf_d.c:65-69 | the size of the output buffer matters only through being large enough |
| LzfFormat.CopyBackUnique | src/liblzf-1.6/lzf_d.c:128-133 | a back reference, overlapping its own output or not, is the one extension that repeats the output with its distance as period |
| LzfFormat.ReferenceMeans | src/liblzf-1.6/lzf_c.c:75-81 | the bytes of a back reference, written out: two for up to 8 bytes, three for up to 264, at a distance of up to 8192; they append the text that stands that far back |
| LzfFormat.LiteralMeans | src/liblzf-1.6/lzf_c.c:75-81 | a run of 1 to 32 literals stands behind its length less one |
| LzfHash.NextFindsSlot | src/liblzf-1.6/lzf_c.c:48-52 | the hash value is carried along in 32 bits, but the slot it selects depends on the three bytes at the position alone |
| LzfHash.NextPrimed | src/liblzf-1.6/lzf_c.c:48-52 | carried over by one byte, it is ready for the next position |
| LzfCompressor.MatchLength | src/liblzf-1.6/lzf_c.c:140-149 | the longest agreement of candidate and cursor, within the limits on length and input |
| LzfCompressor.LiteralExtends | src/liblzf-1.6/lzf_c.c:151-158 | appending a literal run moves the meaning of the stream on by exactly that run |
| LzfCompressor.ReferenceExtends | src/liblzf-1.6/lzf_c.c:160-173 | appending a two or three byte reference moves the meaning on by the matched text |
| LzfCompressor.EmitMatch | src/liblzf-1.6/lzf_c.c:138-173 | pending literals and a reference are written, and the stream then means all input up to the end of the match |
| LzfCompressor.Round | src/liblzf-1.6/lzf_c.c:114-218 | one round, exactly: where the slot of the three bytes at the cursor holds a candidate that is near enough, agrees on three bytes and has five bytes of input left, the match is taken to its full length for the pending literals and at most 4 bytes more, otherwise one literal; it gives up exactly without room for that; the table then holds the position, and the last two of a match |
| LzfCompressor.Compress | src/liblzf-1.6/lzf_c.c:83-242 | for every input and every hash table content: terminates, a nonzero result is below the buffer size and means the whole input, grows it by at most one byte in 32, and a buffer with that much room is never refused; one byte repeated n times takes at most 11 bytes and 3 for every 264 of them |
| LzfDecompressor.Decompress | src/liblzf-1.6/lzf_d.c:49-139 | on every non-empty stream: terminates, and equals the recursive decoder of the three token forms, or returns 0 exactly when that decoder fails |
| LzfDecompressor.RoundTrip | src/liblzf-1.6/lzf_c.c:114-241 | what means the input decodes to the input in every buffer at least as long |
| LzfDecompressor.CompressThenDecompress | src/liblzf-1.6/lzf_c.c:114-241 | both directions run one after the other give the input back |
| Compression.BestIsShortest | src/base/Extent.cpp:1190-1213 | the choice is the first of the shortest attempts, if it shrinks the input |
| Compression.CompressedIsShortest | src/base/Extent.cpp:1190-1213 | the result is no longer than any attempt; its mode is 0 exactly when no attempt is shorter than the input, and then it is the input; otherwise it is what the algorithm of its mode gave, and every attempt before that one is longer |
| Compression.CompressedDecodes | src/base/Extent.cpp:1160-1257 | whatever was chosen is no longer than the input and uncompresses to it |
| Compression.CompressBytes | src/base/Extent.cpp:1160-1225 | the loop over the algorithms computes that choice: no longer than any attempt, the input under mode 0 or the attempt of its mode |
| Compression.PackLzf | src/base/Extent.cpp:1022-1043 | packLZF only keeps strictly shrinking output, and unpackLZF undoes it; one byte repeated 12 times or more is always kept |
| StringPool.RoundUpAsComputed | include/DataSeries/Variable32Field.hpp:232-234 | the rounded size is the least that fills whole 8-byte units with the header, and equals the source's formula |
| StringPool.EntryAt | src/base/ExtentField.cpp:195-216 | an offset that passes selfcheck is exactly the encoding of its string |
| StringPool.AtEntry | src/base/ExtentField.cpp:195-216 | an encoding at an aligned offset passes selfcheck and reads back |
| StringPool.ChainAppend | src/base/ExtentField.cpp:153-165 | appending an entry keeps the pool a run of entries |
| StringPool.PlaceHolds | src/base/Extent.cpp:661-684 | a placed string is at the returned offset, which is 4 mod 8, and everything already placed stays where it is |
| StringPool.PackedFits | src/base/Extent.cpp:651-686 | the packed pool is no larger than the source pool when only unique columns share storage |
| StringFields.WriteText | src/base/ExtentField.cpp:174-192 | after a partial write every sound offset is sound, and only the entry written to holds another string |
| StringFields.NewEntry | src/base/ExtentField.cpp:153-165 | a new entry keeps all others |
| StringFields.Selfcheck | src/base/ExtentField.cpp:195-216 | the check with its loop over the padding accepts exactly the sound offsets |
| StringColumns.WriteSlot | src/base/ExtentField.cpp:149-171 | storing an offset and clearing the null bit changes that offset word, that null bit, and nothing else in the records |
| StringColumns.AllocateKeeps | src/base/ExtentField.cpp:149-157 | a new entry keeps all offsets sound, shares no storage, and leaves every other string as it is |
| StringColumns.FillKeeps | src/base/ExtentField.cpp:174-192 | writing into a string changes that part of that string, and no other string |
| StringColumns.OtherFieldsFree | src/base/ExtentField.cpp:149-157 | writing other fields changes nothing for the strings |
| StringColumns.ExtentStrings.constructor | src/base/Extent.cpp:286-288 | new records have an empty string in every variable32 field |
| StringColumns.ExtentStrings.CreateRecords | src/base/Extent.cpp:286-288 | records appended between writes have empty strings, and all others stay as they are |
| StringColumns.ExtentStrings.Clear | include/DataSeries/Variable32Field.hpp:172-178 | the field is empty and not null; nothing else in the records changes, every other string is kept |
| StringColumns.ExtentStrings.SetNull | include/DataSeries/Field.hpp:182-194 | the null bit changes, every string stays |
| StringColumns.ExtentStrings.AllocateSpace | src/base/ExtentField.cpp:132-172 | the field gets an entry of its own with that many zero bytes, and the pool grows by just that entry; nothing else in the records changes, every other string is kept |
| StringColumns.ExtentStrings.PartialSet | src/base/ExtentField.cpp:174-192 | accepted exactly when the data lies inside the string; then only that part of that string changes |
| StringColumns.ExtentStrings.Set | include/DataSeries/Variable32Field.hpp:180-183 | the field holds exactly the data; nothing else in the records changes, every other string is kept |
| StringColumns.WrittenPacks | src/base/ExtentField.cpp:149-157 | the offset words of records written with the accessors are sound and share no storage, whatever columns are unique, so their strings pack without a failed check into no more space than their own pool |
| StringPacking.ClearFieldsCleared | src/base/Extent.cpp:616-649 | clearing zeroes exactly the bytes of null fields |
| StringPacking.PackVarsEffect | src/base/Extent.cpp:651-686 | every column of a record names the same string as before, nothing else in the record changes, the pool only grows |
| StringPacking.NormalizeEffect | src/base/Extent.cpp:610-686 | the same over all records: after packing, every offset is sound in the packed pool and names its old string |
| StringPackingLaws.UniqueShared | src/base/Extent.cpp:663-678 | two fields of unique columns hold the same string exactly when they hold the same offset |
| StringSharing.NotUniqueAlone | src/base/Extent.cpp:663-682 | a non-empty string of a column that is not unique shares its offset with no other field of any record |
| StringPackingLaws.NormalizeAgain | src/base/Extent.cpp:610-686 | renumbering and de-duplicating strings is idempotent |
| StringPackingLaws.WellBuiltPacks | src/base/Extent.cpp:651-686 | strings at sound offsets, with storage shared by unique columns at most, pack without a failed check, into no more space than their own pool |
| RelativePacking.UnpackPackOthers | src/base/Extent.cpp:687-730 | fields relative to other fields, packed from last to first, are restored from first to last, chains of bases included |
| RelativePacking.UnpackPackSelfs | src/base/Extent.cpp:731-772 | self-relative fields are restored, and the running values move on exactly as in packing, null records skipped |
| RelativePacking.UnpackPackRecords | src/base/Extent.cpp:687-772 | over any number of records, with wrap-around at 32 and 64 bits, unpacking undoes packing |
| RelativeFrame.PackRecordUntouched | src/base/Extent.cpp:687-772 | relative packing changes no byte outside relative fields that are not skipped |
| RelativeWords.PackedSelfWord | src/base/Extent.cpp:731-772 | over any number of records: the stored word of a self-relative field is its word less that in the latest record before which does not drop the field (0 without one), modulo the width; as it is where null compaction drops the field |
| RelativeWords.PackedOtherWord | src/base/Extent.cpp:687-730 | the stored word of an other-relative field is its word less the plain word of its base, modulo the width |
| RelativeWords.UnpackedSelfWord | src/base/Extent.cpp:1451-1493 | for any stored records: the word read is the stored one and that unpacked from the latest record before which does not drop the field, modulo the width |
| RelativeWords.UnpackedOtherWord | src/base/Extent.cpp:1494-1533 | the word read is the stored one and the unpacked word of the base, modulo the width |
| NullCompaction.CompactRoundTrip | src/base/Extent.cpp:327-569 | expanding gives the records back with padding and null fields zeroed, so exactly the clean records survive |
| NullCompaction.RecordNoLonger | src/base/Extent.cpp:344-363 | the output cursor never passes the input cursor at the end of a record, alignment padding included |
| NullCompaction.NoLonger | src/base/Extent.cpp:411-422 | the compacted bytes fit the buffer of the records |
| CompactLayout.FieldStored | src/base/Extent.cpp:360-409 | in the compacted bytes of any number of records, the bools stand right behind the record before, and every field that is not null at a position aligned to its width, with only zeros between it and what is in front of it |
| CompactLayout.RecordLength | src/base/Extent.cpp:360-409 | the exact length of a compacted record: its bools and the fields that are not null, with one alignment for those of 4 and one for those of 8 bytes |
| CompactLayout.RecordTight | src/base/Extent.cpp:360-409 | that is at most seven bytes more than the bools and these fields |
| CompactLayout.AcceptedLength | src/base/Extent.cpp:512-569 | expanding accepts only input of the very length that its records compact to, so nothing is left over |
| ExtentFrame.ParseFrame | src/base/Extent.cpp:846-888 | reading a packed extent gives back all of its parts |
| ExtentFrame.FrameWordsRead | src/base/Extent.cpp:861-867 | the six header words stand at fixed places: compressed sizes, record count, pool size, digest, hash |
| ExtentFrame.HeaderRead | src/base/Extent.cpp:868-874 | so do the two mode bytes, the length of the name, and the name |
| ExtentFrame.DigestedSame | src/base/Extent.cpp:883-888 | the digest covers the same bytes whatever digest is stored, so it can be filled in last |
| ExtentCodec.ChunkFlatten | src/base/Extent.cpp:610-612 | flat bytes cut at the record size are the records |
| LengthWalk.AdvanceIs | include/DataSeries/Variable32Field.hpp:232-234 | what 4 + roundupSize comes to in 32-bit arithmetic, for every signed length |
| LengthWalk.MoveSigns | include/DataSeries/Variable32Field.hpp:232-234 | the walk stands still exactly at lengths from -11 to -4, and goes back exactly at lower ones and those within eleven of 2^31; it moves by whole 8-byte units |
| LengthWalk.ForEverIsTwice | src/base/Extent.cpp:1350-1368 | for every pool: the walk stays inside for ever if and only if it comes to some position twice |
| LengthWalk.Decided | src/base/Extent.cpp:1350-1368 | whether it does is decided after as many turns as the pool has bytes |
| LengthWalk.StillStays | src/base/Extent.cpp:1350-1368 | a length at which it stands still keeps the walk for ever, whatever came before |
| LengthWalk.ForwardWalkEnds | src/base/Extent.cpp:1350-1368 | for every pool in which no length met goes back: the walk comes to the end, past it or to less than a word before it, if and only if it meets no length at which it stands still |
| LengthWalk.ForwardWalkReachesEnd | src/base/Extent.cpp:1350-1368 | in a pool of whole 8-byte units behind its first word, that is the end or past it |
| LengthWalk.BackAndToTheEnd | src/base/Extent.cpp:1350-1368 | a pool with a length of -12, which takes the walk back, and it still comes to the end |
| LengthWalk.BackForEver | src/base/Extent.cpp:1350-1368 | the same pool with -20, in which it goes round for ever |
| LengthWalk.MinusEightStays | src/base/Extent.cpp:1350-1368 | the same pool with -8, in which it stands still |
| ExtentCodec.WalkEnds | src/base/Extent.cpp:1350-1368 | for every pool: the outcome is a hash exactly when the walk comes to the end, a failed check exactly when it comes past it, and endless exactly when it stays inside for ever |
| ExtentCodec.BackwardHashed | src/base/Extent.cpp:1350-1371 | in the pool with -12 the hash covers the lengths in the order in which the walk meets them |
| ExtentCodec.HashSizesIsBlocks | src/base/Extent.cpp:811-828 | on a run of entries the walk over the string lengths comes to the end, and hashes them in blocks of 1024 |
| ExtentRoundTrip.EndToEnd | src/base/Extent.cpp:578-896 | whenever packing succeeds, unpacking its bytes ends, fails no check and returns the same number of records, each normalized: every byte outside strings and cleared nulls, and every string, is the same |
| ExtentRoundTrip.ValueSurvives | src/base/Extent.cpp:1274-1542 | in reader's terms: the same null flags, and the same value in every field that is no string and not dropped as null |
| ExtentRoundTrip.StringSurvives | src/base/Extent.cpp:1274-1542 | in reader's terms: the same string in every string field that is not dropped as null |
| ExtentRoundTrip.WritingKeepsPadding | src/base/ExtentField.cpp:149-171 | what the accessors write leaves the padding of a record zero, as the end-to-end law asks |
| ExtentRoundTrip.PackAgain | src/base/Extent.cpp:578-896 | what unpackData makes of the bytes of packData is coded to the same records and pool, and packed to the same bytes when compression does the same again |
| ExtentRoundTrip.CanonicalForm | src/base/Extent.cpp:610-828 | decoding the coded form and coding it again gives the same fixed and variable bytes before compression |
| ExtentRoundTrip.PackedPoolWalks | src/base/Extent.cpp:811-828 | in packData the walk over the string lengths always ends, for any extent whose strings pack |
| ExtentRoundTrip.WellBuiltExtentPacks | src/base/Extent.cpp:578-896 | an extent with sound offsets, and storage shared by unique columns at most, packs exactly when both compressed parts stay below 512 MiB |
| ExtentRoundTrip.WrittenExtentPacks | src/base/Extent.cpp:578-896 | an extent written with the accessors is such an extent |
| UnpackChecks.HashedInBlocks | src/base/Extent.cpp:1350-1371 | on any pool whose end the walk comes to, the hash covers the length words that it meets, in blocks of 1024, wherever it goes |
| UnpackChecks.UnpackIntact | src/base/Extent.cpp:1274-1542 | for bytes whose name, digest and lengths are right and whose parts uncompress to records and a pool: each of the four ends is characterised by where the walk goes, the hash word, and the offsets; the value is the records with relative packing undone, and the pool |
| UnpackChecks.RefusedUnlessIntact | src/base/Extent.cpp:1274-1348 | all other bytes are refused |
| UnpackChecks.UnpackAccepts | src/base/Extent.cpp:1274-1542 | for all bytes: unpackData returns if and only if the name and the lengths are right, the word at 16 is the digest of all other bytes, both parts uncompress to what the header announces, the walk comes to the end of the pool, the word at 20 is the hash of records, pool and lengths, and all offsets are sound |
| UnpackChecks.WrongDigest | src/base/Extent.cpp:1294-1298 | bytes with a wrong digest are refused, whatever else they are |
| UnpackChecks.CheckWordsMatter | src/base/Extent.cpp:1294-1377 | accepted bytes, packed ones among them, in which nothing but the digest and the hash are changed, are refused, another hash under a digest that fits it included |
| ExtentBuffers.ClearNullsAt | src/base/Extent.cpp:616-649 | in place: the null fields of one record are cleared, the rest of the buffer is untouched |
| ExtentBuffers.PackString | src/base/Extent.cpp:655-684 | one string: refused exactly when a check fails, otherwise looked up or copied behind the packed pool |
| ExtentBuffers.PackVarsAt | src/base/Extent.cpp:651-686 | in place: the string columns of one record |
| ExtentBuffers.PackOthersAt | src/base/Extent.cpp:690-730 | in place: the other-relative fields of one record, last to first |
| ExtentBuffers.UnpackOthersAt | src/base/Extent.cpp:1494-1533 | in place: the inverse, first to last |
| ExtentBuffers.PackSelfsAt | src/base/Extent.cpp:731-772 | in place: the self-relative fields of one record with their running values |
| ExtentBuffers.UnpackSelfsAt | src/base/Extent.cpp:1451-1493 | in place: the inverse |
| ExtentBuffers.CodePassIsTwoPasses | src/base/Extent.cpp:610-793 | doing all steps record by record is the same as packing all strings first and all relative fields second |
| ExtentBuffers.PackFixed | src/base/Extent.cpp:605-793 | the record loop of packData on its two buffers: fails exactly when the specification does, otherwise leaves the coded records in place and the packed pool in front |
| ExtentBuffers.UnpackFixed | src/base/Extent.cpp:1401-1534 | the record loop of unpackData on its buffer: fails exactly on a bad string offset, otherwise leaves the plain records in place |
| ExtentBuffers.HashSizesLoop | src/base/Extent.cpp:1350-1371 | the batching loop, following lengths that go back as well, comes to the specified outcome, with the specified hash at the end of the pool |
| NullBuffers.PadTo | src/base/Extent.cpp:385-407 | the padding loops, including the one that writes four bytes at a time, leave zeros up to the alignment |
| NullBuffers.CompactNulls | src/base/Extent.cpp:327-425 | the loop on two buffers computes the compaction, and its check for room never fails |
| NullBuffers.UncompactCopy | src/base/Extent.cpp:466-510 | aligning once per list is enough |
| NullBuffers.UncompactNulls | src/base/Extent.cpp:512-569 | the loop on two buffers succeeds exactly when both cursors end at their ends, and then restores the records |
| FrameBuffers.PutDigest | src/base/Extent.cpp:883-888 | storing the digest over the other bytes afterwards is framing with that digest |
| FrameBuffers.WriteExtent | src/base/Extent.cpp:846-888 | writing header, parts and padding behind a cursor, then the digest, gives exactly the specified extent |
| ExtentPacker.PackExtent | src/base/Extent.cpp:578-896 | packData on its buffers, stage after stage, computes the specification, failures included |
| ExtentPacker.UnpackExtent | src/base/Extent.cpp:1274-1542 | unpackData on its buffers ends as specified: with the specified extent, in a failing check, with a length word outside the pool, or not at all |
| RecordLayout.FieldsApart | src/base/ExtentType.cpp:509-549 | for every field list, ordering and padding mode: two fields never share a byte, bools never a bit |
| RecordLayout.FieldInside | src/base/ExtentType.cpp:509-549 | every field lies inside the record, bit positions are below 8 |
| RecordLayout.FieldAlignedInArray | src/base/ExtentType.cpp:509-549 | 4 and 8 byte fields are aligned in every record of an array |
| RecordLayout.SmallestRecord | src/base/ExtentType.cpp:509-549 | in both orderings and padding modes the record is the smallest that holds all fields and whose size is a multiple of the widest field, or of 8 in the original mode |
| RecordLayout.FieldsInOrder | src/base/ExtentType.cpp:511-539 | fields stand in the order of the passes, and within a pass in that of their declarations, bools bit by bit |
| LayoutParser.ParsePackBitFields | src/base/ExtentType.cpp:125-147 | the loop gives the k-th bool bit k, eight to a byte, and touches no other entry |
| LayoutParser.ParsePackByteAlignedFields | src/base/ExtentType.cpp:149-166 | the loop places byte and fixedwidth fields end to end; fails exactly on a fixedwidth field without size |
| LayoutParser.ParsePackInt32Fields | src/base/ExtentType.cpp:168-180 | the loop places int32 fields end to end, its alignment assertion holds |
| LayoutParser.ParsePackVar32Fields | src/base/ExtentType.cpp:182-197 | the same for variable32 fields |
| LayoutParser.ParsePackSize8Fields | src/base/ExtentType.cpp:199-212 | the same for 8-byte fields |
| LayoutParser.AssignPositions | src/base/ExtentType.cpp:505-549 | all passes together compute the layout, in both orderings and padding modes |
| TypeParser.ColumnNumber | src/base/ExtentType.cpp:609-622 | the first column of that name, or -1 exactly when there is none |
| TypeParser.GetColumnNumber | src/base/ExtentType.cpp:609-622 | the loop finds that column |
| TypeParser.ParsedWell | src/base/ExtentType.cpp:319-503 | whatever list is accepted: nullable fields are followed by their own bool, names are distinct, bases come first and have the same type |
| TypeParser.AcceptedIs | src/base/ExtentType.cpp:319-503 | a list is accepted if and only if each declaration is sound in its own terms and those of the declarations before it: name, attributes for its type, and a base of the same numeric type |
| TypeParser.EachDeclared | src/base/ExtentType.cpp:358-503 | every declared field has its own column with its name, type, uniqueness and null field, and is relative to itself or to the named base exactly when declared so |
| TypeParser.ColumnCount | src/base/ExtentType.cpp:484-502 | there are no other columns |
| TypeParser.ParseFields | src/base/ExtentType.cpp:319-503 | the loop accepts exactly those lists, and its counters say whether there are 4 and 8 byte fields |
| ParsedTypes.SortAssign | src/base/ExtentType.cpp:108-123 | whatever the sort does with equal keys, the list of 4-byte fields ends up with all int32 before all variable32 fields |
| ParsedTypes.BoolBytes | src/base/ExtentType.cpp:551-562 | the loop computes one more than the last byte that holds a bool |
| ParsedTypes.BoolBytesIsPrefix | src/base/ExtentType.cpp:551-562 | small to big, these are exactly the front bytes that only bools use |
| ParsedTypes.FieldsHas | src/base/ExtentType.cpp:563-589 | every column that is neither bool nor fixedwidth is in the lists null compaction uses |
| ParsedTypes.FieldsFrom | src/base/ExtentType.cpp:563-589 | and nothing else is |
| ParsedTypes.ParsedTypeValid | src/base/ExtentType.cpp:215-603 | every type the parser produces meets the assumptions of the codec laws |
| ParsedTypes.ParsedOneWay | src/base/ExtentType.cpp:450-482 | in every parsed type a field is packed relative in at most one way, and a base is never packed after its user, as the laws on stored words ask |
| DeclaredTypes.DeclaredPlace | src/base/ExtentType.cpp:484-589 | every declared field that is no bool and of no fixed width is in the lists of the codec with the width of its type, and has a null bit, that of the bool made for it, exactly if it is nullable |
| DeclaredTypes.DeclaredString | src/base/ExtentType.cpp:406-414 | it is packed as a string exactly if it is a variable32 field, and as unique exactly if it says so |
| DeclaredTypes.DeclaredSelf | src/base/ExtentType.cpp:455-472 | it is packed relative to itself exactly if it names itself |
| DeclaredTypes.DeclaredOther | src/base/ExtentType.cpp:473-482 | it is packed relative to another field exactly if it names one, and then to the field of that name and type declared before it |
| SinkFile.TailVerified | src/base/DataSeriesSink.cpp:205-217 | a tail passes verifyTail, and its words read back |
| SinkFile.NeverATail | src/base/Extent.cpp:1582-1590 | no packed extent starts like a tail |
| SinkFile.ReadPacked | src/base/Extent.cpp:1568-1607 | preadExtent at an extent returns exactly its bytes and moves just behind it |
| SinkFile.WriterInfo.Write | src/base/DataSeriesSink.cpp:387-406 | each extent gets an index row with the offset where it starts, and goes to the end of the file |
| SinkFile.WriterInfo.Close | src/base/DataSeriesSink.cpp:162-229 | the index holds a row for itself, and the tail names its size and offset |
| SinkFile.HeaderReads | src/base/DataSeriesSource.cpp:87-115 | the reader accepts the header of every file |
| SinkFile.ClosedFileReads | src/base/Extent.cpp:1568-1607 | repeated reading recovers exactly the extents and stops at the tail |
| SinkFile.ClosedFileIndex | src/base/DataSeriesSink.cpp:394-396 | every index row, that of the index included, finds its extent |
| SinkFile.ClosedFileTail | src/base/DataSeriesSource.cpp:140-164 | the tail is accepted: its packed size leads back from the tail to the index offset it names |
| FileChecks.HeaderIs | src/base/DataSeriesSource.cpp:87-115 | the header check passes if and only if the file begins as the writer begins it, whatever the three doubles |
| FileChecks.TailIs | src/base/DataSeriesSink.cpp:302-323 | verifyTail passes if and only if the tail is the one that the writer makes of the size, the checksum and the offset in it |
| FileChecks.ReadIs | src/base/Extent.cpp:1568-1607 | at every offset of every file: an extent, the tail, the end of the file or a failed check, exactly when the sizes, the length of the file and the tail say so |
| FileChecks.ReadAllTakesAll | src/base/Extent.cpp:1568-1607 | repeated reading up to the tail returns all bytes from where it began to a tail that verifyTail accepts |
| SinkFile.PackDataIsPacked | src/base/Extent.cpp:846-896 | what packData returns is an extent in this sense |
| PipelineRuns.StepKeepsInv | src/base/DataSeriesSink.cpp:330-431 | every action of producers, compressors, writer and close keeps the invariant |
| PipelineInvariant.OrderKept | src/base/DataSeriesSink.cpp:374-417 | written, held and pending extents stay the queueing order, each extent once |
| PipelineInvariant.BytesKept | src/base/DataSeriesSink.cpp:456-516 | the byte count stays the sum over pending entries of size, twice the size, or packed size, plus what the writer holds |
| PipelineInvariant.PackingKept | src/base/DataSeriesSink.cpp:533-545 | an entry in progress has exactly one compressor, and stays in the queue |
| PipelineInvariant.WorkKept | src/base/DataSeriesSink.cpp:350-352 | unclaimed work never meets only sleeping compressors |
| PipelineInvariant.WriteKept | src/base/DataSeriesSink.cpp:553-576 | a ready front never meets a sleeping writer |
| PipelineInvariant.RoomKept | src/base/DataSeriesSink.cpp:350-363 | a producer waits only while the queue is full or the writer is mid-write |
| PipelineRuns.ChecksAlwaysPass | src/base/DataSeriesSink.cpp:410-513 | the assertions on sizes and queues never fail, so the count never underflows |
| PipelineRuns.EveryRun | src/base/DataSeriesSink.cpp:374-576 | in every interleaving the file holds a prefix of the queueing order, and after close everything, with no bytes left |
| PipelineRuns.SomeWorkerCanStep | src/base/DataSeriesSink.cpp:518-576 | while anything is unfinished or somebody waits, some worker has a step to take |
| PipelineRuns.WorkerDescends | src/base/DataSeriesSink.cpp:518-576 | every worker step decreases a rank |
| PipelineRuns.WorkerRunsEnd | src/base/DataSeriesSink.cpp:518-576 | without new work, runs of worker steps are bounded by it |
| BackPressure.ProducerWaits | src/base/DataSeriesSink.cpp:330-363 | behind each look at the queue a producer is let go if and only if the bytes in progress are below the limit and fewer than two extents a compressor are pending; otherwise it waits |
| BackPressure.LeavesWithRoom | src/base/DataSeriesSink.cpp:355-363 | a producer that waits is let go by nothing but such a look |
| BackPressure.QueueBounded | src/base/DataSeriesSink.cpp:330-363 | in every state of every run with N compressors and P producers fewer than 2N + P extents are pending, and fewer than 2N while no producer is inside |
| BackPressure.LimitChanged | src/base/DataSeriesSink.cpp:87-95 | a changed limit holds from then on; raising it wakes all compressors and producers that sleep |
| BackPressure.PackedOnAccount | src/base/DataSeriesSink.cpp:496-516 | packing takes an extent on the account from twice its size to its packed size, and makes it ready to write |
| SinkWorkers.DataSeriesSink.QueueWriteExtent | src/base/DataSeriesSink.cpp:330-363 | the code between lock and wait is the action of the step system; the producer then waits unless there is room |
| SinkWorkers.DataSeriesSink.FindUnclaimed | src/base/DataSeriesSink.cpp:533-541 | the loop finds the first unclaimed entry |
| SinkWorkers.DataSeriesSink.CompressorScan | src/base/DataSeriesSink.cpp:531-547 | claiming, waiting and ending are the action of the step system |
| SinkWorkers.DataSeriesSink.CompressorFinish | src/base/DataSeriesSink.cpp:496-561 | settling the sizes and announcing room and a ready front are the action of the step system |
| SinkWorkers.DataSeriesSink.CollectReady | src/base/DataSeriesSink.cpp:374-379 | the loop takes exactly the ready front of the queue |
| SinkWorkers.DataSeriesSink.WriteBatch | src/base/DataSeriesSink.cpp:386-407 | the loop writes the batch in order and counts its bytes |
| SinkWorkers.DataSeriesSink.FinishBatch | src/base/DataSeriesSink.cpp:381-417 | space is given back, and announced, only after writing |
| SinkWorkers.DataSeriesSink.SetMaxBytesInProgress | src/base/DataSeriesSink.cpp:87-95 | raising the limit wakes compressors and producers |
| SinkWorkers.DataSeriesSink.StopThreads | src/base/DataSeriesSink.cpp:68-85 | close wakes everybody and takes no new work |
| SinkWorkers.DataSeriesSink.WriterTurn | src/base/DataSeriesSink.cpp:567-576 | one turn of the writer alone moves exactly the ready front of the queue to the file |
| SinkWorkers.DataSeriesSink.CloseRest | src/base/DataSeriesSink.cpp:169-173 | after the rest is written nothing is pending, no bytes are in progress, and every extent is in the file, in order |
| SinkWorkers.DataSeriesSink.WriteIndex | src/base/DataSeriesSink.cpp:184-202 | the index extent goes through the same account, every check on it passes, and the account is empty again |
| SinkWorkers.DataSeriesSink.CloseJoined | src/base/DataSeriesSink.cpp:169-202 | close from the end of the threads on writes all extents and then the index, each once, in order |
| Rotation.StepKeepsInv | src/base/RotatingFileSink.cpp:145-209 | every action of writers, rotations, waiters and the worker keeps the invariant |
| Rotation.EveryRun | src/base/RotatingFileSink.cpp:75-209 | the files in rotation order and then what is pending are the accepted extents in order; pending only without a current sink; the rotations granted with a name are carried out one after the other, each once; the sinks are the files they open; at the end all sinks are closed |
| Rotation.CarriedOutIfNamed | src/base/RotatingFileSink.cpp:124-131 | an accepted changeFile is carried out, once, before the next is accepted, if and only if its name is not empty |
| Rotation.EmptyNameForgotten | src/base/RotatingFileSink.cpp:157-161 | the empty name is accepted, the worker goes back to sleep, and the next call is accepted |
| Rotation.RotationProceeds | src/base/RotatingFileSink.cpp:113-209 | a rotation under way always leaves the worker a step that brings its end closer, without one the worker has at most one look left, and waiters only wait for a rotation under way |
| Rotation.WaitsForChange | src/base/RotatingFileSink.cpp:113-121 | a caller of waitForCanChange returns from a look if and only if no rotation is under way, and sleeps otherwise; nothing else lets it go |
| Rotation.RotatingFileSink.Write | src/base/RotatingFileSink.cpp:75-88 | the extent goes to the current sink, or behind what is pending |
| Rotation.RotatingFileSink.Change | src/base/RotatingFileSink.cpp:124-143 | accepted exactly when no rotation is under way, the empty name included; refused without effect |
| Rotation.RotatingFileSink.SwapIn | src/base/RotatingFileSink.cpp:177-196 | the new sink takes everything pending, in order |
| Rotation.RotatingFileSink.Turn | src/base/RotatingFileSink.cpp:157-207 | one turn of the worker alone does what the step system says, and carries the rotation under way out |
| SortedIndex.BuildFails | include/DataSeries/SortedIndexModule.hpp:80-89 | building the index fails exactly when two neighbouring rows of one file are out of order |
| SortedIndex.BuiltWell | include/DataSeries/SortedIndexModule.hpp:66-95 | the per-file lists hold all rows in order and are sorted as the search needs |
| SortedIndex.Index.constructor | include/DataSeries/SortedIndexModule.hpp:45-97 | the constructor's loop builds these lists |
| SortedIndex.LowerBound | include/DataSeries/SortedIndexModule.hpp:118-129 | the first entry that does not end below the value |
| SortedIndex.Search | include/DataSeries/SortedIndexModule.hpp:163-176 | lower bound and contiguous scan find exactly what a filter over the list finds |
| SortedIndex.SortedIndexModule.Range | include/DataSeries/SortedIndexModule.hpp:208-222 | the extents found are those of all files that overlap the range, in index order |
| SortedIndex.SortedIndexModule.Values | include/DataSeries/SortedIndexModule.hpp:182-201 | the extents found are those in the range of some value, sorted |
| SortedIndex.SortedIndexModule.Next | include/DataSeries/SortedIndexModule.hpp:227-245 | hands out the next extent behind equal neighbours, or none at the end |
| SortedIndex.ValuesOnce | include/DataSeries/SortedIndexModule.hpp:182-245 | for a set of values, every matching extent is handed out exactly once, in the order of files and offsets |
| SortedIndex.EmittedAll | include/DataSeries/SortedIndexModule.hpp:227-245 | when no two index rows describe the same extent, skipping equal neighbours skips nothing |
| RollingWindow.BandwidthRolling.TakeSample | src/analysis/ipdsanalysis.cpp:423-438 | the sample recorded is right for everything seen, and the window moves on by one step |
| RollingWindow.BandwidthRolling.Update | src/analysis/ipdsanalysis.cpp:413-442 | refuses exactly packets that are out of order; otherwise the packet joins, all samples are right, and the queue total is the sum of the queue |
| RollingWindow.LoopEnds | src/analysis/ipdsanalysis.cpp:423-438 | for every width and packet: the loop comes to the packet if and only if the width is at least 20 units or the packet lies within the width already |
| RollingWindow.NarrowWindow | src/analysis/ipdsanalysis.cpp:423-438 | a window of 19 units never comes to a packet 20 units behind its start |
| RollingWindow.SamplesAreSums | src/analysis/ipdsanalysis.cpp:423-438 | every sample is the total size and count of all packets of the whole stream in its closed interval |
| RollingWindow.SampleStarts | src/analysis/ipdsanalysis.cpp:433 | the k-th sample starts k steps behind the start |
| PacketReorder.IPRollingPacketStatistics.ProcessPendingPackets | src/analysis/ipdsanalysis.cpp:381-389 | everything up to the limit is handed over in time order, nothing is lost |
| PacketReorder.IPRollingPacketStatistics.ReorderProcessRow | src/analysis/ipdsanalysis.cpp:316-335 | refuses exactly late packets; taken packets wait or are handed over once, none waits that is twice the reordering time behind the largest time seen, and none is handed over less than that time behind it; the internal check fails exactly when all packets so far are at least the reordering time before 0 and one of them twice that |
| PacketReorder.IPRollingPacketStatistics.CompleteProcessing | src/analysis/ipdsanalysis.cpp:337-342 | hands over everything, each packet once in nondecreasing order; fails exactly when all packets lie within less than twice the reordering time of the largest time seen |
| PacketReorder.OnePacket | src/analysis/ipdsanalysis.cpp:316-342 | a trace of one packet fails: on its row exactly when it is at least twice the reordering time before 0, otherwise at the end |
| PacketReorder.FillWindow | src/analysis/ipdsanalysis.cpp:375-380 | what is handed over never fails the order check of a window |
| TimeFields.SecNanoSurvives | src/base/Int64TimeField.cpp:204-228 | seconds and nanoseconds survive the trip through 2^-32 second units |
| TimeFields.NearestFrac32 | src/base/Int64TimeField.cpp:215-228 | the 2^-32 second units are the nearest to the seconds and nanoseconds, halves up |
| TimeFields.NearestSecNano | src/base/Int64TimeField.cpp:204-212 | and the nanoseconds are the nearest to the units |
| TimeFields.NanosecondsInRange | src/base/Int64TimeField.cpp:204-212 | the nanoseconds are in range exactly when the low half is below 2^32 - 2 |
| TimeFields.Frac32Moves | src/base/Int64TimeField.cpp:204-228 | the opposite trip moves a time by at most two units |
| TimeFields.Frac32MovesByTwo | src/base/Int64TimeField.cpp:204-228 | two units are reached |
| TimeFields.FloorBySteps | src/base/Int64TimeField.cpp:230-244 | the corrected machine quotient is the floor, for negative times too, and the checks on the rest hold |
| TimeFields.SplitJoin | src/base/Int64TimeField.cpp:230-244 | splitting succeeds exactly in the 32-bit range of seconds, and joining gives the time back |
| TimeFields.JoinSplit | src/base/Int64TimeField.cpp:230-244 | splitting a joined time gives its parts back |
| TimeFields.SplitMicroJoin | src/base/Int64TimeField.cpp:246-258 | a microsecond time is the same time in nanoseconds |
| TimeFields.PrintedMeaning | src/base/Int64TimeField.cpp:127-138 | the printed time is the time, except strictly within the second before the epoch |

## Left out

- Double fields in relative packing, pack_scale and doublebase: rounding there depends on IEEE arithmetic and is lossy on purpose. Doubles without these options are covered as 8-byte fields.
- zlib, bz2, lzo, snappy and lz4: their output and decoders are parameters with the contract that decoding undoes packing.
- The Bob Jenkins hash and adler32: parameters with results below 2^32; which corruption they detect is not modelled.
- The environment variables that switch checks off: all checks are on.
- Byte-swapped files, memory growth of byte arrays, statistics, timing, logging and warnings.
- XML itself: the parser starts from field elements already read. Type names, versions and namespaces are not modelled.
- Null compaction of types with fixedwidth fields or big to small ordering: the size-1 loop moves a single byte of a fixedwidth field, and the bool bytes are a prefix only in the other ordering.
- Pools and record areas of 2^31 bytes and more, and files of 2^63 bytes and more: the source's offsets wrap there.
- ExtentBuffers.PackFixed: the memory behind variable_coded is not modelled; the debug check that packed strings fit is taken as a check.
- ExtentBuffers.HashSizesLoop: the loop of the model counts its turns and stops when it can never end; that of the source goes on. Signed 32-bit sums are taken to wrap around. A length word that does not lie in the pool is an outcome of its own; the source reads whatever memory is there.
- ExtentPacker.UnpackExtent: a size word of 2^31 or more for one of the two parts is refused; the source reads these words as signed and only checks their sum, which two such words can meet. The reader of files refuses them before.
- LzfCompressor.Compress: for inputs of fewer than two bytes the source reads past the input for its first hash value; here that value is 0. Only the VERY_FAST configuration is modelled.
- ExtentPacker.PackExtent: types without any field, whose records have size 0, are excluded.
- LzfDecompressor.Decompress: an empty stream is excluded, because the source reads its first byte unconditionally.
- Alignment of buffers: positions count from the start of a buffer, which the allocator aligns to at least eight bytes.
- SinkFile.WriterInfo.Close: the second index row that the source makes for the index extent while writing it is not modelled; it goes to an extent that is discarded. The byte account of the index extent is in SinkWorkers.DataSeriesSink.WriteIndex.
- PipelineRuns.EveryRun: at least one compressor, a positive byte limit, and no caller racing with close; the mode without threads, flushPending, rotate and removeStatsUpdate are not modelled.
- Rotation: two rotations to the same file name truncate the older file on disk; the model is about sinks, not names on disk. flush and changing the callback are not modelled.
- SortedIndex.Search: index rows have a smallest value that is not above their largest, and file names are not empty, as the tool that writes the index leaves them.
- SortedIndex.LowerBound: the library's binary search, written out; std::sort is a parameter that returns a sorted permutation.
- RollingWindow.BandwidthRolling.Update: sizes are exact integers instead of doubles, times do not overflow, the width is at least 20 time units (below that RollingWindow.LoopEnds says when the loop ends), and the first packet is not before the start, which its callers take from that packet.
- PacketReorder.IPRollingPacketStatistics.ReorderProcessRow: times are exact integers; the 64-bit differences of the source do not overflow.
- TimeFields: the two conversions through double are exact rational roundings.
- Reading fields, the other field types, general values, the expression language, other modules and report programs.
